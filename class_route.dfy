/** A route whose handler is a class (src/Definition/ClassRoute.php). */
module ClassRoute {
  import opened Wrappers

  const DisableReflectionRefused: string := "Disabling reflection is only supported for callables"

  class ClassRoute {
    const pattern: string
    /** The class-string of the handler. */
    const handler: string
    var classMethod: Option<string>

    constructor (pattern: string, handler: string)
      ensures this.pattern == pattern && this.handler == handler && classMethod == None
    {
      this.pattern := pattern;
      this.handler := handler;
      classMethod := None;
    }

    /** classMethod(): sets the method and returns the route itself. */
    method ClassMethod(m: string) returns (r: ClassRoute)
      modifies this`classMethod
      ensures r == this && classMethod == Some(m)
    {
      classMethod := Some(m);
      r := this;
    }

    /** disableReflection(): always refused. */
    method DisableReflection() returns (r: Result<ClassRoute>)
      ensures r == Err(RouterConfiguration(DisableReflectionRefused))
    {
      r := Err(RouterConfiguration(DisableReflectionRefused));
    }

    /** getHandler(): the class-string given to the constructor. */
    function GetHandler(): (h: string)
      ensures h == handler
    {
      handler
    }
  }
}
