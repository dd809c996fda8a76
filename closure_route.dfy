/** A route whose handler is a closure (src/Definition/ClosureRoute.php). */
module ClosureRoute {
  import opened Wrappers
  import opened RouterTypes

  const ClassMethodRefused: string := "Defining a class method on a callable (closure or array) is not supported"

  class ClosureRoute {
    const pattern: string
    /** The closure, with the parameters its signature declares. */
    const handler: Handler
    /** Inherited from the route record; set by disableReflection(). */
    var skipReflection: bool

    constructor (pattern: string, id: nat, parameters: seq<RouteParameter>)
      ensures this.pattern == pattern && handler == ClosureHandler(id, parameters) && !skipReflection
    {
      this.pattern := pattern;
      handler := ClosureHandler(id, parameters);
      skipReflection := false;
    }

    /** classMethod(): always refused, whatever the method. */
    method ClassMethod(m: string) returns (r: Result<ClosureRoute>)
      ensures r == Err(RouterConfiguration(ClassMethodRefused))
    {
      r := Err(RouterConfiguration(ClassMethodRefused));
    }

    /** disableReflection(): sets the flag and returns the route itself. */
    method DisableReflection() returns (r: ClosureRoute)
      modifies this`skipReflection
      ensures r == this && skipReflection
    {
      skipReflection := true;
      r := this;
    }

    /** getHandler(): the closure given to the constructor. */
    function GetHandler(): (h: Handler)
      ensures h == handler
    {
      handler
    }
  }
}
