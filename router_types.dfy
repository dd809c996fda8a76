/** Values shared by the route records, the router and its adapters: handlers,
    middleware references, and the outputs of PHP reflection, which the model takes
    as inputs instead of computing them. */
module RouterTypes {
  import opened Wrappers

  /** A parameter default value. Its PHP value is never inspected, only passed on. */
  datatype Value = NullValue | DefaultOf(id: nat)

  /** One handler parameter as getParameterClosure records it from reflection
      (shaped like src/Definition/RouteParameter.php). `isBackedEnum` is the answer of
      is_subclass_of($type, BackedEnum::class), which PHP computes at run time. */
  datatype RouteParameter = RouteParameter(
    name: string,
    variadic: bool,
    optional: bool,
    nullable: bool,
    builtIn: bool,
    typeName: string,
    defaultValue: Value,
    isBackedEnum: bool)

  /** A method of a handler class as reflection reports it: name, visibility, the
      path of its #[Route] attribute if it carries one, and its parameters. */
  datatype MethodInfo = MethodInfo(
    name: string,
    isPublic: bool,
    route: Option<string>,
    parameters: seq<RouteParameter>)

  /** A handler class as reflection reports it: its methods in declaration order and
      the path of its class-level #[Route] attribute if it carries one. */
  datatype ClassInfo = ClassInfo(methods: seq<MethodInfo>, route: Option<string>)

  /** A route handler: a class-string, or a closure (identified by `id`) together with
      the parameters its signature declares. */
  datatype Handler =
    | ClassHandler(className: string)
    | ClosureHandler(id: nat, parameters: seq<RouteParameter>)

  /** A live middleware object: an application object (whose `handle` body is not
      modelled) that may or may not have a `handle` method, or the method-check
      middleware generated by MethodAwareRouter. */
  datatype MiddlewareObject =
    | AppMiddleware(id: nat, hasHandle: bool)
    | MethodCheck(expectedMethod: string, requestMethod: string)

  /** A middleware list entry: a class-string resolved through the dependency handler
      when the layer runs, or an instance passed through unchanged. */
  datatype MiddlewareRef = ClassRef(className: string) | Instance(obj: MiddlewareObject)

  /** The reflection cached on a route: of a closure, or of a class method. */
  datatype Reflection = FunctionReflection(parameters: seq<RouteParameter>) | MethodReflection(info: MethodInfo)

  /** The memoised request-handler factory built by requestHandlerFactory: it calls
      `classMethod` on an instance of the class, or calls the closure, with arguments
      bound by the parameter plan; `handlerName` is the reflected name the binding's
      error messages quote. */
  datatype Factory =
    | ClassFactory(className: string, classMethod: Option<string>, plan: seq<RouteParameter>, handlerName: string)
    | ClosureFactory(id: nat, plan: seq<RouteParameter>, handlerName: string)
}
