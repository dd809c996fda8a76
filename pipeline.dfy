/** Middleware composition (createMiddlewareFactories and runPipeline, src/Router.php):
    the middleware list becomes a list of lazy factories in reverse order, which
    array_reduce folds around the request handler.

    The closures are modelled as values: a factory is the middleware reference it will
    resolve when its layer runs, and the folded pipeline is a `Layer` chain. What a
    `handle()` body does, what the dependency handler builds and what the request handler
    returns are parameters of the model. */
module Pipeline {
  import opened Wrappers
  import opened RouterTypes

  /** The request object handed through the pipeline, or none. */
  datatype Request = NoRequest | RequestObject(id: nat)

  /** How a dispatch ends: a response, or the 405 Method Not Allowed (section 15.5.6 of
      RFC 9110) with which the method check stops the script. */
  datatype Outcome = Response(value: nat) | MethodNotAllowed

  /** What an application middleware's handle() does with a request: call the next
      layer with a (possibly replaced) request, or answer by itself. */
  datatype Decision = CallNext(request: Request) | Respond(value: nat)

  /** A folded pipeline: the request handler, or a middleware factory wrapped around
      the rest. */
  datatype Layer = Core | Wrap(factory: MiddlewareRef, next: Layer)

  const MissingHandle: string := "Required middleware method handle() is missing"

  function Reverse<T>(s: seq<T>): (r: seq<T>)
    ensures |r| == |s|
    ensures forall i :: 0 <= i < |s| ==> r[i] == s[|s| - 1 - i]
  {
    if s == [] then [] else Reverse(s[1..]) + [s[0]]
  }

  /** createMiddlewareFactories(): one lazy factory per entry, in reverse order. */
  function MiddlewareFactories(queue: seq<MiddlewareRef>): (r: seq<MiddlewareRef>)
    ensures |r| == |queue|
    ensures forall i :: 0 <= i < |queue| ==> r[i] == queue[|queue| - 1 - i]
  {
    Reverse(queue)
  }

  /** array_reduce: each factory in turn wraps what has been folded so far. */
  function Reduce(factories: seq<MiddlewareRef>, seed: Layer): Layer
    decreases |factories|
  {
    if factories == [] then seed else Reduce(factories[1..], Wrap(factories[0], seed))
  }

  /** The intended nesting: the first middleware of the list outermost. */
  function Nest(queue: seq<MiddlewareRef>): Layer {
    if queue == [] then Core else Wrap(queue[0], Nest(queue[1..]))
  }

  lemma {:induction false} ReduceSnoc(factories: seq<MiddlewareRef>, last: MiddlewareRef, seed: Layer)
    ensures Reduce(factories + [last], seed) == Wrap(last, Reduce(factories, seed))
    decreases |factories|
  {
    if factories == [] {
      assert factories + [last] == [last];
    } else {
      assert (factories + [last])[1..] == factories[1..] + [last];
      ReduceSnoc(factories[1..], last, Wrap(factories[0], seed));
    }
  }

  /** Folding the reversed list around the handler puts the first-registered
      middleware outermost, in registration order. */
  lemma {:induction false} PipelineNests(queue: seq<MiddlewareRef>)
    ensures Reduce(MiddlewareFactories(queue), Core) == Nest(queue)
  {
    if queue != [] {
      assert Reverse(queue) == Reverse(queue[1..]) + [queue[0]];
      ReduceSnoc(Reverse(queue[1..]), queue[0], Core);
      PipelineNests(queue[1..]);
    }
  }

  /** A factory call: a class-string goes through the dependency handler, an object is
      returned as it is. */
  function Resolve(ref: MiddlewareRef, resolve: string -> MiddlewareObject): MiddlewareObject {
    match ref
    case ClassRef(c) => resolve(c)
    case Instance(o) => o
  }

  /** Running a folded pipeline on a request. */
  function Run(layer: Layer, request: Request, resolve: string -> MiddlewareObject,
               decide: (nat, Request) -> Decision, handler: Request -> Result<Outcome>): Result<Outcome>
  {
    match layer
    case Core => handler(request)
    case Wrap(f, next) =>
      match Resolve(f, resolve)
      case AppMiddleware(id, hasHandle) =>
        if !hasHandle then Err(RouterConfiguration(MissingHandle))
        else (
          match decide(id, request)
          case Respond(v) => Ok(Response(v))
          case CallNext(r) => Run(next, r, resolve, decide, handler))
      case MethodCheck(expected, actual) =>
        if actual != expected then Ok(MethodNotAllowed) else Run(next, request, resolve, decide, handler)
  }

  /** runPipeline(). */
  function RunPipeline(factories: seq<MiddlewareRef>, handler: Request -> Result<Outcome>, request: Request,
                       resolve: string -> MiddlewareObject, decide: (nat, Request) -> Decision): Result<Outcome>
  {
    Run(Reduce(factories, Core), request, resolve, decide, handler)
  }

  /** The whole composition of dispatch(): the first middleware runs first and the
      handler last. */
  lemma RunInOrder(queue: seq<MiddlewareRef>, handler: Request -> Result<Outcome>, request: Request,
                   resolve: string -> MiddlewareObject, decide: (nat, Request) -> Decision)
    ensures RunPipeline(MiddlewareFactories(queue), handler, request, resolve, decide) ==
              Run(Nest(queue), request, resolve, decide, handler)
  {
    PipelineNests(queue);
  }

  /** A first layer without handle() fails when it runs, whatever follows it; nothing
      after it is resolved or called. */
  lemma MissingHandleFails(queue: seq<MiddlewareRef>, handler: Request -> Result<Outcome>, request: Request,
                           resolve: string -> MiddlewareObject, decide: (nat, Request) -> Decision)
    requires queue != [] && Resolve(queue[0], resolve).AppMiddleware? && !Resolve(queue[0], resolve).hasHandle
    ensures RunPipeline(MiddlewareFactories(queue), handler, request, resolve, decide) ==
              Err(RouterConfiguration(MissingHandle))
  {
    PipelineNests(queue);
  }

  /** Every entry is a method check. */
  predicate AllChecks(queue: seq<MiddlewareRef>) {
    forall i :: 0 <= i < |queue| ==> queue[i].Instance? && queue[i].obj.MethodCheck?
  }

  /** A method check that refuses. */
  predicate Refuses(m: MiddlewareRef) {
    m.Instance? && m.obj.MethodCheck? && m.obj.requestMethod != m.obj.expectedMethod
  }

  /** A chain of method checks ends in 405 when any of them refuses, and otherwise calls
      the handler with the request unchanged. */
  lemma {:induction false} ChecksDecide(queue: seq<MiddlewareRef>, handler: Request -> Result<Outcome>,
                                        request: Request, resolve: string -> MiddlewareObject,
                                        decide: (nat, Request) -> Decision)
    requires AllChecks(queue)
    ensures Run(Nest(queue), request, resolve, decide, handler) ==
              if exists i :: 0 <= i < |queue| && Refuses(queue[i]) then Ok(MethodNotAllowed) else handler(request)
  {
    if queue != [] {
      assert AllChecks(queue[1..]) by {
        forall i | 0 <= i < |queue[1..]| ensures queue[1..][i].Instance? && queue[1..][i].obj.MethodCheck? {
          assert queue[1..][i] == queue[i + 1];
        }
      }
      ChecksDecide(queue[1..], handler, request, resolve, decide);
      if !Refuses(queue[0]) {
        if exists i :: 0 <= i < |queue| && Refuses(queue[i]) {
          var i :| 0 <= i < |queue| && Refuses(queue[i]);
          assert i > 0 && queue[1..][i - 1] == queue[i];
        } else {
          assert forall i :: 0 <= i < |queue[1..]| ==> !Refuses(queue[1..][i]) by {
            forall i | 0 <= i < |queue[1..]| ensures !Refuses(queue[1..][i]) {
              assert queue[1..][i] == queue[i + 1];
            }
          }
        }
      }
    }
  }
}
