/** Argument binding: the closure getParameterClosure returns (src/Router.php) turns
    the route's argument segments into the handler's arguments, one parameter at a
    time, taking segments off the front of the list as it goes.

    The parameter descriptors come from reflection and are inputs. Whether the request
    object is an instance of a parameter's type is a run-time question answered by
    `isInstance`; building an enum case with from() and building an object through the
    dependency handler are represented by the value that would be passed. */
module Binding {
  import opened Wrappers
  import opened RouterTypes
  import opened Pipeline

  /** A bound argument. */
  datatype Arg =
    | Given(text: string)                       // a segment, passed as the raw string
    | Rest(segments: seq<string>)               // all remaining segments, for a variadic parameter
    | Default(value: Value)                     // the parameter's default
    | PassedRequest(request: Request)           // the request object itself
    | Injected(typeName: string)                // an instance built by the dependency handler
    | EnumCase(typeName: string, text: string)  // typeName::from(text)

  function MissingArgument(p: RouteParameter, handlerName: string): Error {
    InvalidRoute("No arguments left to resolve parameter: " + p.typeName + " in " + handlerName)
  }

  function TooManyArguments(handlerName: string): Error {
    InvalidRoute("Too many arguments passed to route handler method " + handlerName)
  }

  /** One parameter bound against the remaining segments: the argument and the
      segments left for the next parameters. */
  datatype Bound = Bound(arg: Arg, rest: seq<string>)

  function BindParameter(p: RouteParameter, args: seq<string>, request: Request,
                         isInstance: (Request, string) -> bool, handlerName: string): (r: Result<Bound>)
    ensures r.Ok? ==> |r.value.rest| <= |args|
  {
    if p.variadic then Ok(Bound(Rest(args), []))
    else if !p.builtIn then
      if request.RequestObject? && isInstance(request, p.typeName) then Ok(Bound(PassedRequest(request), args))
      else if p.isBackedEnum then
        if args != [] then Ok(Bound(EnumCase(p.typeName, args[0]), args[1..]))
        else Ok(Bound(Default(p.defaultValue), []))
      else Ok(Bound(Injected(p.typeName), args))
    else if args != [] then Ok(Bound(Given(args[0]), args[1..]))
    else if p.optional || p.nullable then Ok(Bound(Default(p.defaultValue), []))
    else Err(MissingArgument(p, handlerName))
  }

  /** All parameters bound in order; segments left over at the end are an error. */
  function Bind(params: seq<RouteParameter>, args: seq<string>, request: Request,
                isInstance: (Request, string) -> bool, handlerName: string): (r: Result<seq<Arg>>)
    ensures r.Ok? ==> |r.value| == |params|
    decreases |params|
  {
    if params == [] then
      if args == [] then Ok([]) else Err(TooManyArguments(handlerName))
    else
      match BindParameter(params[0], args, request, isInstance, handlerName)
      case Err(e) => Err(e)
      case Ok(b) =>
        match Bind(params[1..], b.rest, request, isInstance, handlerName)
        case Err(e) => Err(e)
        case Ok(rest) => Ok([b.arg] + rest)
  }

  /** The arguments already bound, put in front of the binding of the rest. */
  function After(done: seq<Arg>, r: Result<seq<Arg>>): Result<seq<Arg>> {
    match r
    case Err(e) => Err(e)
    case Ok(rest) => Ok(done + rest)
  }

  lemma AfterNothing(r: Result<seq<Arg>>)
    ensures After([], r) == r
  {
    if r.Ok? { assert [] + r.value == r.value; }
  }

  /** The binding closure, with array_shift on the by-reference argument list. */
  method BindArguments(params: seq<RouteParameter>, args: seq<string>, request: Request,
                       isInstance: (Request, string) -> bool, handlerName: string)
    returns (r: Result<seq<Arg>>)
    ensures r == Bind(params, args, request, isInstance, handlerName)
  {
    var remaining := args;
    var arguments: seq<Arg> := [];
    var i := 0;
    AfterNothing(Bind(params, args, request, isInstance, handlerName));
    while i < |params|
      invariant 0 <= i <= |params|
      invariant Bind(params, args, request, isInstance, handlerName) ==
                  After(arguments, Bind(params[i..], remaining, request, isInstance, handlerName))
    {
      var p := params[i];
      ghost var before := remaining;
      var value: Arg;
      if p.variadic {
        value := Rest(remaining);
        remaining := [];
      } else if !p.builtIn {
        if request.RequestObject? && isInstance(request, p.typeName) {
          value := PassedRequest(request);
        } else if p.isBackedEnum {
          if remaining != [] {
            value := EnumCase(p.typeName, remaining[0]);
            remaining := remaining[1..];
          } else {
            value := Default(p.defaultValue);
          }
        } else {
          value := Injected(p.typeName);
        }
      } else if remaining != [] {
        value := Given(remaining[0]);
        remaining := remaining[1..];
      } else if p.optional || p.nullable {
        value := Default(p.defaultValue);
      } else {
        BindHead(params, i, before, arguments, request, isInstance, handlerName);
        return Err(MissingArgument(p, handlerName));
      }
      assert BindParameter(p, before, request, isInstance, handlerName) == Ok(Bound(value, remaining));
      BindHead(params, i, before, arguments, request, isInstance, handlerName);
      arguments := arguments + [value];
      i := i + 1;
    }
    assert params[i..] == [];
    if remaining != [] {
      return Err(TooManyArguments(handlerName));
    }
    assert arguments + [] == arguments;
    r := Ok(arguments);
  }

  /** The binding of the parameters from `i` on, after the arguments already bound,
      with its first parameter taken: an error stops it, and a bound argument joins
      those already bound. */
  lemma BindHead(params: seq<RouteParameter>, i: nat, remaining: seq<string>, arguments: seq<Arg>, request: Request,
                 isInstance: (Request, string) -> bool, handlerName: string)
    requires i < |params|
    ensures After(arguments, Bind(params[i..], remaining, request, isInstance, handlerName))
            == match BindParameter(params[i], remaining, request, isInstance, handlerName)
               case Err(e) => Err(e)
               case Ok(b) => After(arguments + [b.arg], Bind(params[i + 1..], b.rest, request, isInstance, handlerName))
  {
    assert params[i..][0] == params[i] && params[i..][1..] == params[i + 1..];
    match BindParameter(params[i], remaining, request, isInstance, handlerName)
    case Err(e) =>
    case Ok(b) =>
      match Bind(params[i + 1..], b.rest, request, isInstance, handlerName)
      case Err(e) =>
      case Ok(rest) =>
        assert (arguments + [b.arg]) + rest == arguments + ([b.arg] + rest);
  }

  /** The segments an argument was built from. */
  function Carried(a: Arg): seq<string> {
    match a
    case Given(t) => [t]
    case Rest(s) => s
    case EnumCase(_, t) => [t]
    case _ => []
  }

  function CarriedAll(xs: seq<Arg>): seq<string> {
    if xs == [] then [] else Carried(xs[0]) + CarriedAll(xs[1..])
  }

  /** A successful binding uses every segment exactly once, in order: the segments the
      arguments were built from, read left to right, are the argument list. */
  lemma {:induction false} BindUsesEverySegment(params: seq<RouteParameter>, args: seq<string>, request: Request,
                                                isInstance: (Request, string) -> bool, handlerName: string)
    requires Bind(params, args, request, isInstance, handlerName).Ok?
    ensures CarriedAll(Bind(params, args, request, isInstance, handlerName).value) == args
    decreases |params|
  {
    if params != [] {
      var b := BindParameter(params[0], args, request, isInstance, handlerName).value;
      BindUsesEverySegment(params[1..], b.rest, request, isInstance, handlerName);
      var xs := Bind(params, args, request, isInstance, handlerName).value;
      assert xs[1..] == Bind(params[1..], b.rest, request, isInstance, handlerName).value;
      assert Carried(b.arg) + b.rest == args;
    }
  }

  /** A required parameter of a built-in type. */
  predicate Required(p: RouteParameter) {
    p.builtIn && !p.variadic && !p.optional && !p.nullable
  }

  /** With only required built-in parameters, binding succeeds exactly when there is one
      segment per parameter, and each parameter gets its segment. */
  lemma {:induction false} RequiredTakeOneEach(params: seq<RouteParameter>, args: seq<string>, request: Request,
                                               isInstance: (Request, string) -> bool, handlerName: string)
    requires forall i :: 0 <= i < |params| ==> Required(params[i])
    ensures var r := Bind(params, args, request, isInstance, handlerName);
            r.Ok? <==> |args| == |params|
    ensures var r := Bind(params, args, request, isInstance, handlerName);
            r.Ok? ==> forall i :: 0 <= i < |params| ==> r.value[i] == Given(args[i])
    decreases |params|
  {
    if params != [] {
      assert forall i :: 0 <= i < |params[1..]| ==> Required(params[1..][i]) by {
        forall i | 0 <= i < |params[1..]| ensures Required(params[1..][i]) { assert params[1..][i] == params[i + 1]; }
      }
      if args != [] {
        RequiredTakeOneEach(params[1..], args[1..], request, isInstance, handlerName);
      }
    }
  }

  /** A required built-in parameter with no segment left is an error naming its type and
      the handler. */
  lemma MissingRequired(p: RouteParameter, rest: seq<RouteParameter>, request: Request,
                        isInstance: (Request, string) -> bool, handlerName: string)
    requires Required(p)
    ensures Bind([p] + rest, [], request, isInstance, handlerName) == Err(MissingArgument(p, handlerName))
  {
  }

  /** A parameter the request object satisfies, and one the dependency handler builds,
      consume no segment. */
  lemma NonBuiltInConsumesNothing(p: RouteParameter, rest: seq<RouteParameter>, args: seq<string>,
                                  request: Request, isInstance: (Request, string) -> bool, handlerName: string)
    requires !p.variadic && !p.builtIn
    requires (request.RequestObject? && isInstance(request, p.typeName)) || !p.isBackedEnum
    ensures Bind([p] + rest, args, request, isInstance, handlerName) ==
              After([if request.RequestObject? && isInstance(request, p.typeName) then PassedRequest(request)
                     else Injected(p.typeName)],
                    Bind(rest, args, request, isInstance, handlerName))
  {
    assert ([p] + rest)[1..] == rest;
  }

  /** A lone variadic parameter takes every remaining segment, and nothing is left
      over. */
  lemma VariadicTakesAll(p: RouteParameter, args: seq<string>, request: Request,
                         isInstance: (Request, string) -> bool, handlerName: string)
    requires p.variadic
    ensures Bind([p], args, request, isInstance, handlerName) == Ok([Rest(args)])
  {
    assert [p][1..] == [];
    assert BindParameter(p, args, request, isInstance, handlerName) == Ok(Bound(Rest(args), []));
    assert Bind([], [], request, isInstance, handlerName) == Ok([]);
    assert [Rest(args)] + [] == [Rest(args)];
  }
}
