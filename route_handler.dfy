/** A class-method handler record (src/Definition/RouteHandler.php): the HTTP methods
    it accepts, its own middleware, the class method it calls and a reflection cache. */
module RouteHandler {
  import opened Wrappers
  import opened PhpString
  import opened RouterTypes

  datatype RouteHandler = RouteHandler(
    factory: Option<Factory>,
    methods: seq<string>,
    middleware: seq<MiddlewareRef>,
    classMethod: Option<string>,
    reflection: Option<MethodInfo>)

  /** array_map of strtoupper over the given methods. */
  function UpperAll(methods: seq<string>): (r: seq<string>)
    ensures |r| == |methods|
    ensures forall i :: 0 <= i < |methods| ==> r[i] == ToUpper(methods[i])
  {
    if methods == [] then [] else [ToUpper(methods[0])] + UpperAll(methods[1..])
  }

  /** The constructor: the methods are stored uppercased, in the given order; the other
      arguments are stored as given and there is no factory yet. */
  function NewRouteHandler(methods: seq<string> := [], middleware: seq<MiddlewareRef> := [],
                           classMethod: Option<string> := None,
                           reflection: Option<MethodInfo> := None): (h: RouteHandler)
    ensures |h.methods| == |methods|
    ensures forall i :: 0 <= i < |methods| ==> h.methods[i] == ToUpper(methods[i])
    ensures h.middleware == middleware && h.classMethod == classMethod && h.reflection == reflection
    ensures h.factory == None
  {
    RouteHandler(None, UpperAll(methods), middleware, classMethod, reflection)
  }

  /** supportsMethod(): an empty list accepts every method, otherwise the method must be
      one of the stored entries, compared exactly. */
  predicate SupportsMethod(h: RouteHandler, requested: string) {
    h.methods == [] || requested in h.methods
  }

  /** A handler built from a method list supports `x` exactly when the list is empty or
      one of its entries uppercases to `x`. */
  lemma SupportsIff(methods: seq<string>, x: string)
    ensures SupportsMethod(NewRouteHandler(methods), x) <==>
              methods == [] || exists i :: 0 <= i < |methods| && ToUpper(methods[i]) == x
  {
    var h := NewRouteHandler(methods);
    if x in h.methods {
      var i :| 0 <= i < |h.methods| && h.methods[i] == x;
      assert ToUpper(methods[i]) == x;
    }
  }

  /** The comparison is case-sensitive against uppercased entries: a method name with a
      lower-case ASCII letter is refused by any handler with a non-empty list. */
  lemma LowerCaseRefused(methods: seq<string>, x: string, k: nat)
    requires methods != [] && k < |x| && 'a' <= x[k] <= 'z'
    ensures !SupportsMethod(NewRouteHandler(methods), x)
  {
    var h := NewRouteHandler(methods);
    forall i | 0 <= i < |h.methods| ensures h.methods[i] != x {
      if |h.methods[i]| == |x| {
        assert h.methods[i][k] == UpperChar(methods[i][k]);
      }
    }
  }
}
