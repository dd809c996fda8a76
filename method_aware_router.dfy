/** The HTTP-method-aware router (src/Adapters/MethodAwareRouter.php): shortcuts that
    add a route guarded by a method check, and the request-method decision with its
    POST override. The superglobals the decision reads are a parameter, and the 405
    exit is the MethodNotAllowed outcome (section 15.5.6 of RFC 9110). */
module MethodAwareRouter {
  import opened Wrappers
  import opened PhpString
  import opened RouterTypes
  import opened RouteUtility
  import opened RouteDefinition
  import opened Node
  import opened Pipeline
  import opened Expansion
  import opened Router

  /** A $_POST value: a string, or anything else (an array). */
  datatype PostValue = Text(text: string) | NotText

  /** What getRequestMethod reads: $_SERVER['REQUEST_METHOD'] if set, and $_POST. */
  datatype Superglobals = Superglobals(requestMethod: Option<string>, post: map<string, PostValue>)

  const DefaultOverrideKey: string := "_METHOD"

  /** The methods a POST may be overridden to. */
  const Overridable: set<string> := {"PUT", "PATCH", "DELETE"}

  /** The methods the shortcuts check for. */
  datatype Verb = Get | Post | Put | Patch | Delete

  /** The method token (section 9 of RFC 9110) a shortcut checks for. */
  function Token(v: Verb): string {
    match v
    case Get => "GET"
    case Post => "POST"
    case Put => "PUT"
    case Patch => "PATCH"
    case Delete => "DELETE"
  }

  /** The request method as sent, GET when there is none. */
  function RawMethod(g: Superglobals): string {
    if g.requestMethod.Some? then g.requestMethod.value else "GET"
  }

  /** getRequestMethod(): a POST whose override field is a non-falsy string naming PUT,
      PATCH or DELETE in any case is that method in upper case; any other request keeps
      its method exactly as sent. */
  function GetRequestMethod(g: Superglobals, overrideKey: string): (r: string)
    ensures ToUpper(RawMethod(g)) != "POST" ==> r == RawMethod(g)
    ensures overrideKey !in g.post || g.post[overrideKey].NotText? ==> r == RawMethod(g)
    ensures ToUpper(RawMethod(g)) == "POST" && overrideKey in g.post && g.post[overrideKey].Text? ==>
              var t := g.post[overrideKey].text;
              r == if !IsFalsy(t) && ToUpper(t) in Overridable then ToUpper(t) else RawMethod(g)
    ensures r == RawMethod(g) || r in Overridable
  {
    var m := RawMethod(g);
    if overrideKey in g.post && g.post[overrideKey].Text? && !IsFalsy(g.post[overrideKey].text)
       && ToUpper(m) == "POST" && ToUpper(g.post[overrideKey].text) in Overridable
    then ToUpper(g.post[overrideKey].text)
    else m
  }

  /** Without a request method the decision is GET, whatever was posted. */
  lemma NoMethodIsGet(g: Superglobals, overrideKey: string)
    requires g.requestMethod.None?
    ensures GetRequestMethod(g, overrideKey) == "GET"
  {
    assert ToUpper("GET") == "GET";
  }

  /** An override is always one of PUT, PATCH and DELETE, and only a POST is
      overridden: a result other than the method sent means the request was a POST. */
  lemma OverrideOnlyFromPost(g: Superglobals, overrideKey: string)
    requires GetRequestMethod(g, overrideKey) != RawMethod(g)
    ensures ToUpper(RawMethod(g)) == "POST" && GetRequestMethod(g, overrideKey) in Overridable
    ensures overrideKey in g.post && g.post[overrideKey].Text?
            && ToUpper(g.post[overrideKey].text) == GetRequestMethod(g, overrideKey)
  {
  }

  /** The decision reads the posted fields only under the override key. */
  lemma OnlyOverrideKeyRead(g: Superglobals, h: Superglobals, overrideKey: string)
    requires g.requestMethod == h.requestMethod
    requires overrideKey in g.post <==> overrideKey in h.post
    requires overrideKey in g.post ==> g.post[overrideKey] == h.post[overrideKey]
    ensures GetRequestMethod(g, overrideKey) == GetRequestMethod(h, overrideKey)
  {
  }

  /** The middleware generateMethodMiddleware() builds for a shortcut. */
  function MethodGuard(v: Verb, captured: string): MiddlewareRef {
    Instance(MethodCheck(Token(v), captured))
  }

  /** A route a shortcut registered, with no middleware added later, answers 405 unless
      the method captured at registration is exactly (case-sensitively) the shortcut's,
      and otherwise calls its handler on the request unchanged. */
  lemma {:induction false} GuardedServe(f: Factory, v: Verb, captured: string, args: seq<string>, request: Request, env: Env)
    ensures Serve(f, [MethodGuard(v, captured)], args, request, env)
            == if captured == Token(v) then Invoke(f, args, request, env) else Ok(MethodNotAllowed)
  {
    var guard := [MethodGuard(v, captured)];
    ServeWithChecks(f, guard, args, request, env);
    if captured != Token(v) {
      assert Refuses(guard[0]);
    }
  }

  class MethodAwareRouter {
    const router: Router
    /** The $_POST key getRequestMethod consults. */
    var methodOverride: string

    constructor (defaultMethod: string := "index")
      ensures router.Valid() && fresh(router) && fresh(router.node)
      ensures router.node.nodes == [EmptyNode] && router.staticRoutes == map[] && router.activeGroup == null
      ensures router.defaultMethod == defaultMethod && router.objects == {}
      ensures methodOverride == DefaultOverrideKey
    {
      router := new Router(defaultMethod);
      methodOverride := DefaultOverrideKey;
    }

    /** any(): add() with no method check. */
    method Any(pattern: string, handler: Handler) returns (route: RouteDefinition)
      requires router.Valid()
      modifies router`staticRoutes, router`objects, router.node, router.ActiveGroups()`routes
      ensures router.Valid() && fresh(route) && route.pattern == Trim(pattern, SpaceSlash) && route.handler == handler
      ensures route.middleware == [] && router.objects == old(router.objects) + {route}
      ensures var p := Trim(pattern, SpaceSlash);
              router.staticRoutes == if '*' in p then old(router.staticRoutes) else old(router.staticRoutes)[p := route]
      ensures router.node.nodes == InsertNodes(old(router.node.nodes), Trim(pattern, SpaceSlash), route)
      ensures router.activeGroup != null ==> router.activeGroup.routes == old(router.activeGroup.routes) + [route]
    {
      route := router.Add(pattern, handler);
    }

    /** get(), post(), put(), patch() and delete(): add(), then exactly one method check
        holding the method the superglobals give at registration. */
    method Shortcut(v: Verb, pattern: string, handler: Handler, g: Superglobals) returns (route: RouteDefinition)
      requires router.Valid()
      modifies router`staticRoutes, router`objects, router.node, router.ActiveGroups()`routes
      ensures router.Valid() && fresh(route) && route.pattern == Trim(pattern, SpaceSlash) && route.handler == handler
      ensures route.middleware == [MethodGuard(v, GetRequestMethod(g, methodOverride))]
      ensures router.objects == old(router.objects) + {route}
      ensures var p := Trim(pattern, SpaceSlash);
              router.staticRoutes == if '*' in p then old(router.staticRoutes) else old(router.staticRoutes)[p := route]
      ensures router.node.nodes == InsertNodes(old(router.node.nodes), Trim(pattern, SpaceSlash), route)
      ensures router.activeGroup != null ==> router.activeGroup.routes == old(router.activeGroup.routes) + [route]
    {
      route := router.Add(pattern, handler);
      var _ := route.Middleware([MethodGuard(v, GetRequestMethod(g, methodOverride))]);
    }

    /** setMethodOverrideKey(). */
    method SetMethodOverrideKey(key: string)
      modifies this`methodOverride
      ensures methodOverride == key
    {
      methodOverride := key;
    }
  }
}
