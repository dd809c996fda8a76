/** The router (src/Router.php): registration into the static table and the trie,
    group scoping, dispatch, class-route expansion by convention and by #[Route]
    attributes, the request-handler factory and the middleware pipeline.

    What PHP reflection reports about handler classes, the dependency handler, the
    bodies of handlers and of middleware handle() methods, and the request's getArguments
    are inputs, bundled in an `Env`. */
module Router {
  import opened Wrappers
  import opened PhpString
  import opened RouterTypes
  import opened RouteUtility
  import opened RouteDefinition
  import opened TrieMatch
  import opened Node
  import opened GroupDefinition
  import opened Pipeline
  import opened Binding
  import opened Expansion

  /** What the router cannot compute itself. `classes` is reflection on a class-string
      (None when the class does not exist); `isInstance` answers `$request instanceof
      $type`; `call` is the handler call on the bound arguments; `resolve` and `decide`
      are the dependency handler on middleware classes and the middleware handle()
      bodies; `getArguments` turns a route's context into its argument segments. */
  datatype Env = Env(
    classes: string -> Option<ClassInfo>,
    isInstance: (Request, string) -> bool,
    call: (Factory, seq<Arg>) -> nat,
    resolve: string -> MiddlewareObject,
    decide: (nat, Request) -> Decision,
    getArguments: string -> seq<string>)

  /** The name reflection reports for a closure. */
  const ClosureName: string := "{closure}"

  /** PHP truthiness of a nullable string field. */
  predicate Truthy(s: Option<string>) {
    s.Some? && !IsFalsy(s.value)
  }

  function NoRoute(p: string): Error {
    InvalidRoute("No route found for path: " + p)
  }

  function Unreflectable(pattern: string): Error {
    InvalidRoute("Unable to reflect route handler for route: '" + pattern + "'")
  }

  /** A ReflectionException, wrapped by reflectHandler. */
  function ReflectionFailed(pattern: string, message: string): Error {
    RouterConfiguration("Unable to reflect route handler for route: '" + pattern + "' - " + message)
  }

  function ClassMissing(className: string): string {
    "Class \"" + className + "\" does not exist"
  }

  function MethodMissing(className: string, m: string): string {
    "Method " + className + "::" + m + "() does not exist"
  }

  function NotPublic(m: string): Error {
    RouterConfiguration("Route method '" + m + "' is not a public method")
  }

  function NoValidMethod(className: string): Error {
    InvalidRoute("No valid method found in " + className + ". Missing default method or __invoke()?")
  }

  function NoMatchingAttribute(className: string, pattern: string): Error {
    InvalidRoute("No matching Route attribute found in class " + className + " for route '" + pattern + "'")
  }

  /** ReflectionClass::getMethod(): the first method of that name. */
  function FindMethod(methods: seq<MethodInfo>, name: string): (r: Option<MethodInfo>)
    ensures r.Some? ==> r.value in methods && r.value.name == name
    ensures r.None? ==> forall i :: 0 <= i < |methods| ==> methods[i].name != name
  {
    if methods == [] then None
    else if methods[0].name == name then Some(methods[0])
    else FindMethod(methods[1..], name)
  }

  /** The parameters and the name the request-handler factory takes from a reflection. */
  function PlanOf(r: Reflection): seq<RouteParameter> {
    match r
    case FunctionReflection(ps) => ps
    case MethodReflection(info) => info.parameters
  }

  function NameOf(r: Reflection): string {
    match r
    case FunctionReflection(_) => ClosureName
    case MethodReflection(info) => info.name
  }

  /** The factory requestHandlerFactory memoises on a route. */
  function FactoryFor(handler: Handler, classMethod: Option<string>, r: Reflection): (f: Factory)
    ensures f.ClassFactory? <==> handler.ClassHandler?
    ensures f.ClassFactory? ==> f.className == handler.className && f.classMethod == classMethod
    ensures f.ClosureFactory? ==> f.id == handler.id
    ensures f.plan == PlanOf(r) && f.handlerName == NameOf(r)
  {
    match handler
    case ClassHandler(c) => ClassFactory(c, classMethod, PlanOf(r), NameOf(r))
    case ClosureHandler(id, _) => ClosureFactory(id, PlanOf(r), NameOf(r))
  }

  /** Calling a factory: the arguments are bound, then the handler is called. */
  function Invoke(f: Factory, args: seq<string>, request: Request, env: Env): (r: Result<Outcome>)
    ensures var b := Bind(f.plan, args, request, env.isInstance, f.handlerName);
            (r.Ok? <==> b.Ok?) && (b.Err? ==> r == Err(b.error))
    ensures r.Ok? ==> r.value.Response?
  {
    match Bind(f.plan, args, request, env.isInstance, f.handlerName)
    case Err(e) => Err(e)
    case Ok(xs) => Ok(Response(env.call(f, xs)))
  }

  /** The end of dispatch(): the factory called directly when there is no middleware,
      else through the pipeline with the request as the pipeline hands it on. */
  function Serve(f: Factory, middleware: seq<MiddlewareRef>, args: seq<string>, request: Request, env: Env)
    : (r: Result<Outcome>)
    ensures middleware == [] ==> r == Invoke(f, args, request, env)
  {
    if middleware == [] then Invoke(f, args, request, env)
    else RunPipeline(MiddlewareFactories(middleware), (req: Request) => Invoke(f, args, req, env), request,
                     env.resolve, env.decide)
  }

  /** Middleware made only of method checks decides alone: 405 when one refuses, and
      otherwise the handler runs on the request as given. */
  lemma ServeWithChecks(f: Factory, middleware: seq<MiddlewareRef>, args: seq<string>, request: Request, env: Env)
    requires middleware != [] && AllChecks(middleware)
    ensures Serve(f, middleware, args, request, env) ==
              if exists i :: 0 <= i < |middleware| && Refuses(middleware[i]) then Ok(MethodNotAllowed)
              else Invoke(f, args, request, env)
  {
    var handler := (req: Request) => Invoke(f, args, req, env);
    RunInOrder(middleware, handler, request, env.resolve, env.decide);
    ChecksDecide(middleware, handler, request, env.resolve, env.decide);
  }

  /** A call made inside a group callback: add() with a pattern and a handler, or a
      nested group() with its own callback. */
  datatype Registration = AddRoute(pattern: string, handler: Handler) | NestedGroup(body: seq<Registration>)

  /** The patterns a group collects: those added directly in its callback up to the
      first nested group, after which no group is active. */
  function GroupPatterns(body: seq<Registration>): seq<string> {
    if body == [] then []
    else match body[0]
      case AddRoute(p, _) => [Trim(p, SpaceSlash)] + GroupPatterns(body[1..])
      case NestedGroup(_) => []
  }

  /** Collecting one more added pattern. */
  lemma CollectStep(done: seq<string>, pattern: string, handler: Handler, later: seq<Registration>)
    ensures (done + [Trim(pattern, SpaceSlash)]) + GroupPatterns(later)
            == done + GroupPatterns([AddRoute(pattern, handler)] + later)
  {
    var body := [AddRoute(pattern, handler)] + later;
    assert body[1..] == later;
    AppendAssoc(done, [Trim(pattern, SpaceSlash)], GroupPatterns(later));
  }

  /** The patterns a group collects are those of the leading add() calls. */
  lemma {:induction false} LeadingAdds(body: seq<Registration>)
    ensures |GroupPatterns(body)| <= |Adds(body)|
    ensures forall k :: 0 <= k < |GroupPatterns(body)| ==> GroupPatterns(body)[k] == Trim(Adds(body)[k].0, SpaceSlash)
  {
    if body != [] && body[0].AddRoute? {
      LeadingAdds(body[1..]);
      assert Adds(body) == [(body[0].pattern, body[0].handler)] + Adds(body[1..]);
    }
  }

  /** The collected routes, one call of the callback and then the rest: while the
      group stays active they are the call's route followed by the rest's collection;
      once it ends there are no more. */
  lemma CollectJoin(body: seq<Registration>, r0: seq<RouteDefinition>, r1: seq<RouteDefinition>,
                    r2: seq<RouteDefinition>, first: seq<RouteDefinition>, rest: seq<RouteDefinition>,
                    wasActive: bool, active: bool)
    requires body != [] && |first| == |AddsOf(body[0])| && |GroupPatterns(body[1..])| <= |rest|
    requires wasActive && active ==> body[0].AddRoute? && r1 == r0 + first && r2 == r1 + rest[..|GroupPatterns(body[1..])|]
    requires wasActive && !active ==> r1 == r0 && GroupPatterns(body) == [] && r2 == r1
    ensures wasActive ==> |GroupPatterns(body)| <= |first + rest| && r2 == r0 + (first + rest)[..|GroupPatterns(body)|]
  {
    if wasActive && active {
      var n := |GroupPatterns(body[1..])|;
      assert |GroupPatterns(body)| == n + 1;
      assert |first| == 1;
      var c := (first + rest)[..n + 1];
      assert c == first + rest[..n];
      AppendAssoc(r0, first, rest[..n]);
    }
  }

  /** The first call of a callback, then the rest: the routes made and the folds
      join. */
  lemma JoinRuns(body: seq<Registration>, table: map<string, RouteDefinition>, trie: seq<CNode>,
                 first: seq<RouteDefinition>, rest: seq<RouteDefinition>)
    requires body != [] && WellFormed(trie) && Made(first, AddsOf(body[0])) && Made(rest, Adds(body[1..]))
    ensures Made(first + rest, Adds(body)) && SetOf(first + rest) == SetOf(first) + SetOf(rest)
    ensures StaticAfter(table, first + rest) == StaticAfter(StaticAfter(table, first), rest)
    ensures TrieAfter(trie, first + rest) == TrieAfter(TrieAfter(trie, first), rest)
  {
    MadeAppend(first, AddsOf(body[0]), rest, Adds(body[1..]));
    StaticAfterAppend(table, first, rest);
    TrieAfterAppend(trie, first, rest);
    SetOfAppend(first, rest);
  }

  /** The patterns of the collected routes are the collected patterns. */
  lemma PatternsOfCollected(r0: seq<RouteDefinition>, added: seq<RouteDefinition>, body: seq<Registration>)
    requires Made(added, Adds(body)) && |GroupPatterns(body)| <= |added|
    ensures Patterns(r0 + added[..|GroupPatterns(body)|]) == Patterns(r0) + GroupPatterns(body)
  {
    LeadingAdds(body);
    var n := |GroupPatterns(body)|;
    var a, b := Patterns(r0 + added[..n]), Patterns(r0) + GroupPatterns(body);
    assert |a| == |b|;
    forall i | 0 <= i < |a| ensures a[i] == b[i] {
      if i >= |r0| {
        assert (r0 + added[..n])[i] == added[i - |r0|];
      }
    }
  }

  /** One add() in a callback: the route it makes, and the patterns collected once the
      group has it. */
  lemma CollectOne(before: seq<RouteDefinition>, route: RouteDefinition, pattern: string, handler: Handler,
                   later: seq<Registration>)
    requires route.pattern == Trim(pattern, SpaceSlash) && route.handler == handler
    ensures Made([route], AddsOf(AddRoute(pattern, handler))) && SetOf([route]) == {route}
    ensures Patterns(before + [route]) + GroupPatterns(later)
            == Patterns(before) + GroupPatterns([AddRoute(pattern, handler)] + later)
  {
    assert forall x :: x in SetOf([route]) <==> x == route;
    PatternsAppend(before, route);
    CollectStep(Patterns(before), pattern, handler, later);
  }

  function Patterns(routes: seq<RouteDefinition>): (r: seq<string>)
    ensures |r| == |routes| && forall i :: 0 <= i < |routes| ==> r[i] == routes[i].pattern
  {
    if routes == [] then [] else [routes[0].pattern] + Patterns(routes[1..])
  }

  lemma {:induction false} PatternsAppend(routes: seq<RouteDefinition>, route: RouteDefinition)
    ensures Patterns(routes + [route]) == Patterns(routes) + [route.pattern]
  {
    if routes != [] {
      assert (routes + [route])[1..] == routes[1..] + [route];
      PatternsAppend(routes[1..], route);
    }
  }

  /** Every add() a callback makes, those of nested groups included, in order. */
  function Adds(body: seq<Registration>): seq<(string, Handler)>
    decreases body, 1
  {
    if body == [] then [] else AddsOf(body[0]) + Adds(body[1..])
  }

  function AddsOf(call: Registration): seq<(string, Handler)>
    decreases call, 0
  {
    match call
    case AddRoute(p, h) => [(p, h)]
    case NestedGroup(b) => Adds(b)
  }

  /** The routes made by a series of add() calls: one per call, with its trimmed
      pattern and its handler. */
  predicate Made(routes: seq<RouteDefinition>, adds: seq<(string, Handler)>) {
    |routes| == |adds|
    && forall k :: 0 <= k < |routes| ==> routes[k].pattern == Trim(adds[k].0, SpaceSlash) && routes[k].handler == adds[k].1
  }

  function SetOf(routes: seq<RouteDefinition>): set<RouteDefinition> {
    set x | x in routes
  }

  lemma SetOfAppend(a: seq<RouteDefinition>, b: seq<RouteDefinition>)
    ensures SetOf(a + b) == SetOf(a) + SetOf(b)
  {
    assert forall x :: x in a + b <==> x in a || x in b;
  }

  lemma MadeAppend(a: seq<RouteDefinition>, x: seq<(string, Handler)>, b: seq<RouteDefinition>, y: seq<(string, Handler)>)
    requires Made(a, x) && Made(b, y)
    ensures Made(a + b, x + y)
  {
    var ab, xy := a + b, x + y;
    forall k | 0 <= k < |ab| ensures ab[k].pattern == Trim(xy[k].0, SpaceSlash) && ab[k].handler == xy[k].1 {
      if k >= |a| { assert ab[k] == b[k - |a|] && xy[k] == y[k - |a|]; }
    }
  }

  /** The static table after add() of these routes, in order: a pattern without '*'
      maps to its latest route. */
  function StaticAfter(table: map<string, RouteDefinition>, routes: seq<RouteDefinition>): map<string, RouteDefinition> {
    if routes == [] then table
    else
      var t, last := StaticAfter(table, routes[..|routes| - 1]), routes[|routes| - 1];
      if '*' in last.pattern then t else t[last.pattern := last]
  }

  /** Every route added without '*' has its pattern in the table, and every new key
      maps to a route added under it. */
  lemma {:induction false} StaticAfterKeys(table: map<string, RouteDefinition>, routes: seq<RouteDefinition>)
    ensures var r := StaticAfter(table, routes);
            (forall p :: p in r && p !in table ==> exists k :: 0 <= k < |routes| && routes[k].pattern == p && r[p] == routes[k])
            && (forall k :: 0 <= k < |routes| && '*' !in routes[k].pattern ==> routes[k].pattern in r)
    decreases |routes|
  {
    if routes != [] {
      var init := routes[..|routes| - 1];
      StaticAfterKeys(table, init);
      assert forall k :: 0 <= k < |init| ==> init[k] == routes[k];
    }
  }

  /** The trie after add() of these routes, in order. */
  function TrieAfter(nodes: seq<CNode>, routes: seq<RouteDefinition>): (r: seq<CNode>)
    requires WellFormed(nodes)
    ensures WellFormed(r)
    decreases |routes|
  {
    if routes == [] then nodes
    else TrieAfter(InsertNodes(nodes, routes[0].pattern, routes[0]), routes[1..])
  }

  /** One route: the folds are add()'s own effect. */
  lemma AfterOne(table: map<string, RouteDefinition>, nodes: seq<CNode>, route: RouteDefinition)
    requires WellFormed(nodes)
    ensures StaticAfter(table, [route]) == if '*' in route.pattern then table else table[route.pattern := route]
    ensures TrieAfter(nodes, [route]) == InsertNodes(nodes, route.pattern, route)
  {
    assert [route][..0] == [] && [route][1..] == [];
  }

  lemma {:induction false} StaticAfterAppend(table: map<string, RouteDefinition>, a: seq<RouteDefinition>, b: seq<RouteDefinition>)
    ensures StaticAfter(table, a + b) == StaticAfter(StaticAfter(table, a), b)
    decreases |b|
  {
    if b == [] {
      assert a + b == a;
    } else {
      assert (a + b)[..|a + b| - 1] == a + b[..|b| - 1];
      StaticAfterAppend(table, a, b[..|b| - 1]);
    }
  }

  lemma {:induction false} TrieAfterAppend(nodes: seq<CNode>, a: seq<RouteDefinition>, b: seq<RouteDefinition>)
    requires WellFormed(nodes)
    ensures TrieAfter(nodes, a + b) == TrieAfter(TrieAfter(nodes, a), b)
    decreases |a|
  {
    if a == [] {
      assert a + b == b;
    } else {
      assert (a + b)[0] == a[0] && (a + b)[1..] == a[1..] + b;
      TrieAfterAppend(InsertNodes(nodes, a[0].pattern, a[0]), a[1..], b);
    }
  }

  /** The pattern class expansion registers a method under, if it registers it: by
      convention (no class route) every public method, under the entry pattern with
      the method's converted path appended, or under the entry pattern itself when
      that path is "index" or "__invoke" (as written, so __invoke() gets "//invoke"
      appended); by attributes (the class route given) every public method carrying
      a #[Route], under its attribute path below the class route. */
  function MethodPattern(entry: string, classRoute: Option<string>, mi: MethodInfo): (r: Option<string>)
    ensures classRoute.None? ==> (r.Some? <==> mi.isPublic)
    ensures classRoute.Some? ==> (r.Some? <==> mi.isPublic && mi.route.Some?)
    ensures classRoute.None? && mi.isPublic && mi.name == IndexMethod ==> r == Some(entry)
    ensures classRoute.None? && mi.isPublic && mi.name == InvokeMethod ==> r == Some(AppendSegment(entry, "//invoke"))
  {
    InvokeAppended(entry);
    match classRoute
    case None => if mi.isPublic then Some(ConventionPattern(entry, mi.name)) else None
    case Some(c) => if mi.isPublic && mi.route.Some? then Some(AttributePattern(c, mi.route.value)) else None
  }

  /** Every method expansion registers, and whose trimmed pattern has no '*', has its
      pattern in the static table. */
  predicate Registered(entry: string, classRoute: Option<string>, methods: seq<MethodInfo>,
                       table: map<string, RouteDefinition>)
  {
    forall k :: 0 <= k < |methods| && MethodPattern(entry, classRoute, methods[k]).Some? ==>
      var p := Trim(MethodPattern(entry, classRoute, methods[k]).value, SpaceSlash);
      '*' !in p ==> p in table
  }

  /** Registered extends by one method once its pattern is in a larger table. */
  lemma RegisteredStep(entry: string, classRoute: Option<string>, methods: seq<MethodInfo>, j: nat,
                       before: map<string, RouteDefinition>, after: map<string, RouteDefinition>)
    requires j < |methods| && Registered(entry, classRoute, methods[..j], before) && before.Keys <= after.Keys
    requires var mp := MethodPattern(entry, classRoute, methods[j]);
             mp.Some? && '*' !in Trim(mp.value, SpaceSlash) ==> Trim(mp.value, SpaceSlash) in after
    ensures Registered(entry, classRoute, methods[..j + 1], after)
  {
    var ms := methods[..j + 1];
    forall k | 0 <= k < |ms| && MethodPattern(entry, classRoute, ms[k]).Some?
      ensures var p := Trim(MethodPattern(entry, classRoute, ms[k]).value, SpaceSlash); '*' !in p ==> p in after
    {
      if k < j {
        assert ms[k] == methods[..j][k];
      } else {
        assert ms[k] == methods[j];
      }
    }
  }

  /** The fields class expansion sets on a method route: the method's name unless the
      route already has a truthy one (which a closure route refuses), the method's
      reflection, and an empty context. Expansion by convention empties the context
      before naming the method and expansion by attributes after, so only the first
      leaves a refused route's context emptied. */
  method Equip(route: RouteDefinition, mi: MethodInfo, clearFirst: bool) returns (r: Result<RouteDefinition>)
    modifies route`context, route`classMethod, route`reflection
    ensures r.Err? <==> route.handler.ClosureHandler? && !Truthy(old(route.classMethod))
    ensures r.Err? ==>
              r.error == ClosureMethodRefused && route.classMethod == old(route.classMethod)
              && route.reflection == old(route.reflection) && route.context == (if clearFirst then "" else old(route.context))
    ensures r.Ok? ==>
              r.value == route && route.context == "" && route.reflection == Some(MethodReflection(mi))
              && route.classMethod == if Truthy(old(route.classMethod)) then old(route.classMethod) else Some(mi.name)
  {
    if clearFirst {
      route.context := "";
    }
    if !Truthy(route.classMethod) {
      var given := route.ClassMethod(mi.name);
      if given.Err? {
        return Err(given.error);
      }
    }
    route.reflection := Some(MethodReflection(mi));
    route.context := "";
    r := Ok(route);
  }

  class Router {
    var staticRoutes: map<string, RouteDefinition>
    const node: Node
    var activeGroup: GroupDefinition?
    /** The path of the dispatch in progress. */
    var path: string
    const defaultMethod: string
    /** Every route the router has created. */
    ghost var objects: set<RouteDefinition>

    /** The active group as a frame: empty when no group is active. */
    function ActiveGroups(): set<GroupDefinition>
      reads this
    {
      if activeGroup == null then {} else {activeGroup}
    }

    ghost predicate Valid()
      reads this, node
    {
      node.Valid()
      && (forall k :: k in staticRoutes ==> staticRoutes[k] in objects)
      && node.Routes() <= objects
    }

    constructor (defaultMethod: string := "index")
      ensures Valid() && fresh(node)
      ensures node.nodes == [EmptyNode] && staticRoutes == map[] && activeGroup == null && path == ""
      ensures this.defaultMethod == defaultMethod && objects == {}
    {
      node := new Node();
      staticRoutes := map[];
      activeGroup := null;
      path := "";
      this.defaultMethod := defaultMethod;
      objects := {};
    }

    /** add(): the trimmed pattern goes into the static table when it has no '*', always
        into the trie, and into the active group if there is one. */
    method Add(pattern: string, handler: Handler) returns (route: RouteDefinition)
      requires Valid()
      modifies this`staticRoutes, this`objects, node, ActiveGroups()`routes
      ensures Valid()
      ensures fresh(route) && route.pattern == Trim(pattern, SpaceSlash) && route.handler == handler
      ensures route.middleware == [] && route.classMethod == None && route.factory == None
      ensures route.reflection == None && route.context == "" && route.nodeContext == ""
      ensures objects == old(objects) + {route}
      ensures var p := Trim(pattern, SpaceSlash);
              staticRoutes == if '*' in p then old(staticRoutes) else old(staticRoutes)[p := route]
      ensures node.nodes == InsertNodes(old(node.nodes), Trim(pattern, SpaceSlash), route)
      ensures activeGroup != null ==> activeGroup.routes == old(activeGroup.routes) + [route]
    {
      var p := Trim(pattern, SpaceSlash);
      route := new RouteDefinition(p, handler);
      Enter(p, route);
      if activeGroup != null {
        activeGroup.RegisterRoute(route);
      }
    }

    /** The table part of add(): the static table when the pattern has no '*', and the
        trie always. */
    method Enter(p: string, route: RouteDefinition)
      requires Valid() && route !in objects
      modifies this`staticRoutes, this`objects, node
      ensures Valid() && objects == old(objects) + {route}
      ensures staticRoutes == if '*' in p then old(staticRoutes) else old(staticRoutes)[p := route]
      ensures node.nodes == InsertNodes(old(node.nodes), p, route)
    {
      if '*' !in p {
        staticRoutes := staticRoutes[p := route];
      }
      ghost var table := staticRoutes;
      node.RoutesWithin(objects);
      InsertKeepsRoutesIn(node.nodes, 0, p, route, objects + {route});
      node.Insert(p, route);
      objects := objects + {route};
      node.RoutesWithin(objects);
      assert staticRoutes == table;
    }

    /** group(): the new group is active while its callback runs and no group is
        active afterwards, so a nested group ends the outer one's collection. Every
        add() of the callback, nested groups' included, registers a new route in
        order; `added` are those routes. */
    method Group(body: seq<Registration>) returns (g: GroupDefinition, ghost added: seq<RouteDefinition>)
      requires Valid()
      modifies this, node
      ensures Valid() && fresh(g) && activeGroup == null
      ensures Patterns(g.routes) == GroupPatterns(body)
      ensures |GroupPatterns(body)| <= |added| && g.routes == added[..|GroupPatterns(body)|]
      ensures Made(added, Adds(body)) && (forall k :: 0 <= k < |added| ==> fresh(added[k]))
      ensures objects == old(objects) + SetOf(added)
      ensures staticRoutes == StaticAfter(old(staticRoutes), added)
      ensures node.nodes == TrieAfter(old(node.nodes), added)
      decreases body, 2
    {
      g := new GroupDefinition();
      activeGroup := g;
      added := RunCallback(body, g);
      activeGroup := null;
    }

    /** The calls of a group callback, in order, while `g` or no group is active:
        while `g` is active it collects the added routes up to the first nested
        group; while none is, nothing is collected. */
    method RunCallback(body: seq<Registration>, g: GroupDefinition) returns (ghost added: seq<RouteDefinition>)
      requires Valid() && (activeGroup == g || activeGroup == null)
      modifies this, node, g
      ensures Valid() && (activeGroup == g || activeGroup == null)
      ensures old(activeGroup) == null ==> activeGroup == null && g.routes == old(g.routes)
      ensures old(activeGroup) == g ==> Patterns(g.routes) == Patterns(old(g.routes)) + GroupPatterns(body)
      ensures |GroupPatterns(body)| <= |added|
      ensures old(activeGroup) == g ==> g.routes == old(g.routes) + added[..|GroupPatterns(body)|]
      ensures Made(added, Adds(body)) && (forall k :: 0 <= k < |added| ==> fresh(added[k]))
      ensures objects == old(objects) + SetOf(added)
      ensures staticRoutes == StaticAfter(old(staticRoutes), added)
      ensures node.nodes == TrieAfter(old(node.nodes), added)
      decreases body, 1
    {
      LeadingAdds(body);
      if body != [] {
        ghost var r0, table, trie := g.routes, staticRoutes, node.nodes;
        ghost var wasActive := activeGroup == g;
        assert body == [body[0]] + body[1..];
        var first := Call(body[0], g, body[1..]);
        ghost var r1, active := g.routes, activeGroup == g;
        var rest := RunCallback(body[1..], g);
        added := first + rest;
        CollectJoin(body, r0, r1, g.routes, first, rest, wasActive, active);
        JoinRuns(body, table, trie, first, rest);
        if wasActive {
          PatternsOfCollected(r0, added, body);
        }
        forall k | 0 <= k < |added| ensures fresh(added[k]) {
          if k < |first| { assert added[k] == first[k]; } else { assert added[k] == rest[k - |first|]; }
        }
      } else {
        assert Patterns(g.routes) + [] == Patterns(g.routes);
        added := [];
      }
    }

    /** One call made inside the callback of group `g`, while `g` or no group is
        active: an add() is collected by `g` when it is active, and a nested group()
        leaves no group active. `later` are the calls of the callback after this one. */
    method Call(call: Registration, g: GroupDefinition, ghost later: seq<Registration>)
      returns (ghost added: seq<RouteDefinition>)
      requires Valid() && (activeGroup == g || activeGroup == null)
      modifies this, node, g
      ensures Valid() && (activeGroup == g || activeGroup == null)
      ensures old(activeGroup) == null ==> activeGroup == null && g.routes == old(g.routes)
      ensures activeGroup == g ==>
                Patterns(g.routes) + GroupPatterns(later) == Patterns(old(g.routes)) + GroupPatterns([call] + later)
      ensures old(activeGroup) == g && activeGroup == null ==>
                g.routes == old(g.routes) && GroupPatterns([call] + later) == []
      ensures activeGroup == g ==> call.AddRoute? && g.routes == old(g.routes) + added
      ensures Made(added, AddsOf(call)) && (forall k :: 0 <= k < |added| ==> fresh(added[k]))
      ensures objects == old(objects) + SetOf(added)
      ensures staticRoutes == StaticAfter(old(staticRoutes), added)
      ensures node.nodes == TrieAfter(old(node.nodes), added)
      decreases call, 0
    {
      match call {
        case AddRoute(p, h) =>
          var route := AddWithin(p, h, g, later);
          added := [route];
        case NestedGroup(b) =>
          var inner;
          inner, added := Group(b);
          assert ([call] + later)[0] == call && AddsOf(call) == Adds(b);
      }
    }

    /** One add() made inside the callback of group `g`, while `g` or no group is
        active: `g` collects the trimmed pattern exactly when it is active. `later` are
        the calls of the callback after this one. */
    method AddWithin(pattern: string, handler: Handler, g: GroupDefinition, ghost later: seq<Registration>)
      returns (route: RouteDefinition)
      requires Valid() && (activeGroup == g || activeGroup == null)
      modifies this`staticRoutes, this`objects, node, g`routes
      ensures Valid() && activeGroup == old(activeGroup)
      ensures activeGroup == null ==> g.routes == old(g.routes)
      ensures activeGroup == g ==> g.routes == old(g.routes) + [route]
      ensures activeGroup == g ==>
                Patterns(g.routes) + GroupPatterns(later)
                == Patterns(old(g.routes)) + GroupPatterns([AddRoute(pattern, handler)] + later)
      ensures fresh(route) && route.pattern == Trim(pattern, SpaceSlash) && route.handler == handler
      ensures Made([route], AddsOf(AddRoute(pattern, handler)))
      ensures objects == old(objects) + {route} && SetOf([route]) == {route}
      ensures staticRoutes == StaticAfter(old(staticRoutes), [route])
      ensures node.nodes == TrieAfter(old(node.nodes), [route])
    {
      ghost var before, table, nodes := g.routes, staticRoutes, node.nodes;
      route := Add(pattern, handler);
      assert activeGroup == g ==> g.routes == before + [route];
      assert activeGroup == null ==> g.routes == before;
      AfterOne(table, nodes, route);
      CollectOne(before, route, pattern, handler, later);
    }

    /** The lookup at the head of dispatch(): the static table first, then the trie; the
        route found takes its nodeContext as its context and nodeContext is cleared. */
    method Lookup(requestPath: string) returns (r: Result<RouteDefinition>)
      requires Valid()
      modifies this`path, objects`context, objects`nodeContext
      ensures Valid() && path == Trim(requestPath, SpaceSlash)
      ensures r.Ok? ==> r.value in objects && r.value.nodeContext == ""
      ensures path in staticRoutes ==>
                r == Ok(staticRoutes[path]) && r.value.context == old(r.value.nodeContext)
      ensures path !in staticRoutes && MatchFrom(node.nodes, 0, path).None? ==> r == Err(NoRoute(path))
      ensures path !in staticRoutes && MatchFrom(node.nodes, 0, path).Some? ==>
                var h := MatchFrom(node.nodes, 0, path).value;
                r == Ok(node.nodes[h.node].route)
                && r.value.context == ContextAfter(old(r.value.nodeContext), h.captures, h.leftover)
      ensures forall o :: o in objects && (r.Err? || o != r.value) ==>
                o.context == old(o.context) && o.nodeContext == old(o.nodeContext)
    {
      var p := Trim(requestPath, SpaceSlash);
      path := p;
      var route: RouteDefinition?;
      if p in staticRoutes {
        route := staticRoutes[p];
      } else {
        route := node.Match(p);
        node.RoutesWithin(objects);
      }
      if route == null {
        return Err(NoRoute(p));
      }
      route.context := route.nodeContext;
      route.nodeContext := "";
      r := Ok(route);
    }

    /** createNewSpecificRoute(): an existing static route under the trimmed path is
        reused; otherwise the path is added and its class method set, which a closure
        handler refuses. */
    method CreateNewSpecificRoute(pattern: string, m: string, handler: Handler) returns (r: Result<RouteDefinition>)
      requires Valid()
      modifies this`staticRoutes, this`objects, node, ActiveGroups()`routes
      ensures Valid()
      ensures objects >= old(objects) && fresh(objects - old(objects))
      ensures old(staticRoutes).Keys <= staticRoutes.Keys
      ensures var p := Trim(pattern, SpaceSlash);
              p in old(staticRoutes) ==>
                r == Ok(old(staticRoutes)[p]) && staticRoutes == old(staticRoutes) && node.nodes == old(node.nodes)
                && objects == old(objects)
      ensures var p := Trim(pattern, SpaceSlash);
              p !in old(staticRoutes) && handler.ClassHandler? ==>
                r.Ok? && fresh(r.value) && r.value.pattern == p && r.value.handler == handler
                && r.value.classMethod == Some(m) && r.value.middleware == [] && r.value.reflection == None
                && r.value.context == "" && r.value.nodeContext == "" && r.value.factory == None
                && objects == old(objects) + {r.value}
                && staticRoutes == (if '*' in p then old(staticRoutes) else old(staticRoutes)[p := r.value])
                && node.nodes == InsertNodes(old(node.nodes), p, r.value)
      ensures var p := Trim(pattern, SpaceSlash);
              p !in old(staticRoutes) && handler.ClosureHandler? ==>
                r == Err(ClosureMethodRefused)
      ensures r.Ok? ==> r.value in objects
    {
      var p := Trim(pattern, SpaceSlash);
      if p in staticRoutes {
        return Ok(staticRoutes[p]);
      }
      TrimIdempotent(pattern, SpaceSlash);
      r := AddWithMethod(p, m, handler);
    }

    /** The second half of createNewSpecificRoute: add() on an already trimmed pattern,
        then classMethod() on the new route. */
    method AddWithMethod(p: string, m: string, handler: Handler) returns (r: Result<RouteDefinition>)
      requires Valid() && Trim(p, SpaceSlash) == p
      modifies this`staticRoutes, this`objects, node, ActiveGroups()`routes
      ensures Valid()
      ensures handler.ClassHandler? ==>
                r.Ok? && fresh(r.value) && r.value.pattern == p && r.value.handler == handler
                && r.value.classMethod == Some(m) && r.value.middleware == [] && r.value.reflection == None
                && r.value.context == "" && r.value.nodeContext == "" && r.value.factory == None
                && objects == old(objects) + {r.value}
                && staticRoutes == (if '*' in p then old(staticRoutes) else old(staticRoutes)[p := r.value])
                && node.nodes == InsertNodes(old(node.nodes), p, r.value)
      ensures handler.ClosureHandler? ==> r == Err(ClosureMethodRefused)
      ensures objects >= old(objects) && fresh(objects - old(objects)) && old(staticRoutes).Keys <= staticRoutes.Keys
    {
      var route := Add(p, handler);
      ghost var table, nodes, objs := staticRoutes, node.nodes, objects;
      assert objs == old(objects) + {route};
      assert table == if '*' in p then old(staticRoutes) else old(staticRoutes)[p := route];
      assert nodes == InsertNodes(old(node.nodes), p, route);
      assert objs - old(objects) <= {route} && old(staticRoutes).Keys <= table.Keys;
      r := route.ClassMethod(m);
      assert staticRoutes == table && node.nodes == nodes && objects == objs;
      assert handler.ClassHandler? ==> r == Ok(route);
    }

    /** One method route of class expansion: created or reused by
        createNewSpecificRoute, then equipped as `Equip` says. */
    method RegisterMethodRoute(pattern: string, mi: MethodInfo, handler: Handler, clearFirst: bool)
      returns (r: Result<RouteDefinition>)
      requires Valid() && handler.ClassHandler?
      modifies this`staticRoutes, this`objects, node, ActiveGroups()`routes, objects`context, objects`classMethod, objects`reflection
      ensures Valid()
      ensures objects >= old(objects) && fresh(objects - old(objects))
      ensures old(staticRoutes).Keys <= staticRoutes.Keys
      ensures var p := Trim(pattern, SpaceSlash); '*' !in p ==> p in staticRoutes
      ensures var p := Trim(pattern, SpaceSlash);
              p in old(staticRoutes) ==>
                var o := old(staticRoutes)[p];
                objects == old(objects) && staticRoutes == old(staticRoutes)
                && (r.Err? <==> o.handler.ClosureHandler? && !Truthy(old(o.classMethod)))
                && (r.Err? ==> r.error == ClosureMethodRefused && o.classMethod == old(o.classMethod)
                               && o.reflection == old(o.reflection) && o.context == (if clearFirst then "" else old(o.context)))
                && (r.Ok? ==> r.value == o && o.context == "" && o.reflection == Some(MethodReflection(mi))
                              && o.classMethod == if Truthy(old(o.classMethod)) then old(o.classMethod) else Some(mi.name))
      ensures var p := Trim(pattern, SpaceSlash);
              p !in old(staticRoutes) ==>
                r.Ok? && fresh(r.value) && objects == old(objects) + {r.value}
                && r.value.pattern == p && r.value.handler == handler && r.value.classMethod == Some(mi.name)
                && r.value.middleware == [] && r.value.nodeContext == "" && r.value.context == ""
                && r.value.factory == None && r.value.reflection == Some(MethodReflection(mi))
      ensures var p := Trim(pattern, SpaceSlash);
              forall o :: o in old(objects) && (p in old(staticRoutes) ==> o != old(staticRoutes)[p]) ==>
                o.context == old(o.context) && o.classMethod == old(o.classMethod) && o.reflection == old(o.reflection)
    {
      var created := CreateNewSpecificRoute(pattern, mi.name, handler);
      r := Equip(created.value, mi, clearFirst);
    }

    /** The end of both expansions: the current path is matched again and the route
        found replaces the entry route, taking over the entry route's middleware. */
    method Rematch(route: RouteDefinition, miss: Error) returns (r: Result<RouteDefinition>)
      requires Valid() && route in objects
      modifies objects`context, objects`nodeContext, objects`middleware
      ensures Valid()
      ensures r.Ok? ==> r.value in objects
      ensures MatchFrom(node.nodes, 0, path).None? ==> r == Err(miss)
      ensures MatchFrom(node.nodes, 0, path).Some? ==>
                var h := MatchFrom(node.nodes, 0, path).value;
                r == Ok(node.nodes[h.node].route)
                && r.value.context == ContextAfter(old(r.value.nodeContext), h.captures, h.leftover)
                && r.value.nodeContext == ""
                && r.value.middleware == old(r.value.middleware) + old(route.middleware)
                && (r.value != route ==> route.context == "")
      ensures r.Err? ==> forall o :: o in objects ==>
                o.context == old(o.context) && o.nodeContext == old(o.nodeContext) && o.middleware == old(o.middleware)
      ensures r.Ok? ==> forall o :: o in objects && o != r.value && o != route ==>
                o.context == old(o.context) && o.nodeContext == old(o.nodeContext) && o.middleware == old(o.middleware)
    {
      node.RoutesWithin(objects);
      var replace := node.Match(path);
      if replace == null {
        return Err(miss);
      }
      route.context := "";
      var _ := replace.Middleware(route.middleware);
      replace.context := replace.nodeContext;
      replace.nodeContext := "";
      r := Ok(replace);
    }

    /** The loop of both expansions: one method route per method MethodPattern
        registers, stopping at the first refusal; `ok` when none refused. */
    method RegisterClassMethods(route: RouteDefinition, classRoute: Option<string>, methods: seq<MethodInfo>)
      returns (ok: bool)
      requires Valid() && route.handler.ClassHandler?
      modifies this`staticRoutes, this`objects, node, ActiveGroups()`routes, objects`context, objects`classMethod, objects`reflection
      ensures Valid() && objects >= old(objects) && fresh(objects - old(objects))
      ensures old(staticRoutes).Keys <= staticRoutes.Keys
      ensures forall o :: o in objects - old(objects) ==> o.middleware == [] && o.nodeContext == ""
      ensures ok ==> Registered(route.pattern, classRoute, methods, staticRoutes)
    {
      var j := 0;
      while j < |methods|
        invariant 0 <= j <= |methods|
        invariant Valid() && objects >= old(objects) && fresh(objects - old(objects))
        invariant old(staticRoutes).Keys <= staticRoutes.Keys
        invariant forall o :: o in objects - old(objects) ==> o.middleware == [] && o.nodeContext == ""
        invariant Registered(route.pattern, classRoute, methods[..j], staticRoutes)
      {
        ghost var before := staticRoutes;
        ok := RegisterClassMethod(route, classRoute, methods[j]);
        if !ok {
          return;
        }
        RegisteredStep(route.pattern, classRoute, methods, j, before, staticRoutes);
        j := j + 1;
      }
      assert methods[..j] == methods;
      ok := true;
    }

    /** One step of that loop: the method route for `mi`, if MethodPattern registers one. */
    method RegisterClassMethod(route: RouteDefinition, classRoute: Option<string>, mi: MethodInfo) returns (ok: bool)
      requires Valid() && route.handler.ClassHandler?
      modifies this`staticRoutes, this`objects, node, ActiveGroups()`routes, objects`context, objects`classMethod, objects`reflection
      ensures Valid() && objects >= old(objects) && fresh(objects - old(objects))
      ensures old(staticRoutes).Keys <= staticRoutes.Keys
      ensures forall o :: o in objects - old(objects) ==> o.middleware == [] && o.nodeContext == ""
      ensures var mp := MethodPattern(route.pattern, classRoute, mi);
              ok && mp.Some? && '*' !in Trim(mp.value, SpaceSlash) ==> Trim(mp.value, SpaceSlash) in staticRoutes
    {
      var pattern := MethodPattern(route.pattern, classRoute, mi);
      ok := true;
      if pattern.Some? {
        var made := RegisterMethodRoute(pattern.value, mi, route.handler, classRoute.None?);
        ok := made.Ok?;
      }
    }

    /** One expansion: the method routes are registered, then the path is matched
        again; `miss` is the error when nothing matches. */
    method Expand(route: RouteDefinition, classRoute: Option<string>, methods: seq<MethodInfo>, miss: Error)
      returns (r: Result<RouteDefinition>)
      requires Valid() && route in objects && route.handler.ClassHandler? && miss.InvalidRoute?
      modifies this`staticRoutes, this`objects, node, ActiveGroups()`routes,
               objects`context, objects`nodeContext, objects`classMethod, objects`reflection, objects`middleware
      ensures Valid() && objects >= old(objects) && fresh(objects - old(objects))
      ensures old(staticRoutes).Keys <= staticRoutes.Keys
      ensures r.Err? ==> r.error == ClosureMethodRefused || r.error == miss
      ensures r.Ok? ==> r.value in objects
      ensures r != Err(ClosureMethodRefused) ==>
                Registered(route.pattern, classRoute, methods, staticRoutes)
                && (r.Err? <==> MatchFrom(node.nodes, 0, path).None?)
      ensures r.Ok? ==>
                var h := MatchFrom(node.nodes, 0, path).value;
                var known := r.value in old(objects);
                r.value == node.nodes[h.node].route && r.value.nodeContext == ""
                && r.value.context == ContextAfter(if known then old(r.value.nodeContext) else "", h.captures, h.leftover)
                && r.value.middleware == (if known then old(r.value.middleware) else []) + old(route.middleware)
    {
      var ok := RegisterClassMethods(route, classRoute, methods);
      if !ok {
        return Err(ClosureMethodRefused);
      }
      label Registered:
      r := Rematch(route, miss);
      if r.Ok? {
        assert old@Registered(r.value.middleware) == if r.value in old(objects) then old(r.value.middleware) else [];
        assert old@Registered(r.value.nodeContext) == if r.value in old(objects) then old(r.value.nodeContext) else "";
      }
    }

    /** What resolveClassRoute() promises for a class route resolved against the
        reflection `info` of its class: a truthy class method is looked up, reflected
        and must be public; otherwise the class is expanded by attributes (after the
        class-route check) or by convention, and every method it registers is in the
        static table unless a closure route refused its method name. */
    twostate predicate Resolved(info: ClassInfo, route: RouteDefinition, new r: Result<RouteDefinition>)
      requires route.handler.ClassHandler?
      reads this, node, route
    {
      (Truthy(old(route.classMethod)) ==>
         var m := old(route.classMethod).value;
         objects == old(objects) && staticRoutes == old(staticRoutes) && node.nodes == old(node.nodes)
         && route.classMethod == old(route.classMethod)
         && match FindMethod(info.methods, m)
            case None => r == Err(ReflectionFailed(route.pattern, MethodMissing(route.handler.className, m)))
            case Some(mi) =>
              route.reflection == Some(MethodReflection(mi))
              && r == if mi.isPublic then Ok(route) else Err(NotPublic(m)))
      && (!Truthy(old(route.classMethod)) && info.route.Some?
          && CheckClassRoute(info.route.value, route.pattern).Err? ==>
            r == Err(CheckClassRoute(info.route.value, route.pattern).error) && objects == old(objects))
      && (!Truthy(old(route.classMethod)) && info.route.None? ==>
            (r.Err? ==> r.error == ClosureMethodRefused || r.error == NoValidMethod(route.handler.className))
            && (r != Err(ClosureMethodRefused) ==> Registered(route.pattern, None, info.methods, staticRoutes)))
      && (!Truthy(old(route.classMethod)) && info.route.Some?
          && CheckClassRoute(info.route.value, route.pattern).Ok? ==>
            var c := CheckClassRoute(info.route.value, route.pattern).value;
            (r.Err? ==> r.error == ClosureMethodRefused
                        || r.error == NoMatchingAttribute(route.handler.className, route.pattern))
            && (r != Err(ClosureMethodRefused) ==> Registered(route.pattern, Some(c), info.methods, staticRoutes)))
    }

    /** resolveClassRoute(). */
    method ResolveClassRoute(info: ClassInfo, route: RouteDefinition) returns (r: Result<RouteDefinition>)
      requires Valid() && route in objects && route.handler.ClassHandler?
      modifies this`staticRoutes, this`objects, node, ActiveGroups()`routes,
               objects`context, objects`nodeContext, objects`classMethod, objects`reflection, objects`middleware
      ensures Valid() && objects >= old(objects) && fresh(objects - old(objects))
      ensures r.Ok? ==> r.value in objects
      ensures Resolved(info, route, r)
    {
      if Truthy(route.classMethod) {
        var m := route.classMethod.value;
        var found := FindMethod(info.methods, m);
        if found.None? {
          return Err(ReflectionFailed(route.pattern, MethodMissing(route.handler.className, m)));
        }
        route.reflection := Some(MethodReflection(found.value));
        if found.value.isPublic {
          return Ok(route);
        }
        return Err(NotPublic(m));
      }
      if info.route.Some? {
        var checked := CheckClassRoute(info.route.value, route.pattern);
        if checked.Err? {
          return Err(checked.error);
        }
        r := Expand(route, Some(checked.value), info.methods,
                    NoMatchingAttribute(route.handler.className, route.pattern));
      } else {
        r := Expand(route, None, info.methods, NoValidMethod(route.handler.className));
      }
    }

    /** reflectHandler(): a closure route keeps the reflection it has or is given the
        closure's; a class route needs its class to exist and is resolved. */
    method ReflectHandler(route: RouteDefinition, classes: string -> Option<ClassInfo>)
      returns (r: Result<RouteDefinition>)
      requires Valid() && route in objects
      modifies this`staticRoutes, this`objects, node, ActiveGroups()`routes,
               objects`context, objects`nodeContext, objects`classMethod, objects`reflection, objects`middleware
      ensures Valid() && objects >= old(objects) && fresh(objects - old(objects))
      ensures r.Ok? ==> r.value in objects
      ensures route.handler.ClosureHandler? ==>
                r == Ok(route) && objects == old(objects)
                && route.reflection == if old(route.reflection).None? then Some(FunctionReflection(route.handler.parameters))
                                       else old(route.reflection)
      ensures route.handler.ClassHandler? && classes(route.handler.className).None? ==>
                r == Err(ReflectionFailed(route.pattern, ClassMissing(route.handler.className))) && objects == old(objects)
      ensures route.handler.ClassHandler? && classes(route.handler.className).Some? ==>
                Resolved(classes(route.handler.className).value, route, r)
    {
      if route.handler.ClosureHandler? {
        if route.reflection.None? {
          route.reflection := Some(FunctionReflection(route.handler.parameters));
        }
        return Ok(route);
      }
      var info := classes(route.handler.className);
      if info.None? {
        return Err(ReflectionFailed(route.pattern, ClassMissing(route.handler.className)));
      }
      r := ResolveClassRoute(info.value, route);
    }

    /** requestHandlerFactory(): the route is reflected unless it already holds a
        reflection, the route reflection gives (possibly another one) must hold one,
        and its factory is built from it and the reflection dropped. `used` is the
        reflection the factory was built from. */
    method RequestHandlerFactory(route: RouteDefinition, classes: string -> Option<ClassInfo>)
      returns (r: Result<RouteDefinition>, ghost used: Reflection)
      requires Valid() && route in objects
      modifies this`staticRoutes, this`objects, node, ActiveGroups()`routes,
               objects`context, objects`nodeContext, objects`classMethod, objects`reflection, objects`middleware, objects`factory
      ensures Valid() && objects >= old(objects) && fresh(objects - old(objects))
      ensures r.Ok? ==> r.value in objects && r.value.factory.Some? && r.value.reflection.None?
      ensures r.Ok? ==> r.value.factory == Some(FactoryFor(r.value.handler, r.value.classMethod, used))
      ensures old(route.reflection).Some? ==>
                r == Ok(route) && objects == old(objects) && staticRoutes == old(staticRoutes)
                && used == old(route.reflection).value
      ensures old(route.reflection).None? && route.handler.ClosureHandler? ==>
                r == Ok(route) && objects == old(objects)
                && route.factory == Some(ClosureFactory(route.handler.id, route.handler.parameters, ClosureName))
      ensures old(route.reflection).None? && route.handler.ClassHandler? && classes(route.handler.className).None? ==>
                r == Err(ReflectionFailed(route.pattern, ClassMissing(route.handler.className)))
      ensures var c := route.handler;
              old(route.reflection).None? && c.ClassHandler? && classes(c.className).Some?
              && Truthy(old(route.classMethod))
              && FindMethod(classes(c.className).value.methods, old(route.classMethod).value).Some? ==>
                var mi := FindMethod(classes(c.className).value.methods, old(route.classMethod).value).value;
                r == (if mi.isPublic then Ok(route) else Err(NotPublic(old(route.classMethod).value)))
                && (mi.isPublic ==> route.factory == Some(ClassFactory(c.className, old(route.classMethod), mi.parameters, mi.name)))
    {
      var current := route;
      used := FunctionReflection([]);
      if route.reflection.None? {
        var reflected := ReflectHandler(route, classes);
        if reflected.Err? {
          return Err(reflected.error), used;
        }
        current := reflected.value;
      }
      if current.reflection.None? {
        return Err(Unreflectable(current.pattern)), used;
      }
      used := current.reflection.value;
      current.factory := Some(FactoryFor(current.handler, current.classMethod, current.reflection.value));
      current.reflection := None;
      r := Ok(current);
    }

    /** dispatch(): the route is looked up, given its factory when it has none yet, and
        served with its middleware on the arguments its context gives. `served` is the
        route whose factory answered, null when dispatch failed before reaching one. */
    method Dispatch(requestPath: string, request: Request, env: Env)
      returns (r: Result<Outcome>, ghost served: RouteDefinition?)
      requires Valid()
      modifies this`path, this`staticRoutes, this`objects, node, ActiveGroups()`routes,
               objects`context, objects`nodeContext, objects`classMethod, objects`reflection, objects`middleware, objects`factory
      ensures Valid() && path == Trim(requestPath, SpaceSlash)
      ensures objects >= old(objects) && fresh(objects - old(objects))
      ensures var p := Trim(requestPath, SpaceSlash);
              p !in old(staticRoutes) && old(MatchFrom(node.nodes, 0, p)).None? ==>
                r == Err(NoRoute(p)) && served == null
      ensures served == null ==> r.Err?
      ensures served != null ==>
                served in objects && served.factory.Some?
                && r == Serve(served.factory.value, served.middleware, env.getArguments(served.context), request, env)
      ensures var p := Trim(requestPath, SpaceSlash);
              p in old(staticRoutes) && old(staticRoutes[p].factory).Some? ==>
                var found := old(staticRoutes[p]);
                served == found && found.factory == old(found.factory) && found.middleware == old(found.middleware)
                && found.context == old(found.nodeContext)
      ensures var p := Trim(requestPath, SpaceSlash);
              p !in old(staticRoutes) && old(MatchFrom(node.nodes, 0, p)).Some? ==>
                var h := old(MatchFrom(node.nodes, 0, p)).value;
                var found := old(node.nodes[h.node].route);
                old(found.factory).Some? ==>
                  served == found && found.factory == old(found.factory) && found.middleware == old(found.middleware)
                  && found.context == ContextAfter(old(found.nodeContext), h.captures, h.leftover)
    {
      var looked := Lookup(requestPath);
      if looked.Err? {
        return Err(looked.error), null;
      }
      var route := looked.value;
      if route.factory.None? {
        var made, _ := RequestHandlerFactory(route, env.classes);
        if made.Err? {
          return Err(made.error), null;
        }
        route := made.value;
      }
      r := Serve(route.factory.value, route.middleware, env.getArguments(route.context), request, env);
      served := route;
    }
  }
}
