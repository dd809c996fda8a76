/** The path arithmetic of class-route expansion in src/Router.php: method names turned
    into paths (convention expansion), #[Route] paths placed under the class path
    (attribute expansion), the class-path check, and the attribute-route matcher. */
module Expansion {
  import opened Wrappers
  import opened PhpString
  import opened RouteUtility
  import opened RouteDefinition

  /** The characters trim($s, '/ ') removes. */
  const SpaceSlash: set<char> := {'/', ' '}

  /** convertClassMethodNameToPath(): every '_' becomes '/'; nothing else changes. */
  function ConvertClassMethodNameToPath(name: string): (r: string)
    ensures |r| == |name| && '_' !in r
    ensures forall i :: 0 <= i < |name| ==> (r[i] == '/' <==> name[i] == '_' || name[i] == '/')
    ensures forall i :: 0 <= i < |name| && name[i] != '_' ==> r[i] == name[i]
  {
    ReplaceChar(name, '_', '/')
  }

  /** A name without '_' converts to itself. */
  lemma ConvertWithoutUnderscore(name: string)
    requires '_' !in name
    ensures ConvertClassMethodNameToPath(name) == name
  {
  }

  /** Only "index" itself converts to "index". */
  lemma ConvertedIndex(name: string)
    ensures ConvertClassMethodNameToPath(name) == IndexMethod <==> name == IndexMethod
  {
    var m := ConvertClassMethodNameToPath(name);
    if m == IndexMethod {
      assert '/' !in IndexMethod;
      assert forall i :: 0 <= i < |name| ==> name[i] != '_';
      assert m == name;
    }
    if name == IndexMethod {
      ConvertWithoutUnderscore(name);
    }
  }

  /** No name converts to "__invoke", which holds '_'. */
  lemma ConvertedNeverInvoke(name: string)
    ensures ConvertClassMethodNameToPath(name) != InvokeMethod
  {
    assert InvokeMethod[0] == '_';
  }

  /** The converted name is the '_'-pieces of the name joined by '/'. */
  lemma ConvertJoinsPieces(name: string)
    ensures ConvertClassMethodNameToPath(name) == Implode('/', Explode('_', name))
  {
    ReplaceIsImplode(name, '_', '/');
  }

  /** For a method name without '/', each '_'-separated piece of the name becomes one
      path segment. */
  lemma ConvertSegments(name: string)
    requires '/' !in name
    ensures Explode('/', ConvertClassMethodNameToPath(name)) == Explode('_', name)
  {
    ConvertJoinsPieces(name);
    ExplodePiecesLack('_', name, '/');
    ExplodeImplode('/', Explode('_', name));
  }

  /** The index method name, and the name the source means for __invoke(). */
  const IndexMethod: string := "index"
  const InvokeMethod: string := "__invoke"

  /** The pattern a public method is registered under by convention, as written: the
      converted method path is compared with "index" and "__invoke". */
  function ConventionPattern(entry: string, methodName: string): (r: string)
    ensures methodName == IndexMethod ==> r == entry
  {
    ConvertedIndex(methodName);
    var methodPath := ConvertClassMethodNameToPath(methodName);
    if methodPath != IndexMethod && methodPath != InvokeMethod then AppendSegment(entry, methodPath) else entry
  }

  /** Any method other than index lands below the entry: the pattern's segments are the
      entry's followed by the '_'-pieces of the method name. */
  lemma ConventionSegments(entry: string, methodName: string)
    requires entry != "" && methodName != "" && methodName != IndexMethod && '/' !in methodName
    requires !IsFalsy(ConvertClassMethodNameToPath(methodName))
    ensures Explode('/', ConventionPattern(entry, methodName)) == Explode('/', entry) + Explode('_', methodName)
  {
    var m := ConvertClassMethodNameToPath(methodName);
    ConvertedIndex(methodName);
    ConvertedNeverInvoke(methodName);
    assert ConventionPattern(entry, methodName) == entry + "/" + m;
    ExplodeConcat('/', entry, m);
    ConvertSegments(methodName);
  }

  /** As written, __invoke() is never taken for the entry pattern: its converted path
      "//invoke" is appended instead. */
  lemma InvokeAppended(entry: string)
    ensures ConventionPattern(entry, InvokeMethod) == AppendSegment(entry, "//invoke")
    ensures ConventionPattern(entry, InvokeMethod) != entry
  {
    var m := ConvertClassMethodNameToPath(InvokeMethod);
    assert m == "//invoke" by {
      assert |m| == 8 && m[0] == '/' && m[1] == '/';
      assert m[2..] == "invoke";
    }
  }

  /** The evidently intended convention: the method name itself is compared, so both
      index() and __invoke() serve the entry pattern. */
  function ConventionPatternCorrected(entry: string, methodName: string): (r: string)
    ensures methodName == IndexMethod || methodName == InvokeMethod ==> r == entry
    ensures methodName != IndexMethod && methodName != InvokeMethod ==>
              r == AppendSegment(entry, ConvertClassMethodNameToPath(methodName))
  {
    if methodName != IndexMethod && methodName != InvokeMethod
    then AppendSegment(entry, ConvertClassMethodNameToPath(methodName))
    else entry
  }

  /** The corrected convention agrees with the written one on every method name except
      __invoke. */
  lemma CorrectedAgrees(entry: string, methodName: string)
    requires methodName != InvokeMethod
    ensures ConventionPatternCorrected(entry, methodName) == ConventionPattern(entry, methodName)
  {
    ConvertedIndex(methodName);
    ConvertedNeverInvoke(methodName);
  }

  function RouteMismatch(classRoute: string, baseSegment: string): Error {
    RouterConfiguration("Route mismatch: Class-level route attribute '" + classRoute
                        + "' does not match added base segment '/" + baseSegment + "'")
  }

  /** The class-path check of resolveClassAttributes: the class attribute's path,
      trimmed, must be the entry pattern's first segment; on success it is the class
      path the method paths are placed under. */
  function CheckClassRoute(attributePath: string, pattern: string): (r: Result<string>)
    ensures r.Ok? <==> Trim(attributePath, SpaceSlash) == ExtractFirstSegment(pattern).segment
    ensures r.Ok? ==> r.value == ExtractFirstSegment(pattern).segment
    ensures r.Err? ==> r.error == RouteMismatch(Trim(attributePath, SpaceSlash), ExtractFirstSegment(pattern).segment)
  {
    var classRoute := Trim(attributePath, SpaceSlash);
    var baseSegment := ExtractFirstSegment(pattern).segment;
    TrimIdempotent(attributePath, SpaceSlash);
    if classRoute != baseSegment then Err(RouteMismatch(classRoute, baseSegment)) else Ok(classRoute)
  }

  /** The path a method's #[Route] attribute is registered under: trimmed, a leading
      class path removed as a raw string prefix, then the class path prepended. */
  function AttributePattern(classRoute: string, methodRoute: string): (r: string)
    ensures IsFalsy(classRoute) ==> r == AttributeTail(classRoute, methodRoute)
    ensures !IsFalsy(classRoute) ==>
              r == classRoute || (|r| > |classRoute| && r[..|classRoute|] == classRoute && r[|classRoute|] == '/')
  {
    PrependSegment(AttributeTail(classRoute, methodRoute), classRoute)
  }

  function AttributeTail(classRoute: string, methodRoute: string): string {
    var path := Trim(methodRoute, SpaceSlash);
    if StartsWith(path, classRoute) then Trim(path[|classRoute|..], SpaceSlash) else path
  }

  /** A #[Route('/')] method is registered under the class path itself. */
  lemma AttributeRootIsClassPath(classRoute: string)
    requires !IsFalsy(classRoute)
    ensures AttributePattern(classRoute, "/") == classRoute
  {
    assert Trim("/", SpaceSlash) == "";
  }

  /** The class path in a method's attribute is optional: `c/m` and `m` give the same
      route. */
  lemma AttributePrefixOptional(classRoute: string, methodRoute: string)
    requires classRoute != "" && classRoute[0] !in SpaceSlash && classRoute[|classRoute| - 1] !in SpaceSlash
    requires methodRoute != "" && methodRoute[0] !in SpaceSlash && methodRoute[|methodRoute| - 1] !in SpaceSlash
    requires !StartsWith(methodRoute, classRoute)
    ensures AttributePattern(classRoute, classRoute + "/" + methodRoute) == AttributePattern(classRoute, methodRoute)
  {
    var full := classRoute + "/" + methodRoute;
    assert full[0] == classRoute[0] && full[|full| - 1] == methodRoute[|methodRoute| - 1];
    TrimOfTrimmed(full, SpaceSlash);
    TrimOfTrimmed(methodRoute, SpaceSlash);
    assert full[..|classRoute|] == classRoute;
    assert full[|classRoute|..] == "/" + methodRoute;
    TrimLeadingSlash(methodRoute);
    assert AttributeTail(classRoute, classRoute + "/" + methodRoute) == methodRoute;
    assert AttributeTail(classRoute, methodRoute) == methodRoute;
  }

  lemma TrimLeadingSlash(m: string)
    requires m != "" && m[0] !in SpaceSlash && m[|m| - 1] !in SpaceSlash
    ensures Trim("/" + m, SpaceSlash) == m
  {
    assert ("/" + m)[1..] == m;
    assert LTrim("/" + m, SpaceSlash) == LTrim(m, SpaceSlash);
    assert LTrim(m, SpaceSlash) == m;
    assert RTrim(m, SpaceSlash) == m;
  }

  /** The prefix test is on raw characters, not segments: under class path `c` an
      attribute path `c` + `s` becomes `c/s` even when `s` continues c's last segment
      (under "user", "users" becomes "user/s"). */
  lemma AttributeRawPrefix(classRoute: string, s: string)
    requires classRoute != "" && !IsFalsy(classRoute) && classRoute[0] !in SpaceSlash
    requires s != "" && s[0] !in SpaceSlash && s[|s| - 1] !in SpaceSlash
    ensures AttributePattern(classRoute, classRoute + s) == classRoute + "/" + s
  {
    var m := classRoute + s;
    assert m[0] == classRoute[0] && m[|m| - 1] == s[|s| - 1];
    TrimOfTrimmed(m, SpaceSlash);
    assert m[..|classRoute|] == classRoute && m[|classRoute|..] == s;
    TrimOfTrimmed(s, SpaceSlash);
    assert AttributeTail(classRoute, m) == s;
    assert LTrim(s, SlashSet) == s;
  }

  // ---------------------------------------------------------------------------
  // matchAttributeRoute

  /** The segment loop of matchAttributeRoute: literal attribute segments must equal the
      context's, each `*` collects the context segment into the arguments, and what is
      left of the context is appended at the end. Both loop tests are PHP truthiness
      tests, so a remaining "0" counts as empty. */
  function MatchSegments(attributeRoute: string, context: string, args: string): Option<string>
    decreases |attributeRoute|
  {
    if IsFalsy(attributeRoute) then Some(AppendSegment(args, context))
    else if IsFalsy(context) then None
    else
      var cs := ExtractFirstSegment(context);
      var ats := ExtractFirstSegment(attributeRoute);
      if ats.segment == "*" then MatchSegments(ats.rest, cs.rest, AppendSegment(args, cs.segment))
      else if ats.segment != cs.segment then None
      else MatchSegments(ats.rest, cs.rest, args)
  }

  /** matchAttributeRoute() on a route's context: None for no match, else the new
      context. */
  function AttributeMatch(attributeRoute: string, context: string): Option<string> {
    var a := Trim(attributeRoute, SpaceSlash);
    if CountChar(a, '/') > CountChar(context, '/') then None else MatchSegments(a, context, "")
  }

  /** A route of literal segments, none empty and none "0". */
  predicate PlainRoute(a: string)
    decreases |a|
  {
    a == "" ||
    (var sp := ExtractFirstSegment(a);
     !IsFalsy(sp.segment) && sp.segment != "*" && ('/' in a ==> sp.rest != "") && PlainRoute(sp.rest))
  }

  /** A segment split off a join with more path behind it. */
  lemma ExtractFromJoin(a: string, rest: string)
    requires a != ""
    ensures var sa := ExtractFirstSegment(a);
            var sj := ExtractFirstSegment(a + "/" + rest);
            sj.segment == sa.segment && sj.rest == (if '/' in a then sa.rest + "/" + rest else rest)
  {
    var j := a + "/" + rest;
    match FirstIndexOf(a, '/')
    case None =>
      assert j[|a|] == '/' && j[..|a|] == a;
      assert FirstIndexOf(j, '/') == Some(|a|);
      assert j[|a| + 1..] == rest;
    case Some(p) =>
      assert j[p] == '/' && j[..p] == a[..p];
      assert FirstIndexOf(j, '/') == Some(p);
      assert j[p + 1..] == a[p + 1..] + "/" + rest;
  }

  /** A plain attribute route matches any context that continues it, and the new
      context is what follows it, appended to the arguments. */
  lemma {:induction false} PlainRouteMatchesPrefix(a: string, rest: string, args: string)
    requires a != "" && PlainRoute(a)
    ensures MatchSegments(a, a + "/" + rest, args) == Some(AppendSegment(args, rest))
    decreases |a|
  {
    var sa := ExtractFirstSegment(a);
    ExtractFromJoin(a, rest);
    assert !IsFalsy(a);
    var j := a + "/" + rest;
    assert !IsFalsy(j) by { assert |j| >= 2; }
    if '/' in a {
      assert !IsFalsy(sa.rest);
      PlainRouteMatchesPrefix(sa.rest, rest, args);
    }
  }

  /** A wildcard segment captures the context segment in its place. */
  lemma WildcardCaptures(a: string, c: string, context: string, args: string)
    requires !IsFalsy(c) && '/' !in c
    ensures MatchSegments("*/" + a, c + "/" + context, args) == MatchSegments(a, context, AppendSegment(args, c))
  {
    ExtractFromJoin("*", a);
    ExtractFromJoin(c, context);
    assert !IsFalsy("*/" + a) && !IsFalsy(c + "/" + context);
    assert "*/" + a == "*" + "/" + a;
  }

  /** A literal segment that differs from the context's rejects the match. */
  lemma LiteralMismatch(s: string, a: string, c: string, context: string, args: string)
    requires !IsFalsy(s) && '/' !in s && s != "*" && !IsFalsy(c) && '/' !in c && s != c
    ensures MatchSegments(s + "/" + a, c + "/" + context, args) == None
  {
    ExtractFromJoin(s, a);
    ExtractFromJoin(c, context);
  }

  /** An attribute route with more '/' than the context is refused by the quick check
      without running the loop. */
  lemma QuickCheckRefuses(attributeRoute: string, context: string)
    requires CountChar(Trim(attributeRoute, SpaceSlash), '/') > CountChar(context, '/')
    ensures AttributeMatch(attributeRoute, context) == None
  {
  }

  /** matchAttributeRoute(): on a match the route's context becomes the collected
      arguments followed by the leftover; otherwise it is left alone. */
  method MatchAttributeRoute(attributeRoute: string, route: RouteDefinition) returns (matched: bool)
    modifies route`context
    ensures matched <==> AttributeMatch(attributeRoute, old(route.context)).Some?
    ensures matched ==> route.context == AttributeMatch(attributeRoute, old(route.context)).value
    ensures !matched ==> route.context == old(route.context)
  {
    var a := Trim(attributeRoute, SpaceSlash);
    if CountChar(a, '/') > CountChar(route.context, '/') {
      return false;
    }
    var context := route.context;
    var args := "";
    while !IsFalsy(a)
      invariant MatchSegments(a, context, args) == AttributeMatch(attributeRoute, old(route.context))
      decreases |a|
    {
      if IsFalsy(context) {
        return false;
      }
      var contextSegment := ExtractFirstSegment(context);
      context := contextSegment.rest;
      var attributeSegment := ExtractFirstSegment(a);
      a := attributeSegment.rest;
      if attributeSegment.segment == "*" {
        args := AppendSegment(args, contextSegment.segment);
      } else if attributeSegment.segment != contextSegment.segment {
        return false;
      }
    }
    args := AppendSegment(args, context);
    route.context := args;
    matched := true;
  }
}
