/** The legacy route path record (src/RoutePath.php): a normalised path, the handler
    as either a class-string or a closure, an optional class method and an authorisation
    flag. The fields are what the getters return. */
module RoutePath {
  import opened Wrappers
  import opened PhpString
  import opened RouterTypes

  datatype RoutePath = RoutePath(
    className: Option<string>,
    closure: Option<Handler>,
    path: string,
    classMethod: Option<string>,
    authorize: bool)

  const Slash: set<char> := {'/'}

  /** The path normalisation: one leading '/', then the lower-cased path trimmed of
      '/' at both ends. */
  function NormalizePath(path: string): (r: string)
    ensures |r| >= 1 && r[0] == '/'
    ensures r == "/" || r[|r| - 1] != '/'
    ensures |r| < 2 || r[1] != '/'
  {
    var t := Trim(path, Slash);
    ToLowerKeepsSlashes(t);
    "/" + ToLower(t)
  }

  /** The constructor. */
  function NewRoutePath(path: string, handler: Handler, classMethod: Option<string> := None,
                        authorize: bool := true): (r: RoutePath)
    ensures r.path == NormalizePath(path)
    ensures r.className.Some? <==> handler.ClassHandler?
    ensures r.closure.Some? <==> handler.ClosureHandler?
    ensures handler.ClassHandler? ==> r.className == Some(handler.className)
    ensures handler.ClosureHandler? ==> r.closure == Some(handler)
    ensures r.classMethod == classMethod && r.authorize == authorize
  {
    RoutePath(
      if handler.ClassHandler? then Some(handler.className) else None,
      if handler.ClosureHandler? then Some(handler) else None,
      NormalizePath(path),
      classMethod,
      authorize)
  }

  /** Normalising a normalised path changes nothing, so a RoutePath built from another's
      getPath() has the same path. */
  lemma NormalizeIdempotent(path: string)
    ensures NormalizePath(NormalizePath(path)) == NormalizePath(path)
  {
    var t := Trim(path, Slash);
    var l := ToLower(t);
    ToLowerKeepsSlashes(t);
    assert l == [] || (l[0] !in Slash && l[|l| - 1] !in Slash);
    assert LTrim("/" + l, Slash) == LTrim(l, Slash) by {
      assert ("/" + l)[1..] == l;
    }
    TrimOfTrimmed(l, Slash);
    assert Trim("/" + l, Slash) == l;
    ToLowerIdempotent(t);
  }

  /** Exactly one of getClass() and getClosure() is set. */
  lemma ClassOrClosure(path: string, handler: Handler, classMethod: Option<string>, authorize: bool)
    ensures var r := NewRoutePath(path, handler, classMethod, authorize);
            r.className.Some? != r.closure.Some?
  {
  }

  /** Without the optional arguments the route has no method and requires authorisation. */
  lemma Defaults(path: string, handler: Handler)
    ensures NewRoutePath(path, handler).classMethod == None && NewRoutePath(path, handler).authorize
  {
  }
}
