/** The route record (src/Definition/RouteDefinition.php) with the fields Router.php
    reads and writes on it: middleware, classMethod, context, nodeContext, factory and
    reflection, besides those of the record's own file. In the record's file `context`
    is an array filled by setMatchesFromPath while Router.php uses it as a string; the
    model keeps the string as `context` and the array as `contextSegments`. */
module RouteDefinition {
  import opened Wrappers
  import opened PhpString
  import opened RouterTypes

  /** The characters preg_quote escapes, with '#', the delimiter the regex uses. */
  const RegexSpecials: set<char> :=
    {'.', '\\', '+', '*', '?', '[', '^', ']', '$', '(', ')', '{', '}', '=', '!', '<', '>', '|', ':', '-', '#'}

  const Nul: char := 0 as char

  /** A character preg_quote leaves alone. */
  predicate Unescaped(c: char) {
    c !in RegexSpecials && c != Nul
  }

  function QuoteChar(c: char): string {
    if c == Nul then "\\000"
    else if c in RegexSpecials then ['\\', c]
    else [c]
  }

  /** preg_quote($s, '#'). */
  function PregQuote(s: string): string {
    if s == [] then [] else QuoteChar(s[0]) + PregQuote(s[1..])
  }

  /** Reading a preg_quote'd string back, the partner of PregQuote. */
  function Unquote(s: string): string
    decreases |s|
  {
    if s == [] then []
    else if |s| >= 4 && s[0] == '\\' && s[1..4] == "000" then [Nul] + Unquote(s[4..])
    else if |s| >= 2 && s[0] == '\\' then [s[1]] + Unquote(s[2..])
    else [s[0]] + Unquote(s[1..])
  }

  /** Escaping loses nothing: unquoting gives the segment back. */
  lemma {:induction false} UnquotePregQuote(s: string)
    ensures Unquote(PregQuote(s)) == s
  {
    if s != [] {
      var q := PregQuote(s[1..]);
      var c := s[0];
      UnquotePregQuote(s[1..]);
      var whole := QuoteChar(c) + q;
      assert PregQuote(s) == whole;
      if c == Nul {
        assert whole[1..4] == "000" && whole[4..] == q;
      } else if c in RegexSpecials {
        assert whole[0] == '\\' && whole[1] == c && whole[2..] == q;
        assert |whole| >= 4 ==> whole[1..4] != "000" by {
          if |whole| >= 4 { assert whole[1..4][0] == c; assert c != '0'; }
        }
      } else {
        assert whole[0] == c && whole[1..] == q;
      }
    }
  }

  /** A segment with no special character and no NUL is quoted as itself. */
  lemma {:induction false} PregQuotePlain(s: string)
    requires forall i :: 0 <= i < |s| ==> Unescaped(s[i])
    ensures PregQuote(s) == s
  {
    if s != [] {
      PregQuotePlain(s[1..]);
    }
  }

  const WildcardGroup: string := "([^/]+)"
  const RegexPrefix: string := "#^"
  const RegexSuffix: string := "(?:/(.*))?$#"

  function SegmentRegex(p: string): string {
    if p == "*" then WildcardGroup else PregQuote(p)
  }

  function SegmentRegexes(parts: seq<string>): (r: seq<string>)
    ensures |r| == |parts|
    ensures forall i :: 0 <= i < |parts| ==> r[i] == SegmentRegex(parts[i])
  {
    if parts == [] then [] else [SegmentRegex(parts[0])] + SegmentRegexes(parts[1..])
  }

  /** The regex regex() builds for a pattern. */
  function PatternRegex(pattern: string): string {
    RegexPrefix + Implode('/', SegmentRegexes(Explode('/', pattern))) + RegexSuffix
  }

  /** Every regex is anchored and ends in the optional leftover group. */
  lemma PatternRegexShape(pattern: string)
    ensures var r := PatternRegex(pattern);
            |r| >= |RegexPrefix| + |RegexSuffix|
            && r[..|RegexPrefix|] == RegexPrefix
            && r[|r| - |RegexSuffix|..] == RegexSuffix
  {
  }

  /** For a pattern with no wildcard segment and no character preg_quote escapes, the
      regex is the pattern itself between the anchor and the leftover group. */
  lemma PatternRegexLiteral(pattern: string)
    requires forall i :: 0 <= i < |pattern| ==> Unescaped(pattern[i])
    ensures PatternRegex(pattern) == RegexPrefix + pattern + RegexSuffix
  {
    var parts := Explode('/', pattern);
    ImplodeExplode('/', pattern);
    forall i | 0 <= i < |parts|
      ensures SegmentRegex(parts[i]) == parts[i]
    {
      PartsArePlain(pattern, i);
      PregQuotePlain(parts[i]);
    }
    assert SegmentRegexes(parts) == parts;
  }

  /** Every '/'-piece of a pattern preg_quote leaves alone is itself left alone, and is
      not the wildcard. */
  lemma PartsArePlain(pattern: string, i: nat)
    requires forall k :: 0 <= k < |pattern| ==> Unescaped(pattern[k])
    requires i < |Explode('/', pattern)|
    ensures var p := Explode('/', pattern)[i];
            p != "*" && forall k :: 0 <= k < |p| ==> Unescaped(p[k])
  {
    var p := Explode('/', pattern)[i];
    forall c | !Unescaped(c)
      ensures c !in p
    {
      ExplodePiecesLack('/', pattern, c);
    }
    assert !Unescaped('*');
  }

  /** What setMatchesFromPath stores for preg_match's groups: the full match and the
      last (leftover) group removed, and the leftover's '/'-pieces appended when the
      leftover is not empty. */
  function ContextFromMatches(matches: seq<string>): (r: seq<string>)
    ensures |matches| <= 1 ==> r == []
    ensures |matches| >= 2 ==> |r| >= |matches| - 2
    ensures |matches| >= 2 ==>
              var leftover := matches[|matches| - 1];
              r[..|matches| - 2] == matches[1..|matches| - 1]
              && (leftover == "" ==> |r| == |matches| - 2)
              && (leftover != "" ==> r[|matches| - 2..] == Explode('/', leftover))
  {
    var shifted := if |matches| > 0 then matches[1..] else [];
    var leftover := if |shifted| > 0 then shifted[|shifted| - 1] else "";
    var groups := if |shifted| > 0 then shifted[..|shifted| - 1] else [];
    if leftover != "" then groups + Explode('/', leftover) else groups
  }

  /** The pieces appended for the leftover group join back to the leftover. */
  lemma ContextLeftoverRoundTrip(matches: seq<string>)
    requires |matches| >= 2 && matches[|matches| - 1] != ""
    ensures Implode('/', ContextFromMatches(matches)[|matches| - 2..]) == matches[|matches| - 1]
  {
    ImplodeExplode('/', matches[|matches| - 1]);
  }

  /** The LogicException classMethod() throws on a closure route. */
  const ClosureMethodRefused: Error := Logic("Setting method on closure route is not supported")

  class RouteDefinition {
    const pattern: string
    const handler: Handler
    var middleware: seq<MiddlewareRef>
    var classMethod: Option<string>
    /** The leftover path handed to the handler for the current dispatch. */
    var context: string
    /** Captured and leftover segments collected by the trie during a match. */
    var nodeContext: string
    /** The array form of the context that setMatchesFromPath fills. */
    var contextSegments: seq<string>
    var defaultMethod: Option<string>
    var factory: Option<Factory>
    var reflection: Option<Reflection>
    var regexCache: Option<string>

    /** The cache, once filled, holds this pattern's regex. */
    ghost predicate Valid()
      reads this
    {
      regexCache.Some? ==> regexCache.value == PatternRegex(pattern)
    }

    constructor (pattern: string, handler: Handler)
      ensures Valid()
      ensures this.pattern == pattern && this.handler == handler
      ensures middleware == [] && classMethod == None && context == "" && nodeContext == ""
      ensures contextSegments == [] && defaultMethod == None && factory == None
      ensures reflection == None && regexCache == None
    {
      this.pattern := pattern;
      this.handler := handler;
      middleware := [];
      classMethod := None;
      context := "";
      nodeContext := "";
      contextSegments := [];
      defaultMethod := None;
      factory := None;
      reflection := None;
      regexCache := None;
    }

    /** middleware(): appends the list after the existing middleware. */
    method Middleware(list: seq<MiddlewareRef>) returns (r: RouteDefinition)
      modifies this`middleware
      ensures r == this
      ensures middleware == old(middleware) + list
    {
      middleware := middleware + list;
      r := this;
    }

    /** classMethod(): refused with a LogicException on a closure route. */
    method ClassMethod(m: string) returns (r: Result<RouteDefinition>)
      modifies this`classMethod
      ensures handler.ClosureHandler? ==>
                r == Err(ClosureMethodRefused)
                && classMethod == old(classMethod)
      ensures handler.ClassHandler? ==> r == Ok(this) && classMethod == Some(m)
    {
      if handler.ClosureHandler? {
        return Err(ClosureMethodRefused);
      }
      classMethod := Some(m);
      r := Ok(this);
    }

    /** defaultMethod(). */
    method DefaultMethod(m: string) returns (r: RouteDefinition)
      modifies this`defaultMethod
      ensures r == this && defaultMethod == Some(m)
    {
      defaultMethod := Some(m);
      r := this;
    }

    /** setMatchesFromPath(). */
    method SetMatchesFromPath(matches: seq<string>)
      modifies this`contextSegments
      ensures contextSegments == ContextFromMatches(matches)
    {
      var shifted := if |matches| > 0 then matches[1..] else [];
      var leftover := "";
      if |shifted| > 0 {
        leftover := shifted[|shifted| - 1];
        shifted := shifted[..|shifted| - 1];
      }
      contextSegments := shifted;
      if leftover != "" {
        contextSegments := contextSegments + Explode('/', leftover);
      }
    }

    /** regex(): built on the first call and served from the cache afterwards. */
    method Regex() returns (r: string)
      requires Valid()
      modifies this`regexCache
      ensures Valid()
      ensures r == PatternRegex(pattern) && regexCache == Some(r)
      ensures old(regexCache).Some? ==> regexCache == old(regexCache)
    {
      if regexCache.Some? {
        return regexCache.value;
      }
      r := PatternRegex(pattern);
      regexCache := Some(r);
    }
  }

}
