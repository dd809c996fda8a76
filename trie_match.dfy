/** What the two tries share: pattern segments, and what a successful match reports
    and leaves in the matched route's nodeContext. */
module TrieMatch {
  import opened PhpString
  import opened RouteUtility
  import opened RouteDefinition

  /** One registration: a pattern and its route. */
  datatype Insertion = Insertion(path: string, route: RouteDefinition)

  /** A pattern segment: a literal, or the wildcard `*`. */
  datatype Seg = Lit(text: string) | Wild

  function ToSeg(s: string): Seg {
    if s == "*" then Wild else Lit(s)
  }

  /** The segments insert() walks for a pattern. */
  function PatternSegs(path: string): seq<Seg>
    decreases |path|
  {
    if path == "" then []
    else [ToSeg(ExtractFirstSegment(path).segment)] + PatternSegs(ExtractFirstSegment(path).rest)
  }

  /** A pattern none of whose segments is `*`. */
  predicate LiteralOnly(path: string)
    decreases |path|
  {
    path == "" || (ExtractFirstSegment(path).segment != "*" && LiteralOnly(ExtractFirstSegment(path).rest))
  }

  /** A successful match: the node whose route is returned, the segments consumed by
      wildcard children (outermost first) and the leftover path appended at the end. */
  datatype Hit = Hit(node: nat, captures: seq<string>, leftover: string)

  /** What a hit leaves in the route's nodeContext: the leftover appended to what was
      there, then each capture prepended, innermost first. */
  function ContextAfter(ctx: string, captures: seq<string>, leftover: string): string {
    if captures == [] then (if leftover != "" then AppendSegment(ctx, leftover) else ctx)
    else PrependSegment(ContextAfter(ctx, captures[1..], leftover), captures[0])
  }

  /** A capture taken by an outer wildcard is prepended after the inner hit's context. */
  lemma ContextAfterCons(ctx: string, c: string, captures: seq<string>, leftover: string)
    ensures ContextAfter(ctx, [c] + captures, leftover) == PrependSegment(ContextAfter(ctx, captures, leftover), c)
  {
    assert ([c] + captures)[0] == c && ([c] + captures)[1..] == captures;
  }

  /** A join of strings none of which is empty, whose first does not start with '/',
      does not start with '/'. */
  lemma ImplodeHead(parts: seq<string>)
    requires |parts| > 0 && parts[0] != "" && parts[0][0] != '/'
    ensures Implode('/', parts) != "" && Implode('/', parts)[0] == parts[0][0]
  {
  }

  /** Prepending a segment to a join adds it as the first part. */
  lemma PrependJoin(c: string, parts: seq<string>)
    requires !IsFalsy(c) && |parts| > 0 && parts[0] != "" && parts[0][0] != '/'
    ensures PrependSegment(Implode('/', parts), c) == Implode('/', [c] + parts)
  {
    ImplodeHead(parts);
    var x := Implode('/', parts);
    assert LTrim(x, SlashSet) == x;
    assert ([c] + parts)[1..] == parts;
  }

  /** With captures that are not falsy and hold no '/' and a leftover that is empty or
      is not falsy and does not start with '/', nodeContext ends up as the '/'-join of
      the captures in path order followed by the leftover. */
  lemma {:induction false} ContextAfterJoins(captures: seq<string>, leftover: string)
    requires forall i :: 0 <= i < |captures| ==> !IsFalsy(captures[i]) && '/' !in captures[i]
    requires leftover == "" || (!IsFalsy(leftover) && leftover[0] != '/')
    ensures ContextAfter("", captures, leftover) ==
              Implode('/', if leftover == "" then captures else captures + [leftover])
  {
    if captures != [] {
      var c := captures[0];
      var tail := if leftover == "" then captures[1..] else captures[1..] + [leftover];
      assert (if leftover == "" then captures else captures + [leftover]) == [c] + tail;
      ContextAfterJoins(captures[1..], leftover);
      if tail == [] {
        assert [c] + tail == [c];
      } else {
        assert tail[0] != "" && tail[0][0] != '/';
        PrependJoin(c, tail);
      }
    }
  }
}
