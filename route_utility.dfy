/** The segment helpers of RouteUtility. In the source each helper takes the path by
    reference and writes the shortened or extended path back; here each returns that
    second value explicitly. */
module RouteUtility {
  import opened Wrappers
  import opened PhpString

  const SlashSet: set<char> := {'/'}

  /** PHP's `!$segment` for a string: true exactly for "" and "0". */
  predicate IsFalsy(s: string) {
    s == "" || s == "0"
  }

  /** The piece split off a path and what is left of the path. */
  datatype Split = Split(segment: string, rest: string)

  /** extractFirstSegment: split at the first '/'; without one the whole path is the
      segment and the path becomes empty. */
  function ExtractFirstSegment(path: string): (r: Split)
    ensures '/' in path ==> '/' !in r.segment && r.segment + "/" + r.rest == path
    ensures '/' !in path ==> r.segment == path && r.rest == ""
    ensures path != "" ==> |r.rest| < |path|
  {
    match FirstIndexOf(path, '/')
    case Some(p) =>
      assert path == path[..p] + "/" + path[p + 1..];
      Split(path[..p], path[p + 1..])
    case None => Split(path, "")
  }

  /** extractLastSegment: split at the last '/'; without one the whole path is the
      segment and the path becomes empty. */
  function ExtractLastSegment(path: string): (r: Split)
    ensures '/' in path ==> '/' !in r.segment && r.rest + "/" + r.segment == path
    ensures '/' !in path ==> r.segment == path && r.rest == ""
  {
    match LastIndexOf(path, '/')
    case Some(p) =>
      assert path == path[..p] + "/" + path[p + 1..];
      Split(path[p + 1..], path[..p])
    case None => Split(path, "")
  }

  /** prependSegment: a falsy segment leaves the path alone; an empty path becomes the
      segment; otherwise the segment, one '/', and the path without its leading '/'s. */
  function PrependSegment(path: string, segment: string): (r: string)
    ensures IsFalsy(segment) ==> r == path
    ensures !IsFalsy(segment) && path == "" ==> r == segment
    ensures !IsFalsy(segment) && path != "" ==>
              |r| > |segment| && r[..|segment|] == segment && r[|segment|] == '/'
              && r[|segment| + 1..] == LTrim(path, SlashSet)
  {
    if IsFalsy(segment) then path
    else if path == "" then segment
    else
      JoinAt(segment, '/', LTrim(path, SlashSet));
      segment + "/" + LTrim(path, SlashSet)
  }

  /** appendSegment: a falsy segment leaves the path alone; an empty path becomes the
      segment; otherwise exactly one '/' is added between path and segment. */
  function AppendSegment(path: string, segment: string): (r: string)
    ensures IsFalsy(segment) ==> r == path
    ensures !IsFalsy(segment) && path == "" ==> r == segment
    ensures !IsFalsy(segment) && path != "" ==>
              |r| == |path| + 1 + |segment| && r[..|path|] == path && r[|path|] == '/'
              && r[|path| + 1..] == segment
  {
    if IsFalsy(segment) then path
    else if path == "" then segment
    else
      JoinAt(path, '/', segment);
      path + "/" + segment
  }

  /** removeLastSegmentFromMethodName: splits at the FIRST '_'; the segment is what
      follows it and the rest is what precedes it; without '_' the whole name is the
      segment and the rest is empty. */
  function RemoveLastSegmentFromMethodName(name: string): (r: Split)
    ensures '_' in name ==> '_' !in r.rest && r.rest + "_" + r.segment == name
    ensures '_' !in name ==> r.segment == name && r.rest == ""
  {
    match FirstIndexOf(name, '_')
    case Some(p) =>
      assert name == name[..p] + "_" + name[p + 1..];
      Split(name[p + 1..], name[..p])
    case None => Split(name, "")
  }

  /** Restoring a segment split off by extractFirstSegment gives the original path back,
      provided the segment is not falsy and the split did not leave a lone trailing '/'
      or a run of '/' behind it. This is the restore step of both tries' match. */
  lemma ExtractThenPrepend(path: string)
    requires !IsFalsy(ExtractFirstSegment(path).segment)
    requires var rest := ExtractFirstSegment(path).rest;
             '/' in path ==> rest != "" && rest[0] != '/'
    ensures var sp := ExtractFirstSegment(path); PrependSegment(sp.rest, sp.segment) == path
  {
    var sp := ExtractFirstSegment(path);
    if '/' in path {
      LTrimNoop(sp.rest, SlashSet);
    }
  }

  /** The restore step silently drops a segment "0": the leftover path loses it. */
  lemma PrependDropsZero(path: string)
    ensures PrependSegment(path, "0") == path
  {
  }

  /** The segments of a path, as the tries consume them with extractFirstSegment. */
  function Segments(path: string): (r: seq<string>)
    ensures path == "" <==> r == []
    ensures forall i :: 0 <= i < |r| ==> '/' !in r[i]
    decreases |path|
  {
    if path == "" then []
    else
      var sp := ExtractFirstSegment(path);
      [sp.segment] + Segments(sp.rest)
  }

  /** A path is clean when it is a '/'-join of non-empty segments: no leading, trailing
      or doubled '/'. */
  predicate IsClean(path: string) {
    path == "" || forall i :: 0 <= i < |Explode('/', path)| ==> Explode('/', path)[i] != ""
  }

  /** On a clean path the segments are exactly the pieces of explode. */
  lemma {:induction false} SegmentsOfClean(path: string)
    requires path != "" && IsClean(path)
    ensures Segments(path) == Explode('/', path)
    decreases |path|
  {
    var sp := ExtractFirstSegment(path);
    match FirstIndexOf(path, '/')
    case None =>
    case Some(p) =>
      var tail := Explode('/', path[p + 1..]);
      assert Explode('/', path) == [path[..p]] + tail;
      assert forall i :: 0 <= i < |tail| ==> tail[i] == Explode('/', path)[i + 1];
      assert sp.rest == path[p + 1..];
      assert tail[0] != "";
      assert sp.rest != "";
      SegmentsOfClean(sp.rest);
  }

  /** On a clean path the first segment is not empty, what is left is clean, and
      something is left exactly when the path has a '/'. */
  lemma CleanSplit(path: string)
    requires path != "" && IsClean(path)
    ensures var sp := ExtractFirstSegment(path);
            sp.segment != "" && IsClean(sp.rest) && ('/' in path <==> sp.rest != "")
            && Segments(path) == [sp.segment] + Segments(sp.rest)
  {
    match FirstIndexOf(path, '/')
    case None =>
    case Some(p) =>
      CleanSplitAt(path, p);
  }

  /** CleanSplit at the first '/' of the path, at index `p`. */
  lemma CleanSplitAt(path: string, p: nat)
    requires IsClean(path) && FirstIndexOf(path, '/') == Some(p)
    ensures path[..p] != "" && path[p + 1..] != "" && IsClean(path[p + 1..])
  {
    var rest := path[p + 1..];
    ExplodeAt('/', path, p);
    NonEmptyParts(Explode('/', path), path[..p], Explode('/', rest));
    assert Explode('/', rest)[0] != "" && Explode('/', "")[0] == "";
  }

  /** The parts after the first of a list of non-empty parts are non-empty. */
  lemma NonEmptyParts(parts: seq<string>, head: string, tail: seq<string>)
    requires parts == [head] + tail && forall i :: 0 <= i < |parts| ==> parts[i] != ""
    ensures head != "" && forall i :: 0 <= i < |tail| ==> tail[i] != ""
  {
    assert parts[0] == head;
    assert forall i :: 0 <= i < |tail| ==> tail[i] == parts[i + 1];
  }

  /** Clean paths with the same segments are the same path. */
  lemma {:induction false} SegmentsInjective(p: string, q: string)
    requires IsClean(p) && IsClean(q) && Segments(p) == Segments(q)
    ensures p == q
    decreases |p|
  {
    if p != "" {
      var sp, sq := ExtractFirstSegment(p), ExtractFirstSegment(q);
      CleanSplit(p);
      CleanSplit(q);
      assert Segments(p) == [sp.segment] + Segments(sp.rest);
      assert Segments(q) == [sq.segment] + Segments(sq.rest);
      assert q != "";
      assert Segments(p)[0] == sp.segment && Segments(q)[0] == sq.segment;
      assert Segments(p)[1..] == Segments(sp.rest) && Segments(q)[1..] == Segments(sq.rest);
      SegmentsInjective(sp.rest, sq.rest);
    }
  }

  /** A segment without '/' followed by '/' splits off exactly that segment. */
  lemma ExtractJoined(segment: string, rest: string)
    requires '/' !in segment
    ensures ExtractFirstSegment(segment + "/" + rest) == Split(segment, rest)
  {
    var path := segment + "/" + rest;
    assert path[..|segment|] == segment && path[|segment| + 1..] == rest;
    FirstIndexAt(path, '/', |segment|);
  }

  /** A one-character segment followed by '/' splits off exactly that character. */
  lemma ExtractShortSegment(c: char, rest: string)
    requires c != '/'
    ensures ExtractFirstSegment([c, '/'] + rest) == Split([c], rest)
  {
    assert FirstIndexOf([c, '/'] + rest, '/') == Some(1);
  }

  /** A one-character path other than '/' is its own segment. */
  lemma ExtractLastShortSegment(c: char)
    requires c != '/'
    ensures ExtractFirstSegment([c]) == Split([c], "")
  {
  }
}
