/** The PHP string built-ins the router relies on (strpos, strrpos, trim, ltrim,
    str_starts_with, str_contains, strtolower, strtoupper, str_replace on one character,
    explode and implode on one separator, substr_count on one character), on
    `seq<char>` with ASCII case mapping, which is what PHP 8 does for these functions. */
module PhpString {
  import opened Wrappers

  /** strpos($s, $c): the first index of `c`, or none. */
  function FirstIndexOf(s: string, c: char): (r: Option<nat>)
    ensures r.Some? ==> r.value < |s| && s[r.value] == c && forall i :: 0 <= i < r.value ==> s[i] != c
    ensures r.None? <==> c !in s
  {
    if s == [] then None
    else if s[0] == c then Some(0)
    else
      match FirstIndexOf(s[1..], c)
      case None => None
      case Some(i) => Some(i + 1)
  }

  /** The first index is the one with `c` there and nowhere before it. */
  lemma FirstIndexAt(s: string, c: char, p: nat)
    requires p < |s| && s[p] == c && forall i :: 0 <= i < p ==> s[i] != c
    ensures FirstIndexOf(s, c) == Some(p)
  {
  }

  /** strrpos($s, $c): the last index of `c`, or none. */
  function LastIndexOf(s: string, c: char): (r: Option<nat>)
    ensures r.Some? ==> r.value < |s| && s[r.value] == c && forall i :: r.value < i < |s| ==> s[i] != c
    ensures r.None? <==> c !in s
  {
    if s == [] then None
    else if s[|s| - 1] == c then Some(|s| - 1)
    else
      match LastIndexOf(s[..|s| - 1], c)
      case None => None
      case Some(i) => Some(i)
  }

  /** str_starts_with($s, $prefix). */
  predicate StartsWith(s: string, prefix: string) {
    |prefix| <= |s| && s[..|prefix|] == prefix
  }

  /** ltrim($s, $chars). */
  function LTrim(s: string, chars: set<char>): (r: string)
    ensures |r| <= |s| && r == s[|s| - |r|..]
    ensures r == [] || r[0] !in chars
    ensures forall i :: 0 <= i < |s| - |r| ==> s[i] in chars
  {
    if s != [] && s[0] in chars then LTrim(s[1..], chars) else s
  }

  /** ltrim leaves a string alone that does not start with one of the characters. */
  lemma LTrimNoop(s: string, chars: set<char>)
    requires s == [] || s[0] !in chars
    ensures LTrim(s, chars) == s
  {
  }

  /** rtrim($s, $chars). */
  function RTrim(s: string, chars: set<char>): (r: string)
    ensures |r| <= |s| && r == s[..|r|]
    ensures r == [] || r[|r| - 1] !in chars
    ensures forall i :: |r| <= i < |s| ==> s[i] in chars
  {
    if s != [] && s[|s| - 1] in chars then RTrim(s[..|s| - 1], chars) else s
  }

  /** trim($s, $chars): both ends. */
  function Trim(s: string, chars: set<char>): (r: string)
    ensures r == [] || (r[0] !in chars && r[|r| - 1] !in chars)
    ensures |r| <= |s|
  {
    RTrim(LTrim(s, chars), chars)
  }

  /** A string with no character of `chars` at either end is its own trim. */
  lemma TrimOfTrimmed(s: string, chars: set<char>)
    requires s == [] || (s[0] !in chars && s[|s| - 1] !in chars)
    ensures Trim(s, chars) == s
  {
  }

  /** Trimming is idempotent. */
  lemma TrimIdempotent(s: string, chars: set<char>)
    ensures Trim(Trim(s, chars), chars) == Trim(s, chars)
  {
    TrimOfTrimmed(Trim(s, chars), chars);
  }

  /** str_contains($s, $c) for a one-character needle. */
  predicate Contains(s: string, c: char) {
    c in s
  }

  function LowerChar(c: char): char {
    if 'A' <= c <= 'Z' then (c as int + 32) as char else c
  }

  function UpperChar(c: char): char {
    if 'a' <= c <= 'z' then (c as int - 32) as char else c
  }

  /** strtolower (ASCII only, as in PHP 8). */
  function ToLower(s: string): (r: string)
    ensures |r| == |s|
    ensures forall i :: 0 <= i < |s| ==> r[i] == LowerChar(s[i])
  {
    seq(|s|, i requires 0 <= i < |s| => LowerChar(s[i]))
  }

  /** strtoupper (ASCII only, as in PHP 8). */
  function ToUpper(s: string): (r: string)
    ensures |r| == |s|
    ensures forall i :: 0 <= i < |s| ==> r[i] == UpperChar(s[i])
  {
    seq(|s|, i requires 0 <= i < |s| => UpperChar(s[i]))
  }

  /** Lower-casing twice is lower-casing once. */
  lemma ToLowerIdempotent(s: string)
    ensures ToLower(ToLower(s)) == ToLower(s)
  {
  }

  /** Lower-casing maps '/' to '/' and nothing else to '/'. */
  lemma ToLowerKeepsSlashes(s: string)
    ensures forall i :: 0 <= i < |s| ==> (ToLower(s)[i] == '/' <==> s[i] == '/')
  {
  }

  /** str_replace($from, $to, $s) for one-character needle and replacement. */
  function ReplaceChar(s: string, from: char, to: char): (r: string)
    ensures |r| == |s|
    ensures forall i :: 0 <= i < |s| ==> r[i] == (if s[i] == from then to else s[i])
  {
    seq(|s|, i requires 0 <= i < |s| => if s[i] == from then to else s[i])
  }

  /** substr_count($s, $c) for a one-character needle. */
  function CountChar(s: string, c: char): nat {
    if s == [] then 0 else (if s[0] == c then 1 else 0) + CountChar(s[1..], c)
  }

  /** explode($sep, $s): never empty, and no piece contains the separator. */
  function Explode(sep: char, s: string): (r: seq<string>)
    ensures |r| >= 1
    ensures forall i :: 0 <= i < |r| ==> sep !in r[i]
    decreases |s|
  {
    match FirstIndexOf(s, sep)
    case None => [s]
    case Some(p) => [s[..p]] + Explode(sep, s[p + 1..])
  }

  /** implode($sep, $parts). */
  function Implode(sep: char, parts: seq<string>): string {
    if parts == [] then ""
    else if |parts| == 1 then parts[0]
    else parts[0] + [sep] + Implode(sep, parts[1..])
  }

  /** Joining the pieces of an explode gives the original string back. */
  lemma {:induction false} ImplodeExplode(sep: char, s: string)
    ensures Implode(sep, Explode(sep, s)) == s
    decreases |s|
  {
    match FirstIndexOf(s, sep)
    case None =>
    case Some(p) =>
      var rest := Explode(sep, s[p + 1..]);
      assert Explode(sep, s) == [s[..p]] + rest;
      assert ([s[..p]] + rest)[1..] == rest;
      ImplodeExplode(sep, s[p + 1..]);
      calc {
        Implode(sep, Explode(sep, s));
        s[..p] + [sep] + Implode(sep, rest);
        s[..p] + [sep] + s[p + 1..];
        { assert s[p] == sep; }
        s;
      }
  }

  /** Exploding a join of separator-free pieces gives the pieces back. */
  lemma {:induction false} ExplodeImplode(sep: char, parts: seq<string>)
    requires |parts| >= 1
    requires forall i :: 0 <= i < |parts| ==> sep !in parts[i]
    ensures Explode(sep, Implode(sep, parts)) == parts
  {
    if |parts| > 1 {
      var s := Implode(sep, parts);
      var rest := Implode(sep, parts[1..]);
      assert s == parts[0] + [sep] + rest;
      assert s[|parts[0]|] == sep;
      assert s[..|parts[0]|] == parts[0];
      assert FirstIndexOf(s, sep) == Some(|parts[0]|);
      assert s[|parts[0]| + 1..] == rest;
      ExplodeImplode(sep, parts[1..]);
    }
  }
  /** Exploding at the first separator: the piece before it, then the pieces after. */
  lemma ExplodeAt(sep: char, s: string, p: nat)
    requires p < |s| && s[p] == sep && forall i :: 0 <= i < p ==> s[i] != sep
    ensures Explode(sep, s) == [s[..p]] + Explode(sep, s[p + 1..])
  {
    FirstIndexAt(s, sep, p);
  }

  /** Exploding a join at a separator gives the pieces of both sides. */
  lemma {:induction false} ExplodeConcat(sep: char, a: string, b: string)
    ensures Explode(sep, a + [sep] + b) == Explode(sep, a) + Explode(sep, b)
    decreases |a|
  {
    if sep !in a {
      var s := a + [sep] + b;
      assert s[|a|] == sep && s[..|a|] == a && s[|a| + 1..] == b;
      assert forall i :: 0 <= i < |a| ==> s[i] == a[i];
      ExplodeAt(sep, s, |a|);
    } else {
      var p := FirstIndexOf(a, sep).value;
      ExplodeConcat(sep, a[p + 1..], b);
      ExplodeConcatStep(sep, a, b, p);
    }
  }

  /** Cutting a join `a + [sep] + b` at an index inside `a`. */
  lemma JoinSlices(a: string, sep: char, b: string, p: nat)
    requires p < |a|
    ensures var s := a + [sep] + b; s[..p] == a[..p] && s[p + 1..] == a[p + 1..] + [sep] + b
    ensures var s := a + [sep] + b; forall i :: 0 <= i < |a| ==> s[i] == a[i]
  {
  }

  /** The inductive step of ExplodeConcat: a first separator inside `a`. */
  lemma ExplodeConcatStep(sep: char, a: string, b: string, p: nat)
    requires p < |a| && a[p] == sep && forall i :: 0 <= i < p ==> a[i] != sep
    requires Explode(sep, a[p + 1..] + [sep] + b) == Explode(sep, a[p + 1..]) + Explode(sep, b)
    ensures Explode(sep, a + [sep] + b) == Explode(sep, a) + Explode(sep, b)
  {
    JoinSlices(a, sep, b, p);
    ExplodeAt(sep, a + [sep] + b, p);
    ExplodeAt(sep, a, p);
    AppendAssoc([a[..p]], Explode(sep, a[p + 1..]), Explode(sep, b));
  }

  /** The three parts of `x + [m] + y`. */
  lemma JoinAt<T>(x: seq<T>, m: T, y: seq<T>)
    ensures var r := x + [m] + y;
            |r| == |x| + 1 + |y| && r[..|x|] == x && r[|x|] == m && r[|x| + 1..] == y
  {
  }

  /** Concatenation is associative. */
  lemma AppendAssoc<T>(x: seq<T>, y: seq<T>, z: seq<T>)
    ensures x + (y + z) == (x + y) + z
  {
  }

  /** Replacing a character is exploding at it and imploding with the replacement. */
  lemma {:induction false} ReplaceIsImplode(s: string, from: char, to: char)
    ensures ReplaceChar(s, from, to) == Implode(to, Explode(from, s))
    decreases |s|
  {
    if from !in s {
      assert Explode(from, s) == [s];
      assert ReplaceChar(s, from, to) == s;
    } else {
      var p := FirstIndexOf(s, from).value;
      ReplaceIsImplode(s[p + 1..], from, to);
      ReplaceStep(s, from, to, p);
    }
  }

  /** The inductive step of ReplaceIsImplode, at the first occurrence. */
  lemma ReplaceStep(s: string, from: char, to: char, p: nat)
    requires p < |s| && s[p] == from && forall i :: 0 <= i < p ==> s[i] != from
    requires ReplaceChar(s[p + 1..], from, to) == Implode(to, Explode(from, s[p + 1..]))
    ensures ReplaceChar(s, from, to) == Implode(to, Explode(from, s))
  {
    ExplodeAt(from, s, p);
    var tail := Explode(from, s[p + 1..]);
    assert ([s[..p]] + tail)[1..] == tail;
    ReplaceSplit(s, from, to, p);
  }

  /** Replacing around a first occurrence at `p`. */
  lemma ReplaceSplit(s: string, from: char, to: char, p: nat)
    requires p < |s| && s[p] == from && forall i :: 0 <= i < p ==> s[i] != from
    ensures ReplaceChar(s, from, to) == s[..p] + [to] + ReplaceChar(s[p + 1..], from, to)
  {
    var r, t := ReplaceChar(s, from, to), ReplaceChar(s[p + 1..], from, to);
    assert forall k :: 0 <= k < p ==> r[k] == s[..p][k];
    assert forall k :: p < k < |s| ==> r[k] == t[k - p - 1];
  }

  /** A character absent from a string is absent from each of its pieces. */
  lemma {:induction false} ExplodePiecesLack(sep: char, s: string, c: char)
    requires c !in s
    ensures forall i :: 0 <= i < |Explode(sep, s)| ==> c !in Explode(sep, s)[i]
    decreases |s|
  {
    if sep !in s {
      assert Explode(sep, s) == [s];
    } else {
      var p := FirstIndexOf(s, sep).value;
      SlicesLack(s, c, p);
      ExplodePiecesLack(sep, s[p + 1..], c);
      ExplodeLackStep(sep, s, c, p, Explode(sep, s[p + 1..]));
    }
  }

  /** Both sides of a cut lack what the whole lacks. */
  lemma SlicesLack(s: string, c: char, p: nat)
    requires c !in s && p < |s|
    ensures c !in s[..p] && c !in s[p + 1..]
  {
    assert forall k :: 0 <= k < p ==> s[..p][k] == s[k];
    assert forall k :: p + 1 <= k < |s| ==> s[p + 1..][k - p - 1] == s[k];
  }

  /** The inductive step of ExplodePiecesLack, at the first separator. */
  lemma ExplodeLackStep(sep: char, s: string, c: char, p: nat, rest: seq<string>)
    requires p < |s| && s[p] == sep && forall i :: 0 <= i < p ==> s[i] != sep
    requires c !in s[..p]
    requires rest == Explode(sep, s[p + 1..]) && forall i :: 0 <= i < |rest| ==> c !in rest[i]
    ensures forall i :: 0 <= i < |Explode(sep, s)| ==> c !in Explode(sep, s)[i]
  {
    ExplodeAt(sep, s, p);
    ConsLacks(s[..p], rest, c);
  }

  /** A value absent from a sequence and from each of some others is absent from each
      sequence of the list they make. */
  lemma ConsLacks<T>(x: seq<T>, rest: seq<seq<T>>, c: T)
    requires c !in x && forall i :: 0 <= i < |rest| ==> c !in rest[i]
    ensures forall i :: 0 <= i < |[x] + rest| ==> c !in ([x] + rest)[i]
  {
    var all := [x] + rest;
    forall i | 0 <= i < |all|
      ensures c !in all[i]
    {
      if i > 0 {
        assert all[i] == rest[i - 1];
      }
    }
  }
}
