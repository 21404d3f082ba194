/** The Python string operations the formatters rely on, on `seq<char>`:
    `str.find`, `str.split`, `str.join`, `s[:n]`, `str.replace` of one
    character by another and `c * n`. */
module Strings {
  import opened Wrappers

  /** `sep` occurs in `s` starting at index `k`. */
  predicate OccursAt(s: string, sep: string, k: nat) {
    k + |sep| <= |s| && s[k..k + |sep|] == sep
  }

  /** `t` is a suffix of `s`. */
  predicate EndsWith(s: string, t: string) {
    |t| <= |s| && s[|s| - |t|..] == t
  }

  /** Regrouping a concatenation of three texts. */
  lemma ConcatAssoc(a: string, b: string, c: string)
    ensures a + b + c == a + (b + c)
  {
  }

  /** Text put in front keeps a suffix a suffix. */
  lemma EndsWithPrepend(a: string, b: string, t: string)
    requires EndsWith(b, t)
    ensures EndsWith(a + b, t)
  {
    assert (a + b)[|a + b| - |t|..] == b[|b| - |t|..];
  }

  /** Shifting the text by one character shifts every occurrence by one. */
  lemma OccursShift(s: string, sep: string)
    requires |s| > 0
    ensures forall j: nat :: 0 < j ==> OccursAt(s, sep, j) == OccursAt(s[1..], sep, j - 1)
  {
    forall j: nat | 0 < j
      ensures OccursAt(s, sep, j) == OccursAt(s[1..], sep, j - 1)
    {
      if j + |sep| <= |s| {
        var x, y := s[j..j + |sep|], s[1..][j - 1..j - 1 + |sep|];
        assert forall i :: 0 <= i < |x| ==> x[i] == y[i];
        assert x == y;
      }
    }
  }

  /** Leftmost occurrence of `sep` in `s`, as Python's `str.find` (None for -1). */
  function FindFirst(s: string, sep: string): (r: Option<nat>)
    ensures r.Some? ==> OccursAt(s, sep, r.value)
    ensures r.Some? ==> forall j: nat :: j < r.value ==> !OccursAt(s, sep, j)
    ensures r.None? ==> forall j: nat :: !OccursAt(s, sep, j)
    decreases |s|
  {
    if |s| < |sep| then None
    else if s[..|sep|] == sep then Some(0)
    else
      assert s[..|sep|] == s[0..|sep|];
      OccursShift(s, sep);
      match FindFirst(s[1..], sep)
      case None => None
      case Some(k) => Some(k + 1)
  }

  /** Python's `s.split(sep)` for a non-empty `sep`: cut at the leftmost
      occurrence, then go on after it, so occurrences never overlap. */
  function Split(s: string, sep: string): (r: seq<string>)
    requires |sep| > 0
    ensures |r| >= 1
    decreases |s|
  {
    match FindFirst(s, sep)
    case None => [s]
    case Some(k) => [s[..k]] + Split(s[k + |sep|..], sep)
  }

  /** Python's `sep.join(parts)`. */
  function Join(parts: seq<string>, sep: string): string
    decreases |parts|
  {
    if |parts| == 0 then ""
    else if |parts| == 1 then parts[0]
    else parts[0] + sep + Join(parts[1..], sep)
  }

  function Last<T>(xs: seq<T>): T
    requires |xs| > 0
  {
    xs[|xs| - 1]
  }

  /** Joining the pieces of a split with the same separator gives back the text. */
  lemma {:induction false} SplitJoin(s: string, sep: string)
    requires |sep| > 0
    ensures Join(Split(s, sep), sep) == s
    decreases |s|
  {
    var f := FindFirst(s, sep);
    if f.Some? {
      var k := f.value;
      var a, rest := s[..k], s[k + |sep|..];
      SplitJoin(rest, sep);
      var tail := Split(rest, sep);
      assert Split(s, sep) == [a] + tail;
      JoinCons(a, tail, sep);
      assert s[k..k + |sep|] == sep;
      ThreeParts(s, k, k + |sep|);
    }
  }

  /** Joining a non-empty tail after a head puts one separator between them. */
  lemma JoinCons(a: string, tail: seq<string>, sep: string)
    requires |tail| > 0
    ensures Join([a] + tail, sep) == a + sep + Join(tail, sep)
  {
    assert ([a] + tail)[1..] == tail;
  }

  /** No piece of a split contains the separator. */
  lemma {:induction false} SplitPiecesFree(s: string, sep: string)
    requires |sep| > 0
    ensures forall i: nat, j: nat :: i < |Split(s, sep)| ==> !OccursAt(Split(s, sep)[i], sep, j)
    decreases |s|
  {
    match FindFirst(s, sep)
    case None =>
    case Some(k) =>
      var rest := s[k + |sep|..];
      SplitPiecesFree(rest, sep);
      assert Split(s, sep) == [s[..k]] + Split(rest, sep);
      forall j: nat | OccursAt(s[..k], sep, j)
        ensures false
      {
        assert s[..k][j..j + |sep|] == s[j..j + |sep|];
        assert OccursAt(s, sep, j);
      }
  }

  /** The last piece of a split is a suffix of the text: the whole text when
      the separator does not occur, otherwise the text after an occurrence. */
  lemma {:induction false} SplitLastSuffix(s: string, sep: string)
    requires |sep| > 0
    ensures FindFirst(s, sep).None? ==> Last(Split(s, sep)) == s
    ensures FindFirst(s, sep).Some? ==> EndsWith(s, sep + Last(Split(s, sep)))
    decreases |s|
  {
    match FindFirst(s, sep)
    case None =>
    case Some(k) =>
      var rest := s[k + |sep|..];
      SplitLastSuffix(rest, sep);
      var l := Last(Split(rest, sep));
      assert Last(Split(s, sep)) == l by {
        SplitStep(s, sep, k);
        LastCons(s[..k], Split(rest, sep));
      }
      assert s == s[..k] + sep + rest by {
        assert s[k..k + |sep|] == sep;
        ThreeParts(s, k, k + |sep|);
      }
      EndsWithAfter(s[..k], sep, rest, l);
  }

  /** Text after a separator ends with that separator and `l` when it is
      `l` or already ends with the separator and `l`. */
  lemma EndsWithAfter(pre: string, sep: string, rest: string, l: string)
    requires rest == l || EndsWith(rest, sep + l)
    ensures EndsWith(pre + sep + rest, sep + l)
  {
    if rest == l {
      assert (sep + l)[|sep + l| - |sep + l|..] == sep + l;
      EndsWithPrepend(pre, sep + l, sep + l);
      assert pre + sep + rest == pre + (sep + l);
    } else {
      EndsWithPrepend(pre + sep, rest, sep + l);
    }
  }

  /** A text is its three slices at `i` and `j` put back together. */
  lemma ThreeParts(s: string, i: nat, j: nat)
    requires i <= j <= |s|
    ensures s[..i] + s[i..j] + s[j..] == s
  {
    assert s[..j] == s[..i] + s[i..j];
    assert s[..j] + s[j..] == s;
  }

  /** One step of a split: the text before the leftmost occurrence, then the
      split of the rest. */
  lemma SplitStep(s: string, sep: string, k: nat)
    requires |sep| > 0 && FindFirst(s, sep) == Some(k)
    ensures k + |sep| <= |s|
    ensures Split(s, sep) == [s[..k]] + Split(s[k + |sep|..], sep)
  {
    assert k + |sep| <= |s|;
    var rest := s[k + |sep|..];
    var r := Split(s, sep);
    assert r == [s[..k]] + Split(rest, sep);
  }

  lemma LastCons<T>(x: T, xs: seq<T>)
    requires |xs| > 0
    ensures Last([x] + xs) == Last(xs)
  {
  }

  /** Splitting on a one-character separator that does not occur in the first piece. */
  lemma SplitAtFirst(a: string, b: string, c: char)
    requires c !in a
    ensures Split(a + [c] + b, [c]) == [a] + Split(b, [c])
  {
    var s := a + [c] + b;
    assert OccursAt(s, [c], |a|);
    forall j: nat | j < |a|
      ensures !OccursAt(s, [c], j)
    {
      assert s[j..j + 1] == [a[j]];
    }
    var k := FindFirst(s, [c]).value;
    assert k == |a|;
    assert s[..k] == a && s[k + 1..] == b;
  }

  /** Splitting a join on a one-character separator gives back the parts,
      provided no part contains the separator. */
  lemma {:induction false} JoinSplit(parts: seq<string>, c: char)
    requires |parts| > 0
    requires forall i :: 0 <= i < |parts| ==> c !in parts[i]
    ensures Split(Join(parts, [c]), [c]) == parts
    decreases |parts|
  {
    if |parts| == 1 {
      var s := parts[0];
      forall j: nat | j < |s|
        ensures !OccursAt(s, [c], j)
      {
        assert s[j..j + 1] == [s[j]];
      }
    } else {
      JoinSplit(parts[1..], c);
      assert Join(parts, [c]) == parts[0] + [c] + Join(parts[1..], [c]);
      SplitAtFirst(parts[0], Join(parts[1..], [c]), c);
    }
  }

  /** Python's `s[:n]` for `n >= 0`: the first `n` characters, or all of them. */
  function Truncate(s: string, n: nat): (r: string)
    ensures |r| == (if |s| < n then |s| else n)
    ensures r == s[..|r|]
  {
    if |s| <= n then s else s[..n]
  }

  /** Python's `s.replace(from, to)` for one-character `from` and `to`. */
  function ReplaceChar(s: string, from: char, to: char): (r: string)
    ensures |r| == |s|
    ensures forall i :: 0 <= i < |s| ==> r[i] == (if s[i] == from then to else s[i])
    ensures from != to ==> from !in r
    decreases |s|
  {
    if |s| == 0 then ""
    else [if s[0] == from then to else s[0]] + ReplaceChar(s[1..], from, to)
  }

  /** Python's `c * n` for a one-character string `c`. */
  function Repeat(c: char, n: nat): (r: string)
    ensures |r| == n
    ensures forall i :: 0 <= i < n ==> r[i] == c
    decreases n
  {
    if n == 0 then "" else [c] + Repeat(c, n - 1)
  }
}
