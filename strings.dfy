/** The string operations the sitemap generator is built from: JavaScript's
    one-character `split` and `join`, `startsWith` / `endsWith`, ASCII
    lower-casing, and code-point lexicographic order. */
module Strings {
  import opened Wrappers

  predicate StartsWith(s: string, prefix: string) {
    |prefix| <= |s| && s[..|prefix|] == prefix
  }

  predicate EndsWith(s: string, suffix: string) {
    |suffix| <= |s| && s[|s| - |suffix|..] == suffix
  }

  lemma EndsWithParts(s: string, suffix: string)
    requires EndsWith(s, suffix)
    ensures s == s[..|s| - |suffix|] + suffix
  {
  }

  /** Index of the first `c` in `s` at or after `i`, or `|s|` when there is
      none. */
  function NextSep(s: string, c: char, i: nat): (k: nat)
    requires i <= |s|
    ensures i <= k <= |s|
    ensures k < |s| ==> s[k] == c
    ensures forall l :: i <= l < k ==> s[l] != c
    decreases |s| - i
  {
    if i == |s| || s[i] == c then i else NextSep(s, c, i + 1)
  }

  /** The three properties of NextSep determine it. */
  lemma {:induction false} NextSepUnique(s: string, c: char, i: nat, k: nat)
    requires i <= k <= |s|
    requires k < |s| ==> s[k] == c
    requires forall l :: i <= l < k ==> s[l] != c
    ensures NextSep(s, c, i) == k
  {
  }

  /** Index of the last `c` in `s`, if any. */
  function LastIndex(s: string, c: char): (r: Option<nat>)
    ensures r.None? ==> forall l :: 0 <= l < |s| ==> s[l] != c
    ensures r.Some? ==> r.value < |s| && s[r.value] == c
    ensures r.Some? ==> forall l :: r.value < l < |s| ==> s[l] != c
  {
    if |s| == 0 then None
    else if s[|s| - 1] == c then Some(|s| - 1)
    else
      var r := LastIndex(s[..|s| - 1], c);
      assert forall l :: 0 <= l < |s| - 1 ==> s[..|s| - 1][l] == s[l];
      r
  }

  /** The pieces of `s[i..]` between consecutive separators. */
  function SplitFrom(s: string, c: char, i: nat): (parts: seq<string>)
    requires i <= |s|
    ensures |parts| >= 1
    decreases |s| - i
  {
    var k := NextSep(s, c, i);
    if k == |s| then [s[i..]] else [s[i..k]] + SplitFrom(s, c, k + 1)
  }

  /** JavaScript's `s.split(c)` for a one-character separator: the pieces
      between consecutive separators, in order. */
  function Split(s: string, c: char): (parts: seq<string>)
    ensures |parts| >= 1
  {
    SplitFrom(s, c, 0)
  }

  /** JavaScript's `parts.join(c)`. */
  function Join(parts: seq<string>, c: char): string
  {
    if |parts| == 0 then ""
    else if |parts| == 1 then parts[0]
    else parts[0] + [c] + Join(parts[1..], c)
  }

  /** `s[i..j]` is a whole segment of `s`: it holds no `c` and is bounded on
      each side by a `c` or by an end of `s`. */
  predicate IsSegment(s: string, c: char, i: int, j: int) {
    && 0 <= i <= j <= |s|
    && (i == 0 || s[i - 1] == c)
    && (j == |s| || s[j] == c)
    && forall l :: i <= l < j ==> s[l] != c
  }

  /** Every piece of `s[i..]` is a segment of `s` at or after `i` ... */
  lemma {:induction false} SplitFromPieceIsSegment(s: string, c: char, i: nat, x: string) returns (a: int, b: int)
    requires i <= |s| && (i == 0 || s[i - 1] == c)
    requires x in SplitFrom(s, c, i)
    ensures i <= a && IsSegment(s, c, a, b) && s[a..b] == x
    decreases |s| - i
  {
    var k := NextSep(s, c, i);
    if k == |s| || x == s[i..k] {
      a, b := i, k;
    } else {
      assert x in SplitFrom(s, c, k + 1);
      a, b := SplitFromPieceIsSegment(s, c, k + 1, x);
    }
  }

  /** ... and every segment of `s` that starts at `i` or just after a
      separator beyond `i` is a piece of `s[i..]`. */
  lemma {:induction false} SegmentIsSplitFromPiece(s: string, c: char, i: nat, a: int, b: int)
    requires i <= a && IsSegment(s, c, a, b)
    requires a == i || s[a - 1] == c
    ensures s[a..b] in SplitFrom(s, c, i)
    decreases |s| - i
  {
    var k := NextSep(s, c, i);
    if a == i {
      NextSepUnique(s, c, i, b);
      if b == |s| {
        assert s[a..b] == s[i..];
      }
    } else {
      assert k <= a - 1;
      SegmentIsSplitFromPiece(s, c, k + 1, a, b);
      assert SplitFrom(s, c, i) == [s[i..k]] + SplitFrom(s, c, k + 1);
    }
  }

  /** The pieces `split` returns are exactly the segments of `s`. */
  lemma SplitPieceIsSegment(s: string, c: char, x: string) returns (a: int, b: int)
    requires x in Split(s, c)
    ensures IsSegment(s, c, a, b) && s[a..b] == x
  {
    a, b := SplitFromPieceIsSegment(s, c, 0, x);
  }

  lemma SegmentIsSplitPiece(s: string, c: char, a: int, b: int)
    requires IsSegment(s, c, a, b)
    ensures s[a..b] in Split(s, c)
  {
    SegmentIsSplitFromPiece(s, c, 0, a, b);
  }

  /** No piece of a split holds the separator. */
  lemma SplitPiecesFree(s: string, c: char)
    ensures forall x :: x in Split(s, c) ==> c !in x
  {
    forall x | x in Split(s, c) ensures c !in x {
      var a, b := SplitPieceIsSegment(s, c, x);
      assert forall l :: 0 <= l < |x| ==> x[l] == s[a + l];
    }
  }

  /** `s` with every `c` replaced by `d`. */
  function Replace(s: string, c: char, d: char): string {
    seq(|s|, i requires 0 <= i < |s| => if s[i] == c then d else s[i])
  }

  lemma {:induction false} ReplaceAppend(a: string, b: string, c: char, d: char)
    ensures Replace(a + b, c, d) == Replace(a, c, d) + Replace(b, c, d)
  {
    var l, r := Replace(a + b, c, d), Replace(a, c, d) + Replace(b, c, d);
    assert forall i | 0 <= i < |l| :: l[i] == r[i];
  }

  /** Joining a piece in front of further pieces puts `d` between them. */
  lemma JoinCons(x: string, rest: seq<string>, d: char)
    requires |rest| >= 1
    ensures Join([x] + rest, d) == x + [d] + Join(rest, d)
  {
    assert ([x] + rest)[1..] == rest;
  }

  /** Replacing in `s[i..]`, whose first `c` is at `k`, keeps `s[i..k]`,
      turns that `c` into `d` and replaces in the rest. */
  lemma {:induction false} ReplaceAtSep(s: string, c: char, d: char, i: nat, k: nat)
    requires i <= k < |s| && s[k] == c
    requires forall l :: i <= l < k ==> s[l] != c
    ensures Replace(s[i..], c, d) == s[i..k] + [d] + Replace(s[k + 1..], c, d)
  {
    var l, r := Replace(s[i..], c, d), s[i..k] + [d] + Replace(s[k + 1..], c, d);
    assert |l| == |r|;
    forall m | 0 <= m < |l| ensures l[m] == r[m] {
      if m < k - i {
        assert r[m] == s[i + m];
      } else if m > k - i {
        assert r[m] == Replace(s[k + 1..], c, d)[m - (k - i) - 1];
      }
    }
  }

  /** Joining the pieces of `s[i..]` with `d` replaces every `c` by `d`. */
  lemma {:induction false} SplitFromJoinReplaces(s: string, c: char, i: nat, d: char)
    requires i <= |s|
    ensures Join(SplitFrom(s, c, i), d) == Replace(s[i..], c, d)
    decreases |s| - i
  {
    var k := NextSep(s, c, i);
    if k == |s| {
      var r := Replace(s[i..], c, d);
      assert forall l :: 0 <= l < |r| ==> r[l] == s[i..][l];
    } else {
      SplitFromJoinReplaces(s, c, k + 1, d);
      JoinCons(s[i..k], SplitFrom(s, c, k + 1), d);
      ReplaceAtSep(s, c, d, i, k);
    }
  }

  /** `s.split(c).join(d)` replaces every `c` in `s` by `d` and changes
      nothing else. */
  lemma SplitJoinReplaces(s: string, c: char, d: char)
    ensures Join(Split(s, c), d) == Replace(s, c, d)
  {
    SplitFromJoinReplaces(s, c, 0, d);
    assert s[0..] == s;
  }

  /** Splitting and re-joining on the same separator gives back the input. */
  lemma SplitJoin(s: string, c: char)
    ensures Join(Split(s, c), c) == s
  {
    SplitJoinReplaces(s, c, c);
    assert Replace(s, c, c) == s;
  }

  /** The next separator after a prefix is the next one in what follows
      it, shifted by the prefix's length. */
  lemma {:induction false} NextSepShift(a: string, b: string, c: char, i: nat)
    requires i <= |b|
    ensures NextSep(a + b, c, |a| + i) == |a| + NextSep(b, c, i)
    decreases |b| - i
  {
    if i < |b| {
      assert (a + b)[|a| + i] == b[i];
      if b[i] != c {
        NextSepShift(a, b, c, i + 1);
      }
    }
  }

  /** Splitting after a prefix is splitting what follows it. */
  lemma {:induction false} SplitFromShift(a: string, b: string, c: char, i: nat)
    requires i <= |b|
    ensures SplitFrom(a + b, c, |a| + i) == SplitFrom(b, c, i)
    decreases |b| - i
  {
    var s := a + b;
    var k := NextSep(b, c, i);
    NextSepShift(a, b, c, i);
    if k < |b| {
      assert s[|a| + i..|a| + k] == b[i..k];
      SplitFromShift(a, b, c, k + 1);
    } else {
      assert s[|a| + i..] == b[i..];
    }
  }

  /** Joining pieces that hold no separator and splitting again gives back
      the pieces. */
  lemma {:induction false} JoinSplit(parts: seq<string>, c: char)
    requires |parts| >= 1
    requires forall i :: 0 <= i < |parts| ==> c !in parts[i]
    ensures Split(Join(parts, c), c) == parts
    decreases |parts|
  {
    var p := parts[0];
    if |parts| == 1 {
      NextSepUnique(p, c, 0, |p|);
      assert p[0..] == p;
    } else {
      var tail := Join(parts[1..], c);
      JoinSplit(parts[1..], c);
      var s := (p + [c]) + tail;
      assert Join(parts, c) == s;
      NextSepUnique(s, c, 0, |p|);
      assert s[0..|p|] == p;
      SplitFromShift(p + [c], tail, c, 0);
      assert SplitFrom(s, c, |p| + 1) == Split(tail, c);
    }
  }

  /** The piece before the first separator: JavaScript's `s.split(c)[0]`. */
  lemma SplitHead(s: string, c: char)
    ensures Split(s, c)[0] == s[..NextSep(s, c, 0)]
  {
  }

  /** `split(c)[0]` ignores what follows the first separator: one in `a`, or
      one at the head of `b`. */
  lemma SplitHeadExtend(a: string, b: string, c: char)
    requires c in a || (|b| > 0 && b[0] == c)
    ensures Split(a + b, c)[0] == Split(a, c)[0]
  {
    var k := NextSep(a, c, 0);
    if c in a {
      assert k < |a|;
    }
    NextSepUnique(a + b, c, 0, k);
    assert (a + b)[..k] == a[..k];
  }

  /** `split(c)[0]` of `a + b` when `a` holds no `c` runs on into `b`. */
  lemma SplitHeadPrefix(a: string, b: string, c: char)
    requires c !in a
    ensures Split(a + b, c)[0] == a + Split(b, c)[0]
  {
    var k := NextSep(b, c, 0);
    forall l | 0 <= l < |a| + k ensures (a + b)[l] != c {
      if l >= |a| {
        assert (a + b)[l] == b[l - |a|];
      }
    }
    NextSepUnique(a + b, c, 0, |a| + k);
    assert (a + b)[..|a| + k] == a + b[..k];
  }

  /** `split(c)[0]` holds no `c` and is a prefix of `s`. */
  lemma SplitHeadFree(s: string, c: char)
    ensures c !in Split(s, c)[0]
    ensures StartsWith(s, Split(s, c)[0])
  {
    var k := NextSep(s, c, 0);
    assert Split(s, c)[0] == s[..k];
    assert forall l :: 0 <= l < k ==> s[..k][l] == s[l];
  }

  function LowerChar(ch: char): char {
    if 'A' <= ch <= 'Z' then (ch as int + 32) as char else ch
  }

  /** `toLowerCase`, on the ASCII letters. */
  function ToLower(s: string): string {
    seq(|s|, i requires 0 <= i < |s| => LowerChar(s[i]))
  }

  /** Code-point lexicographic order: `a` sorts strictly before `b`. */
  predicate LexLess(a: string, b: string) {
    |b| > 0 && (|a| == 0 || a[0] < b[0] || (a[0] == b[0] && LexLess(a[1..], b[1..])))
  }

  lemma {:induction false} LexIrreflexive(a: string)
    ensures !LexLess(a, a)
    decreases |a|
  {
    if |a| > 0 {
      LexIrreflexive(a[1..]);
    }
  }

  lemma {:induction false} LexTransitive(a: string, b: string, c: string)
    requires LexLess(a, b) && LexLess(b, c)
    ensures LexLess(a, c)
    decreases |a|
  {
    if |a| > 0 && a[0] == b[0] && b[0] == c[0] {
      LexTransitive(a[1..], b[1..], c[1..]);
    }
  }

  /** Two different strings are always ordered one way or the other. */
  lemma {:induction false} LexTotal(a: string, b: string)
    requires a != b
    ensures LexLess(a, b) || LexLess(b, a)
    decreases |a|
  {
    if |a| > 0 && |b| > 0 && a[0] == b[0] {
      assert a == [a[0]] + a[1..] && b == [b[0]] + b[1..];
      LexTotal(a[1..], b[1..]);
    }
  }

  lemma {:induction false} LexAsymmetric(a: string, b: string)
    requires LexLess(a, b)
    ensures !LexLess(b, a)
  {
    if LexLess(b, a) {
      LexTransitive(a, b, a);
      LexIrreflexive(a);
    }
  }
}
