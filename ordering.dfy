/** The order of the sitemap: higher priority first, and among equal
    priorities by location. */
module Ordering {
  import opened Wrappers
  import opened Strings
  import opened Heuristics
  import opened Entries
  import opened Dedup

  /** The entry's priority is a plain decimal, so `parseFloat` reads it
      exactly. */
  predicate HasKey(e: Entry) {
    ParseDecimal(e.priority).Some?
  }

  predicate AllKeyed(s: seq<Entry>) {
    forall i :: 0 <= i < |s| ==> HasKey(s[i])
  }

  /** `parseFloat(priority)` for a priority that has a key; 0 otherwise. */
  function Key(e: Entry): (k: real)
    ensures HasKey(e) ==> ParseDecimal(e.priority) == Some(k)
  {
    ParseDecimal(e.priority).GetOr(0.0)
  }

  /** A priority `w.f` of digits, such as an override's `"0.95"`, sorts by
      the number it denotes. */
  lemma {:induction false} KeyValue(e: Entry, w: string, f: string)
    requires AllDigits(w) && AllDigits(f) && |w| + |f| > 0 && e.priority == w + "." + f
    ensures HasKey(e)
    ensures Key(e) == DigitsValue(w) as real + DigitsValue(f) as real / Pow10(|f|) as real
  {
    ParseDecimalValue(w, f);
  }

  /** A default priority sorts by the value `Heuristics.HeuristicPriority`
      gives it: 1.0 for the home page and less for every other page. */
  lemma {:induction false} KeyOfDefault(e: Entry, url: string) returns (v: real)
    requires e.priority == HeuristicsForUrl(url).priority
    ensures Key(e) == v && 0.5 <= v <= 1.0
    ensures v == 1.0 <==> url == "/" || url == ""
  {
    v := HeuristicPriority(url);
  }

  /** The sort comparator: `pb - pa` when the priorities differ, otherwise
      the order of the locations (-1, 0 or 1). */
  function Compare(a: Entry, b: Entry): real
  {
    if Key(a) != Key(b) then Key(b) - Key(a)
    else if LexLess(a.loc, b.loc) then -1.0
    else if a.loc == b.loc then 0.0
    else 1.0
  }

  /** `a` goes strictly before `b`. */
  predicate Before(a: Entry, b: Entry)
  {
    Key(a) > Key(b) || (Key(a) == Key(b) && LexLess(a.loc, b.loc))
  }

  /** The comparator is negative exactly when `a` goes before `b`, zero
      exactly when both have the same priority and location. */
  lemma {:induction false} CompareSign(a: Entry, b: Entry)
    ensures Compare(a, b) < 0.0 <==> Before(a, b)
    ensures Compare(a, b) == 0.0 <==> Key(a) == Key(b) && a.loc == b.loc
    ensures Compare(a, b) > 0.0 <==> Before(b, a)
  {
    if Key(a) == Key(b) {
      if a.loc != b.loc {
        LexTotal(a.loc, b.loc);
      }
      if LexLess(a.loc, b.loc) {
        LexAsymmetric(a.loc, b.loc);
        LexIrreflexive(a.loc);
      }
      if LexLess(b.loc, a.loc) {
        LexAsymmetric(b.loc, a.loc);
        LexIrreflexive(a.loc);
      }
    }
  }

  lemma {:induction false} BeforeAsymmetric(a: Entry, b: Entry)
    requires Before(a, b)
    ensures !Before(b, a)
  {
    if Key(a) == Key(b) {
      LexAsymmetric(a.loc, b.loc);
    }
  }

  /** "Not after" is transitive. */
  lemma {:induction false} NotBeforeTransitive(a: Entry, b: Entry, c: Entry)
    requires !Before(b, a) && !Before(c, b)
    ensures !Before(c, a)
  {
    if Key(a) == Key(b) == Key(c) && LexLess(c.loc, a.loc) {
      if a.loc != b.loc {
        LexTotal(a.loc, b.loc);
        LexTransitive(c.loc, a.loc, b.loc);
        if b.loc == c.loc {
          LexIrreflexive(b.loc);
        } else {
          LexTotal(b.loc, c.loc);
          LexAsymmetric(c.loc, b.loc);
        }
      } else if b.loc != c.loc {
        LexTotal(b.loc, c.loc);
      }
    }
  }

  /** The entries at `k - 1` and `k` are in order. */
  predicate InOrderAt(s: seq<Entry>, k: nat)
    requires 0 < k < |s|
  {
    !Before(s[k], s[k - 1])
  }

  /** No entry of `s` goes strictly before its predecessor. */
  predicate Sorted(s: seq<Entry>)
  {
    forall k :: 0 < k < |s| ==> InOrderAt(s, k)
  }

  /** No entry of `s` goes strictly before an earlier one. */
  predicate SortedPairwise(s: seq<Entry>)
  {
    forall i, j :: 0 <= i < j < |s| ==> !Before(s[j], s[i])
  }

  lemma {:induction false} SortedIsPairwise(s: seq<Entry>)
    requires Sorted(s)
    ensures SortedPairwise(s)
  {
    forall i, j | 0 <= i < j < |s| ensures !Before(s[j], s[i]) {
      SortedFrom(s, i, j);
    }
  }

  lemma {:induction false} SortedFrom(s: seq<Entry>, i: nat, j: nat)
    requires Sorted(s) && i < j < |s|
    ensures !Before(s[j], s[i])
    decreases j - i
  {
    if i + 1 == j {
      assert InOrderAt(s, i + 1);
    } else {
      SortedFrom(s, i, j - 1);
      assert InOrderAt(s, j);
      NotBeforeTransitive(s[i], s[j - 1], s[j]);
    }
  }

  /** Two entries neither of which goes before the other, with distinct
      locations, do not exist. */
  lemma {:induction false} NotBeforeAntisymmetric(a: Entry, b: Entry)
    requires !Before(a, b) && !Before(b, a)
    ensures a.loc == b.loc
  {
    if a.loc != b.loc {
      LexTotal(a.loc, b.loc);
    }
  }

  /** The first entry of a sorted sequence goes after none of the others. */
  lemma {:induction false} SortedHeadFirst(s: seq<Entry>, y: Entry)
    requires SortedPairwise(s) && y in s
    ensures !Before(y, s[0])
  {
    var i :| 0 <= i < |s| && s[i] == y;
    if i > 0 {
      assert !Before(s[i], s[0]);
    } else {
      LexIrreflexive(y.loc);
    }
  }

  /** Among entries with distinct locations, the location picks the entry. */
  lemma {:induction false} LocDetermines(s: seq<Entry>, x: Entry, y: Entry)
    requires DistinctLocs(s) && x in s && y in s && x.loc == y.loc
    ensures x == y
  {
    var i :| 0 <= i < |s| && s[i] == x;
    var j :| 0 <= j < |s| && s[j] == y;
    assert i == j;
  }

  lemma {:induction false} TailKeeps(s: seq<Entry>)
    requires |s| > 0 && SortedPairwise(s) && DistinctLocs(s)
    ensures SortedPairwise(s[1..]) && DistinctLocs(s[1..])
    ensures multiset(s[1..]) == multiset(s) - multiset{s[0]}
  {
    var t := s[1..];
    assert forall a :: 0 <= a < |t| ==> t[a] == s[a + 1];
    HeadTail(s);
  }

  /** With distinct locations, there is only one sorted arrangement of a
      collection of entries: the sitemap's order does not depend on the
      sorting algorithm. */
  lemma {:induction false} SortedUnique(s: seq<Entry>, t: seq<Entry>)
    requires SortedPairwise(s) && SortedPairwise(t)
    requires DistinctLocs(s) && DistinctLocs(t) && multiset(s) == multiset(t)
    ensures s == t
    decreases |s|
  {
    SameMultisetLength(s, t);
    if |s| > 0 {
      var x, y := s[0], t[0];
      assert y in multiset(s) && x in multiset(t);
      SortedHeadFirst(s, y);
      SortedHeadFirst(t, x);
      NotBeforeAntisymmetric(x, y);
      LocDetermines(s, x, y);
      TailKeeps(s);
      TailKeeps(t);
      SortedUnique(s[1..], t[1..]);
      HeadTail(s);
      HeadTail(t);
    }
  }

  /** Entries at the same location carry the same change frequency and
      priority. */
  predicate SameListing(a: Entry, b: Entry) {
    a.loc == b.loc ==> a.changefreq == b.changefreq && a.priority == b.priority
  }

  /** Two sorted lists of entries with distinct locations, the same set of
      locations and the same priority at each location list the locations
      in the same order, whatever else their entries hold. */
  lemma {:induction false} SortedByLocation(s: seq<Entry>, t: seq<Entry>)
    requires SortedPairwise(s) && SortedPairwise(t)
    requires DistinctLocs(s) && DistinctLocs(t) && Locs(s) == Locs(t)
    requires forall i, j :: 0 <= i < |s| && 0 <= j < |t| ==> SameListing(s[i], t[j])
    ensures |s| == |t|
    ensures forall i :: 0 <= i < |s| ==>
              s[i].loc == t[i].loc && s[i].changefreq == t[i].changefreq && s[i].priority == t[i].priority
    decreases |s|
  {
    if |s| > 0 {
      assert s[0].loc in Locs(s);
    }
    if |t| > 0 {
      assert t[0].loc in Locs(t);
    }
    if |s| > 0 {
      var x, y := s[0], t[0];
      var j := LocIndex(s, y.loc);
      var k := LocIndex(t, x.loc);
      assert SameListing(s[j], y) && SameListing(x, t[k]);
      if x.loc != y.loc {
        assert !Before(s[j], s[0]) && !Before(t[k], t[0]);
        NotBeforeAntisymmetric(x, y);
      }
      assert SameListing(x, y);
      TailKeeps(s);
      TailKeeps(t);
      LocsTail(s);
      LocsTail(t);
      var s', t' := s[1..], t[1..];
      forall i, j | 0 <= i < |s'| && 0 <= j < |t'| ensures SameListing(s'[i], t'[j]) {
        assert SameListing(s[i + 1], t[j + 1]);
      }
      SortedByLocation(s', t');
      forall i | 0 < i < |s| ensures s[i] == s'[i - 1] && t[i] == t'[i - 1] {
      }
    }
  }

  /** The index of the entry of `s` at location `loc`. */
  lemma LocIndex(s: seq<Entry>, loc: string) returns (i: nat)
    requires loc in Locs(s)
    ensures i < |s| && s[i].loc == loc
  {
    var e :| e in s && e.loc == loc;
    i :| i < |s| && s[i] == e;
  }

  /** The first `n` entries of `s` are in order. */
  predicate SortedPrefix(s: seq<Entry>, n: nat)
    requires n <= |s|
  {
    forall k :: 0 < k < n ==> InOrderAt(s, k)
  }

  /** While `s[i]` moves down to its place, now at `j`: the first `i + 1`
      entries are in order except at `j`, and its neighbours are in order
      with each other. */
  predicate Inserting(s: seq<Entry>, i: nat, j: nat)
    requires j <= i < |s|
  {
    && (forall k :: 0 < k <= i && k != j ==> InOrderAt(s, k))
    && (0 < j < i ==> !Before(s[j + 1], s[j - 1]))
  }

  /** `s` with the entries at `j - 1` and `j` exchanged. */
  function Swapped(s: seq<Entry>, j: nat): (r: seq<Entry>)
    requires 0 < j < |s|
    ensures |r| == |s| && multiset(r) == multiset(s)
  {
    s[j - 1 := s[j]][j := s[j - 1]]
  }

  /** A swap at or below `i` leaves the entries after `i` alone. */
  lemma {:induction false} SwappedTail(s: seq<Entry>, j: nat, i: nat)
    requires 0 < j <= i < |s|
    ensures Swapped(s, j)[i + 1..] == s[i + 1..]
  {
    var rt, st := Swapped(s, j)[i + 1..], s[i + 1..];
    assert forall k :: 0 <= k < |st| ==> rt[k] == st[k];
  }

  /** With the tail unchanged and the whole a permutation, the first
      `n` entries are a permutation of the old first `n`. */
  lemma {:induction false} PrefixPermutation(s: seq<Entry>, t: seq<Entry>, n: nat)
    requires n <= |s| == |t| && multiset(s) == multiset(t) && s[n..] == t[n..]
    ensures multiset(s[..n]) == multiset(t[..n])
  {
    assert s == s[..n] + s[n..] && t == t[..n] + t[n..];
    assert multiset(s) == multiset(s[..n]) + multiset(s[n..]);
    assert multiset(t) == multiset(t[..n]) + multiset(t[n..]);
    assert multiset(s[..n]) == multiset(s) - multiset(s[n..]);
    assert multiset(t[..n]) == multiset(t) - multiset(t[n..]);
  }

  lemma {:induction false} InsertStart(s: seq<Entry>, i: nat)
    requires i < |s| && SortedPrefix(s, i)
    ensures Inserting(s, i, i)
  {
  }

  /** Swapping an entry past one it goes before keeps the insertion
      invariant one place further down. */
  lemma {:induction false} InsertSwap(s: seq<Entry>, i: nat, j: nat)
    requires 0 < j <= i < |s| && Inserting(s, i, j) && Before(s[j], s[j - 1])
    ensures Inserting(Swapped(s, j), i, j - 1)
  {
    var r := Swapped(s, j);
    BeforeAsymmetric(s[j], s[j - 1]);
    forall k | 0 < k <= i && k != j - 1 ensures InOrderAt(r, k) {
      if k == j {
        assert r[k] == s[j - 1] && r[k - 1] == s[j];
      } else if k == j + 1 {
        assert r[k] == s[k] && r[k - 1] == s[j - 1];
      } else {
        assert InOrderAt(s, k);
        assert r[k] == s[k] && r[k - 1] == s[k - 1];
      }
    }
    if 0 < j - 1 {
      assert InOrderAt(s, j - 1);
      assert r[j] == s[j - 1] && r[j - 2] == s[j - 2];
    }
  }

  lemma {:induction false} InsertDone(s: seq<Entry>, i: nat, j: nat)
    requires j <= i < |s| && Inserting(s, i, j)
    requires j == 0 || !Before(s[j], s[j - 1])
    ensures SortedPrefix(s, i + 1)
  {
  }

  /** One step of the sort: exchanges `a[j - 1]` and `a[j]` in place. */
  method SwapDown(a: array<Entry>, j: nat)
    requires 0 < j < a.Length
    modifies a
    ensures a[..] == Swapped(old(a[..]), j)
  {
    a[j - 1], a[j] := a[j], a[j - 1];
  }

  /** Moves `a[i]` down past every entry it goes before, so that the first
      `i + 1` entries are in order. */
  method InsertDown(a: array<Entry>, i: nat)
    requires i < a.Length && SortedPrefix(a[..], i)
    modifies a
    ensures SortedPrefix(a[..], i + 1)
    ensures multiset(a[..]) == multiset(old(a[..]))
    ensures multiset(a[..i + 1]) == multiset(old(a[..i + 1]))
    ensures a[i + 1..] == old(a[i + 1..])
  {
    InsertStart(a[..], i);
    var j := i;
    while j > 0 && Before(a[j], a[j - 1])
      invariant 0 <= j <= i
      invariant Inserting(a[..], i, j)
      invariant multiset(a[..]) == multiset(old(a[..]))
      invariant a[i + 1..] == old(a[i + 1..])
    {
      InsertSwap(a[..], i, j);
      SwappedTail(a[..], j, i);
      SwapDown(a, j);
      j := j - 1;
    }
    InsertDone(a[..], i, j);
    PrefixPermutation(a[..], old(a[..]), i + 1);
  }

  /** The sort: insertion by adjacent swaps, each swap moving an entry
      ahead of one that it goes before. */
  method SortEntries(a: array<Entry>)
    modifies a
    ensures Sorted(a[..])
    ensures multiset(a[..]) == multiset(old(a[..]))
  {
    var i := 0;
    while i < a.Length
      invariant 0 <= i <= a.Length
      invariant SortedPrefix(a[..], i)
      invariant multiset(a[..]) == multiset(old(a[..]))
    {
      InsertDown(a, i);
      i := i + 1;
    }
    assert a[..] == a[..a.Length];
  }
}
