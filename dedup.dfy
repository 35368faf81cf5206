/** Removal of duplicate locations: when several files map to the same URL,
    the sitemap keeps the entry of the first one the walk met. */
module Dedup {
  import opened Wrappers
  import opened Entries

  /** The locations of some entries. */
  function Locs(s: seq<Entry>): set<string> {
    set e | e in s :: e.loc
  }

  /** No two entries share a location. */
  predicate DistinctLocs(s: seq<Entry>) {
    forall i, j :: 0 <= i < j < |s| ==> s[i].loc != s[j].loc
  }

  /** `urls[i]` is the first entry with its location. */
  predicate IsFirst(urls: seq<Entry>, i: nat)
    requires i < |urls|
  {
    forall j :: 0 <= j < i ==> urls[j].loc != urls[i].loc
  }

  /** The first entry of each location, in their original order. */
  function KeepFirst(urls: seq<Entry>): (r: seq<Entry>)
    ensures |r| <= |urls|
  {
    if |urls| == 0 then []
    else
      var n := |urls| - 1;
      KeepFirst(urls[..n]) + (if IsFirst(urls, n) then [urls[n]] else [])
  }

  /** Without repeated locations, the tail lacks exactly the head's
      location. */
  lemma {:induction false} LocsTail(s: seq<Entry>)
    requires |s| > 0 && DistinctLocs(s)
    ensures Locs(s[1..]) == Locs(s) - {s[0].loc}
  {
    forall x | x in Locs(s[1..]) ensures x in Locs(s) - {s[0].loc} {
      var e :| e in s[1..] && e.loc == x;
      var i :| 0 <= i < |s[1..]| && s[1..][i] == e;
      assert s[i + 1] == e;
    }
    forall x | x in Locs(s) - {s[0].loc} ensures x in Locs(s[1..]) {
      var e :| e in s && e.loc == x;
      var i :| 0 <= i < |s| && s[i] == e;
      assert i != 0 && s[1..][i - 1] == e;
    }
  }

  lemma LocsSnoc(s: seq<Entry>, n: nat)
    requires n < |s|
    ensures Locs(s[..n + 1]) == Locs(s[..n]) + {s[n].loc}
  {
    assert s[..n + 1] == s[..n] + [s[n]];
  }

  /** An entry is first exactly when its location is new. */
  lemma IsFirstIff(urls: seq<Entry>, n: nat)
    requires n < |urls|
    ensures IsFirst(urls, n) <==> urls[n].loc !in Locs(urls[..n])
  {
    if urls[n].loc in Locs(urls[..n]) {
      var e :| e in urls[..n] && e.loc == urls[n].loc;
      var j :| 0 <= j < n && urls[..n][j] == e;
    }
  }

  /** Dropping duplicates loses no location ... */
  lemma {:induction false} KeepFirstLocs(urls: seq<Entry>)
    ensures Locs(KeepFirst(urls)) == Locs(urls)
    decreases |urls|
  {
    if |urls| > 0 {
      var n := |urls| - 1;
      KeepFirstLocs(urls[..n]);
      assert urls[..n + 1] == urls;
      LocsSnoc(urls, n);
      IsFirstIff(urls, n);
      var tail := if IsFirst(urls, n) then [urls[n]] else [];
      assert Locs(KeepFirst(urls)) == Locs(KeepFirst(urls[..n])) + Locs(tail);
    }
  }

  /** ... and leaves each location once. */
  lemma {:induction false} KeepFirstDistinct(urls: seq<Entry>)
    ensures DistinctLocs(KeepFirst(urls))
    decreases |urls|
  {
    if |urls| > 0 {
      var n := |urls| - 1;
      var prev := KeepFirst(urls[..n]);
      KeepFirstDistinct(urls[..n]);
      if IsFirst(urls, n) {
        IsFirstIff(urls, n);
        KeepFirstLocs(urls[..n]);
        var r := KeepFirst(urls);
        assert r == prev + [urls[n]];
        forall i, j | 0 <= i < j < |r| ensures r[i].loc != r[j].loc {
          if j == |prev| {
            assert r[i] in prev;
          } else {
            assert r[i] == prev[i] && r[j] == prev[j];
          }
        }
      }
    }
  }

  /** The entries kept are exactly those that are the first with their
      location. */
  lemma {:induction false} KeepFirstMembers(urls: seq<Entry>, e: Entry)
    ensures e in KeepFirst(urls) <==>
            exists i :: 0 <= i < |urls| && urls[i] == e && IsFirst(urls, i)
    decreases |urls|
  {
    if |urls| > 0 {
      var n := |urls| - 1;
      var init := urls[..n];
      KeepFirstMembers(init, e);
      assert forall i :: 0 <= i < n ==> init[i] == urls[i];
      assert forall i :: 0 <= i < n ==> (IsFirst(init, i) <==> IsFirst(urls, i));
    }
  }

  /** The entries kept stay in the order the walk met them. */
  lemma {:induction false} KeepFirstOrder(urls: seq<Entry>, i: nat, j: nat)
    requires i < j < |urls| && IsFirst(urls, i) && IsFirst(urls, j)
    ensures exists a, b :: 0 <= a < b < |KeepFirst(urls)|
              && KeepFirst(urls)[a] == urls[i] && KeepFirst(urls)[b] == urls[j]
    decreases |urls|
  {
    var n := |urls| - 1;
    var init := urls[..n];
    var prev := KeepFirst(init);
    var r := KeepFirst(urls);
    assert forall k :: 0 <= k < n ==> init[k] == urls[k];
    assert IsFirst(init, i);
    if j < n {
      assert IsFirst(init, j);
      KeepFirstOrder(init, i, j);
      var a, b :| 0 <= a < b < |prev| && prev[a] == urls[i] && prev[b] == urls[j];
      assert r[a] == prev[a] && r[b] == prev[b];
    } else {
      KeepFirstMembers(init, urls[i]);
      var a :| 0 <= a < |prev| && prev[a] == urls[i];
      assert r == prev + [urls[j]];
      assert r[a] == prev[a] && r[|prev|] == urls[j];
    }
  }

  /** Entries whose locations are already distinct are all kept. */
  lemma {:induction false} KeepFirstDistinctUnchanged(urls: seq<Entry>)
    requires DistinctLocs(urls)
    ensures KeepFirst(urls) == urls
    decreases |urls|
  {
    if |urls| > 0 {
      var n := |urls| - 1;
      assert DistinctLocs(urls[..n]);
      KeepFirstDistinctUnchanged(urls[..n]);
      assert IsFirst(urls, n);
      assert urls[..n] + [urls[n]] == urls;
    }
  }

  /** Dropping duplicates twice drops nothing more. */
  lemma KeepFirstIdempotent(urls: seq<Entry>)
    ensures KeepFirst(KeepFirst(urls)) == KeepFirst(urls)
  {
    KeepFirstDistinct(urls);
    KeepFirstDistinctUnchanged(KeepFirst(urls));
  }

  /** Entries with distinct locations occur once each. */
  lemma {:induction false} DistinctOnce(s: seq<Entry>, x: Entry)
    requires DistinctLocs(s)
    ensures multiset(s)[x] <= 1
    decreases |s|
  {
    if |s| > 0 {
      var n := |s| - 1;
      assert s == s[..n] + [s[n]];
      assert DistinctLocs(s[..n]);
      DistinctOnce(s[..n], x);
      if x == s[n] {
        assert x !in s[..n] by {
          forall i | 0 <= i < n ensures s[..n][i] != x {
            assert s[..n][i].loc == s[i].loc != s[n].loc;
          }
        }
      }
    }
  }

  /** Reordering entries keeps their locations distinct. */
  lemma {:induction false} DistinctLocsPermutation(s: seq<Entry>, t: seq<Entry>)
    requires DistinctLocs(s) && multiset(s) == multiset(t)
    ensures DistinctLocs(t)
  {
    forall i, j | 0 <= i < j < |t| ensures t[i].loc != t[j].loc {
      assert t == t[..j] + t[j..];
      assert t[i] == t[..j][i] && t[j] == t[j..][0];
      assert multiset(t)[t[i]] == multiset(t[..j])[t[i]] + multiset(t[j..])[t[i]];
      DistinctOnce(s, t[i]);
      assert t[i] in multiset(s) && t[j] in multiset(s);
      var p :| 0 <= p < |s| && s[p] == t[i];
      var q :| 0 <= q < |s| && s[q] == t[j];
      if p > q {
        p, q := q, p;
      }
    }
  }

  /** Reordering entries keeps their set of locations. */
  lemma LocsPermutation(s: seq<Entry>, t: seq<Entry>)
    requires multiset(s) == multiset(t)
    ensures Locs(s) == Locs(t)
  {
    forall e | e in s ensures e in t {
      assert e in multiset(s);
    }
    forall e | e in t ensures e in s {
      assert e in multiset(t);
    }
  }

  /** The duplicate removal, with the set of locations seen so far. */
  method RemoveDuplicates(urls: seq<Entry>) returns (finalUrls: seq<Entry>)
    ensures finalUrls == KeepFirst(urls)
  {
    var unique: set<string> := {};
    finalUrls := [];
    for i := 0 to |urls|
      invariant finalUrls == KeepFirst(urls[..i])
      invariant unique == Locs(urls[..i])
    {
      var u := urls[i];
      assert urls[..i + 1][..i] == urls[..i];
      IsFirstIff(urls[..i + 1], i);
      LocsSnoc(urls, i);
      if u.loc !in unique {
        unique := unique + {u.loc};
        finalUrls := finalUrls + [u];
      }
    }
    TakeAll(urls);
  }
}
