/**
  The reference semantics of the tree: a list of entries sorted by key with no
  key twice, and the three map operations on it. The tree's in-order entries
  are compared against these definitions.
 */
module AssocList {
  import opened StrOrder

  datatype Option<T> = None | Some(value: T)

  /** One stored key with its payload. */
  datatype Entry<D> = Entry(key: string, data: D)

  /** Keys strictly ascending (so, in particular, no key twice). */
  ghost predicate Sorted<D>(s: seq<Entry<D>>) {
    forall i, j :: 0 <= i < j < |s| ==> Less(s[i].key, s[j].key)
  }

  /** Every key of `s` sorts before `k`. */
  ghost predicate AllBelow<D>(s: seq<Entry<D>>, k: string) {
    forall i :: 0 <= i < |s| ==> Less(s[i].key, k)
  }

  /** Every key of `s` sorts after `k`. */
  ghost predicate AllAbove<D>(s: seq<Entry<D>>, k: string) {
    forall i :: 0 <= i < |s| ==> Less(k, s[i].key)
  }

  function KeysOf<D>(s: seq<Entry<D>>): set<string> {
    if |s| == 0 then {} else {s[0].key} + KeysOf(s[1..])
  }

  /** The payload stored under `k`, if any. */
  function Lookup<D>(s: seq<Entry<D>>, k: string): (r: Option<D>)
    ensures r.Some? <==> k in KeysOf(s)
    ensures r.Some? ==> Entry(k, r.value) in s
  {
    if |s| == 0 then None
    else if s[0].key == k then Some(s[0].data)
    else Lookup(s[1..], k)
  }

  /** Store `d` under `k`: insert in key order, or replace the payload of an equal key. */
  function Put<D>(s: seq<Entry<D>>, k: string, d: D): (r: seq<Entry<D>>)
    ensures KeysOf(r) == KeysOf(s) + {k}
  {
    if |s| == 0 then [Entry(k, d)]
    else if Less(k, s[0].key) then [Entry(k, d)] + s
    else if Less(s[0].key, k) then [s[0]] + Put(s[1..], k, d)
    else LessTrichotomy(k, s[0].key); [Entry(k, d)] + s[1..]
  }

  /** Drop the entry under `k`, if there is one. */
  function Remove<D>(s: seq<Entry<D>>, k: string): (r: seq<Entry<D>>)
    ensures Sorted(s) ==> KeysOf(r) == KeysOf(s) - {k}
  {
    if |s| == 0 then []
    else if Less(k, s[0].key) then LessIrreflexive(k); AboveHeadIfSorted(s, k); s
    else if Less(s[0].key, k) then [s[0]] + Remove(s[1..], k)
    else LessTrichotomy(k, s[0].key); AboveHeadIfSorted(s, k); s[1..]
  }

  // ----- membership helpers -----

  lemma {:induction false} KeysOfIndex<D>(s: seq<Entry<D>>, y: string)
    ensures y in KeysOf(s) <==> exists i :: 0 <= i < |s| && s[i].key == y
    decreases |s|
  {
    if |s| > 0 {
      KeysOfIndex(s[1..], y);
      if y in KeysOf(s[1..]) {
        var i :| 0 <= i < |s[1..]| && s[1..][i].key == y;
        assert s[i + 1].key == y;
      }
      if exists i :: 0 <= i < |s| && s[i].key == y {
        var i :| 0 <= i < |s| && s[i].key == y;
        if i > 0 {
          assert s[1..][i - 1].key == y;
        }
      }
    }
  }

  /** In a sorted list nothing after the head is at or below a key not above the head. */
  lemma AboveHead<D>(s: seq<Entry<D>>, k: string)
    requires Sorted(s) && |s| > 0
    requires k == s[0].key || Less(k, s[0].key)
    ensures k !in KeysOf(s[1..])
  {
    if k in KeysOf(s[1..]) {
      KeysOfIndex(s[1..], k);
      var i :| 0 <= i < |s[1..]| && s[1..][i].key == k;
      assert Less(s[0].key, s[i + 1].key);
      if k == s[0].key {
        LessIrreflexive(k);
      } else {
        LessAsymmetric(k, s[0].key);
      }
    }
  }

  lemma AboveHeadIfSorted<D>(s: seq<Entry<D>>, k: string)
    requires |s| > 0 && (k == s[0].key || Less(k, s[0].key))
    ensures Sorted(s) ==> k !in KeysOf(s[1..])
  {
    if Sorted(s) {
      AboveHead(s, k);
    }
  }

  lemma AllAboveFromKeys<D>(s: seq<Entry<D>>, k: string)
    requires forall y :: y in KeysOf(s) ==> Less(k, y)
    ensures AllAbove(s, k)
  {
    forall i | 0 <= i < |s|
      ensures Less(k, s[i].key)
    {
      KeysOfIndex(s, s[i].key);
    }
  }

  lemma SortedTail<D>(s: seq<Entry<D>>)
    requires Sorted(s) && |s| > 0
    ensures Sorted(s[1..]) && AllAbove(s[1..], s[0].key)
  {
  }

  lemma SortedCons<D>(e: Entry<D>, s: seq<Entry<D>>)
    requires Sorted(s) && AllAbove(s, e.key)
    ensures Sorted([e] + s)
  {
  }

  /** Concatenation regrouped: kept as a lemma so the larger proofs need not rediscover it. */
  lemma Regroup<T>(p: seq<T>, q: seq<T>, r: seq<T>, u: seq<T>)
    ensures (p + q) + r + u == p + ((q + r) + u)
  {
  }

  /** A three-part middle regrouped towards either end. */
  lemma RegroupMiddle<T>(b: seq<T>, x: seq<T>, y: seq<T>, z: seq<T>, a: seq<T>)
    ensures b + ((x + y) + z) + a == b + x + ((y + z) + a)
    ensures b + ((x + y) + z) + a == ((b + x) + y) + z + a
  {
  }

  /** Empty pieces dropped from a concatenation. */
  lemma DropEmpty<T>(p: seq<T>, x: seq<T>, q: seq<T>)
    ensures (p + []) + x + ([] + q) == p + x + q
    ensures p + [] + q == p + q
  {
  }

  /** The key of an entry placed between two runs is among the keys. */
  lemma KeyBetween<D>(lo: seq<Entry<D>>, e: Entry<D>, hi: seq<Entry<D>>)
    ensures e.key in KeysOf(lo + [e] + hi)
  {
    KeysOfIndex(lo + [e] + hi, e.key);
    assert (lo + [e] + hi)[|lo|] == e;
  }

  /** Taking the head off a concatenation whose first part is non-empty. */
  lemma SplitHead<T>(p: seq<T>, q: seq<T>, r: seq<T>)
    requires |p| > 0
    ensures p + q + r == [p[0]] + (p[1..] + q + r)
    ensures p + r == [p[0]] + (p[1..] + r)
  {
    assert p == [p[0]] + p[1..];
  }

  lemma AllBelowConcat<D>(p: seq<Entry<D>>, q: seq<Entry<D>>, k: string)
    requires AllBelow(p, k) && AllBelow(q, k)
    ensures AllBelow(p + q, k)
  {
    assert forall i :: 0 <= i < |p + q| ==> (p + q)[i] == (if i < |p| then p[i] else q[i - |p|]);
  }

  lemma AllAboveConcat<D>(p: seq<Entry<D>>, q: seq<Entry<D>>, k: string)
    requires AllAbove(p, k) && AllAbove(q, k)
    ensures AllAbove(p + q, k)
  {
    assert forall i :: 0 <= i < |p + q| ==> (p + q)[i] == (if i < |p| then p[i] else q[i - |p|]);
  }

  /** Everything below `m` is below any `k` above `m`. */
  lemma AllBelowThrough<D>(s: seq<Entry<D>>, m: string, k: string)
    requires AllBelow(s, m) && Less(m, k)
    ensures AllBelow(s, k)
  {
    forall i | 0 <= i < |s|
      ensures Less(s[i].key, k)
    {
      LessTransitive(s[i].key, m, k);
    }
  }

  /** Everything above `m` is above any `k` below `m`. */
  lemma AllAboveThrough<D>(s: seq<Entry<D>>, m: string, k: string)
    requires AllAbove(s, m) && Less(k, m)
    ensures AllAbove(s, k)
  {
    forall i | 0 <= i < |s|
      ensures Less(k, s[i].key)
    {
      LessTransitive(k, m, s[i].key);
    }
  }

  /** Sorted concatenation: both halves sorted and every key of the first below every key of the second. */
  lemma SortedAppend<D>(a: seq<Entry<D>>, b: seq<Entry<D>>)
    requires Sorted(a + b)
    ensures Sorted(a) && Sorted(b)
    ensures forall i, j :: 0 <= i < |a| && 0 <= j < |b| ==> Less(a[i].key, b[j].key)
  {
    forall i, j | 0 <= i < |a| && 0 <= j < |b|
      ensures Less(a[i].key, b[j].key)
    {
      assert (a + b)[i] == a[i] && (a + b)[|a| + j] == b[j];
    }
    forall i, j | 0 <= i < j < |a|
      ensures Less(a[i].key, a[j].key)
    {
      assert (a + b)[i] == a[i] && (a + b)[j] == a[j];
    }
    forall i, j | 0 <= i < j < |b|
      ensures Less(b[i].key, b[j].key)
    {
      assert (a + b)[|a| + i] == b[i] && (a + b)[|a| + j] == b[j];
    }
  }

  // ----- Put -----

  lemma {:induction false} PutSorted<D>(s: seq<Entry<D>>, k: string, d: D)
    requires Sorted(s)
    ensures Sorted(Put(s, k, d))
    decreases |s|
  {
    if |s| == 0 {
    } else if Less(k, s[0].key) {
      forall i | 0 <= i < |s|
        ensures Less(k, s[i].key)
      {
        if i > 0 {
          LessTransitive(k, s[0].key, s[i].key);
        }
      }
      SortedCons(Entry(k, d), s);
    } else if Less(s[0].key, k) {
      SortedTail(s);
      PutSorted(s[1..], k, d);
      var r := Put(s[1..], k, d);
      forall y | y in KeysOf(r)
        ensures Less(s[0].key, y)
      {
        if y != k {
          KeysOfIndex(s[1..], y);
        }
      }
      AllAboveFromKeys(r, s[0].key);
      SortedCons(s[0], r);
    } else {
      LessTrichotomy(k, s[0].key);
      SortedTail(s);
      SortedCons(Entry(k, d), s[1..]);
    }
  }

  /** Put as a finite map update: `k` now maps to `d`, every other key as before. */
  lemma {:induction false} LookupPut<D>(s: seq<Entry<D>>, k: string, d: D, q: string)
    ensures Lookup(Put(s, k, d), q) == if q == k then Some(d) else Lookup(s, q)
    decreases |s|
  {
    if |s| == 0 {
    } else if Less(k, s[0].key) {
    } else if Less(s[0].key, k) {
      LookupPut(s[1..], k, d, q);
    } else {
      LessTrichotomy(k, s[0].key);
      assert ([Entry(k, d)] + s[1..])[1..] == s[1..];
    }
  }

  /** `LookupPut` for every key at once. */
  lemma PutView<D>(s: seq<Entry<D>>, k: string, d: D)
    ensures forall q :: Lookup(Put(s, k, d), q) == if q == k then Some(d) else Lookup(s, q)
  {
    forall q {
      LookupPut(s, k, d, q);
    }
  }

  /** Inserting an absent key between the entries below it and the entries above it. */
  lemma {:induction false} PutBetween<D>(lo: seq<Entry<D>>, hi: seq<Entry<D>>, k: string, d: D)
    requires AllBelow(lo, k) && AllAbove(hi, k)
    ensures Put(lo + hi, k, d) == lo + [Entry(k, d)] + hi
    decreases |lo|
  {
    if |lo| == 0 {
      assert lo + hi == hi;
      assert lo + [Entry(k, d)] + hi == [Entry(k, d)] + hi;
      if |hi| > 0 {
        assert Less(k, hi[0].key);
      }
    } else {
      SplitHead(lo, [], hi);
      SplitHead(lo, [Entry(k, d)], hi);
      PutBetween(lo[1..], hi, k, d);
      PutPast(lo[0], lo[1..] + hi, k, d);
    }
  }

  /** Re-inserting a present key replaces its payload in place. */
  lemma {:induction false} PutReplaces<D>(lo: seq<Entry<D>>, hi: seq<Entry<D>>, k: string, d0: D, d: D)
    requires AllBelow(lo, k)
    ensures Put(lo + [Entry(k, d0)] + hi, k, d) == lo + [Entry(k, d)] + hi
    decreases |lo|
  {
    if |lo| == 0 {
      assert lo + [Entry(k, d0)] + hi == [Entry(k, d0)] + hi;
      assert lo + [Entry(k, d)] + hi == [Entry(k, d)] + hi;
      LessIrreflexive(k);
    } else {
      SplitHead(lo, [Entry(k, d0)], hi);
      SplitHead(lo, [Entry(k, d)], hi);
      PutReplaces(lo[1..], hi, k, d0, d);
      PutPast(lo[0], lo[1..] + [Entry(k, d0)] + hi, k, d);
    }
  }

  /** An entry below the stored key stays in front. */
  lemma PutPast<D>(e: Entry<D>, tl: seq<Entry<D>>, k: string, d: D)
    requires Less(e.key, k)
    ensures Put([e] + tl, k, d) == [e] + Put(tl, k, d)
  {
    LessAsymmetric(e.key, k);
    assert ([e] + tl)[1..] == tl;
  }

  /** The payload found under a present key is the one stored with it. */
  lemma {:induction false} LookupAt<D>(lo: seq<Entry<D>>, hi: seq<Entry<D>>, k: string, d: D)
    requires AllBelow(lo, k)
    ensures Lookup(lo + [Entry(k, d)] + hi, k) == Some(d)
    decreases |lo|
  {
    if |lo| == 0 {
      assert lo + [Entry(k, d)] + hi == [Entry(k, d)] + hi;
    } else {
      SplitHead(lo, [Entry(k, d)], hi);
      LessIrreflexive(k);
      LookupAt(lo[1..], hi, k, d);
      var tl := lo[1..] + [Entry(k, d)] + hi;
      assert ([lo[0]] + tl)[1..] == tl;
    }
  }

  // ----- Remove -----

  lemma {:induction false} RemoveSorted<D>(s: seq<Entry<D>>, k: string)
    requires Sorted(s)
    ensures Sorted(Remove(s, k))
    decreases |s|
  {
    if |s| == 0 {
    } else if Less(k, s[0].key) {
    } else if Less(s[0].key, k) {
      SortedTail(s);
      RemoveSorted(s[1..], k);
      var r := Remove(s[1..], k);
      forall y | y in KeysOf(r)
        ensures Less(s[0].key, y)
      {
        KeysOfIndex(s[1..], y);
      }
      AllAboveFromKeys(r, s[0].key);
      SortedCons(s[0], r);
    } else {
      SortedTail(s);
    }
  }

  /** Remove as a finite map update: `k` is now absent, every other key as before. */
  lemma {:induction false} LookupRemove<D>(s: seq<Entry<D>>, k: string, q: string)
    requires Sorted(s)
    ensures Lookup(Remove(s, k), q) == if q == k then None else Lookup(s, q)
    decreases |s|
  {
    if |s| == 0 {
    } else if Less(k, s[0].key) {
      if q == k {
        AboveHead(s, k);
        LessIrreflexive(k);
      }
    } else if Less(s[0].key, k) {
      SortedTail(s);
      LookupRemove(s[1..], k, q);
    } else {
      LessTrichotomy(k, s[0].key);
      if q == k {
        AboveHead(s, k);
      }
    }
  }

  /** `LookupRemove` for every key at once. */
  lemma RemoveView<D>(s: seq<Entry<D>>, k: string)
    requires Sorted(s)
    ensures forall q :: Lookup(Remove(s, k), q) == if q == k then None else Lookup(s, q)
  {
    forall q {
      LookupRemove(s, k, q);
    }
  }

  /** Removing an absent key that falls between two runs changes nothing. */
  lemma {:induction false} RemoveBetween<D>(lo: seq<Entry<D>>, hi: seq<Entry<D>>, k: string)
    requires AllBelow(lo, k) && AllAbove(hi, k)
    ensures Remove(lo + hi, k) == lo + hi
    decreases |lo|
  {
    if |lo| == 0 {
      assert lo + hi == hi;
    } else {
      assert (lo + hi)[0] == lo[0] && (lo + hi)[1..] == lo[1..] + hi;
      RemoveBetween(lo[1..], hi, k);
      LessAsymmetric(lo[0].key, k);
    }
  }

  /** Removing a present key splices its entry out. */
  lemma {:induction false} RemoveSplices<D>(lo: seq<Entry<D>>, hi: seq<Entry<D>>, k: string, d: D)
    requires AllBelow(lo, k)
    ensures Remove(lo + [Entry(k, d)] + hi, k) == lo + hi
    decreases |lo|
  {
    if |lo| == 0 {
      assert lo + [Entry(k, d)] + hi == [Entry(k, d)] + hi;
      LessIrreflexive(k);
    } else {
      SplitHead(lo, [Entry(k, d)], hi);
      RemoveSplices(lo[1..], hi, k, d);
      RemovePast(lo[0], lo[1..] + [Entry(k, d)] + hi, k);
    }
  }

  /** An entry below the removed key stays in front. */
  lemma RemovePast<D>(e: Entry<D>, tl: seq<Entry<D>>, k: string)
    requires Less(e.key, k)
    ensures Remove([e] + tl, k) == [e] + Remove(tl, k)
  {
    LessAsymmetric(e.key, k);
    assert ([e] + tl)[1..] == tl;
  }

  /** A list whose head sorts after the removed key is left as it is. */
  lemma RemoveBefore<D>(e: Entry<D>, tl: seq<Entry<D>>, k: string)
    requires Less(k, e.key)
    ensures Remove([e] + tl, k) == [e] + tl
  {
  }

  /** Removing an absent key changes nothing. */
  lemma {:induction false} RemoveAbsent<D>(s: seq<Entry<D>>, k: string)
    requires k !in KeysOf(s)
    ensures Remove(s, k) == s
    decreases |s|
  {
    if |s| > 0 {
      var e, tl := s[0], s[1..];
      assert s == [e] + tl;
      RemoveAbsent(tl, k);
      LessTrichotomy(k, e.key);
      if Less(e.key, k) {
        RemovePast(e, tl, k);
      } else {
        RemoveBefore(e, tl, k);
      }
    }
  }
}
