/**
 * The rise index: the catalog grouped by exact rise value, each group in catalog
 * order, and the ascending list of distinct rise values.
 */
module RiseIndex {
  import opened Catalog

  /** The entries whose rise is `r`, in catalog order (the bucket of `r`). */
  function Bucket(entries: seq<DelayEntry>, r: int): seq<DelayEntry>
  {
    if entries == [] then []
    else
      var last := entries[|entries| - 1];
      Bucket(entries[..|entries| - 1], r) + (if last.rise == r then [last] else [])
  }

  /** The distinct rise values in order of first appearance (the key order of the index). */
  function DistinctRises(entries: seq<DelayEntry>): seq<int>
  {
    if entries == [] then []
    else
      var prior := DistinctRises(entries[..|entries| - 1]);
      var r := entries[|entries| - 1].rise;
      if r in prior then prior else prior + [r]
  }

  predicate Ascending(s: seq<int>)
  {
    forall i, j :: 0 <= i < j < |s| ==> s[i] <= s[j]
  }

  predicate StrictlyAscending(s: seq<int>)
  {
    forall i, j :: 0 <= i < j < |s| ==> s[i] < s[j]
  }

  /** `x` placed into an ascending list before the first element not below it. */
  function Insert(x: int, s: seq<int>): (r: seq<int>)
    requires Ascending(s)
    ensures Ascending(r)
    ensures multiset(r) == multiset(s) + multiset{x}
  {
    if s == [] || x <= s[0] then [x] + s
    else
      var rest := Insert(x, s[1..]);
      InsertBehind(x, s, rest);
      [s[0]] + rest
  }

  lemma InsertBehind(x: int, s: seq<int>, rest: seq<int>)
    requires Ascending(s) && s != [] && s[0] < x
    requires Ascending(rest) && multiset(rest) == multiset(s[1..]) + multiset{x}
    ensures Ascending([s[0]] + rest)
    ensures multiset([s[0]] + rest) == multiset(s) + multiset{x}
  {
    assert s == [s[0]] + s[1..];
    var r := [s[0]] + rest;
    forall j | 0 < j < |r| ensures s[0] <= r[j] {
      assert r[j] == rest[j - 1];
      assert rest[j - 1] in multiset(rest);
    }
  }

  /** Ascending order of a list of integers, as the library sort delivers it. */
  function Sort(xs: seq<int>): (r: seq<int>)
    ensures Ascending(r)
    ensures multiset(r) == multiset(xs)
  {
    if xs == [] then []
    else
      assert xs == xs[..|xs| - 1] + [xs[|xs| - 1]];
      Insert(xs[|xs| - 1], Sort(xs[..|xs| - 1]))
  }

  /** A value no smaller than every element lands at the end. */
  lemma {:induction false} InsertAtEnd(x: int, s: seq<int>)
    requires Ascending(s) && (s == [] || s[|s| - 1] <= x)
    ensures Insert(x, s) == s + [x]
  {
    if s != [] {
      if x <= s[0] {
        assert forall k :: 0 <= k < |s| ==> s[k] == x by {
          forall k | 0 <= k < |s| ensures s[k] == x {
            assert s[0] <= s[k] <= s[|s| - 1];
          }
        }
        assert [x] + s == s + [x];
      } else {
        InsertAtEnd(x, s[1..]);
        assert s == [s[0]] + s[1..];
      }
    }
  }

  /** Sorting leaves an ascending list as it is. */
  lemma {:induction false} SortSorted(xs: seq<int>)
    requires Ascending(xs)
    ensures Sort(xs) == xs
  {
    if xs != [] {
      var front, last := xs[..|xs| - 1], xs[|xs| - 1];
      AscendingFront(xs);
      SortSorted(front);
      InsertAtEnd(last, front);
      assert xs == front + [last];
    }
  }

  lemma AscendingFront(xs: seq<int>)
    requires Ascending(xs) && xs != []
    ensures Ascending(xs[..|xs| - 1])
    ensures xs[..|xs| - 1] == [] || xs[..|xs| - 1][|xs| - 2] <= xs[|xs| - 1]
  {
    var front := xs[..|xs| - 1];
    forall i, j | 0 <= i < j < |front| ensures front[i] <= front[j] {
      assert front[i] == xs[i] && front[j] == xs[j];
    }
  }

  /** The sorted distinct rise values of the catalog. */
  function RiseValues(entries: seq<DelayEntry>): seq<int>
  {
    Sort(DistinctRises(entries))
  }

  /** A rise value occurs in the catalog. */
  predicate HasRise(entries: seq<DelayEntry>, r: int)
  {
    exists e :: e in entries && e.rise == r
  }

  lemma {:induction false} BucketMembers(entries: seq<DelayEntry>, r: int, e: DelayEntry)
    ensures e in Bucket(entries, r) <==> e in entries && e.rise == r
  {
    if entries != [] {
      var front := entries[..|entries| - 1];
      BucketMembers(front, r, e);
      assert entries == front + [entries[|entries| - 1]];
    }
  }

  /** Every entry lies in the bucket of its own rise exactly as often as in the catalog, and in no other. */
  lemma {:induction false} BucketCount(entries: seq<DelayEntry>, r: int, e: DelayEntry)
    ensures multiset(Bucket(entries, r))[e] == if e.rise == r then multiset(entries)[e] else 0
  {
    if entries != [] {
      var front := entries[..|entries| - 1];
      BucketCount(front, r, e);
      assert entries == front + [entries[|entries| - 1]];
    }
  }

  /** The first entry of a bucket is the first catalog entry with that rise. */
  lemma {:induction false} BucketFirst(entries: seq<DelayEntry>, r: int)
    requires Bucket(entries, r) != []
    ensures exists j :: 0 <= j < |entries| && entries[j] == Bucket(entries, r)[0]
                        && entries[j].rise == r
                        && forall i :: 0 <= i < j ==> entries[i].rise != r
  {
    var front := entries[..|entries| - 1];
    var last := entries[|entries| - 1];
    if Bucket(front, r) == [] {
      BucketEmpty(front, r);
      var j := |entries| - 1;
      assert entries[j] == last;
      assert forall i :: 0 <= i < j ==> entries[i] == front[i];
    } else {
      BucketFirst(front, r);
      var j :| 0 <= j < |front| && front[j] == Bucket(front, r)[0] && front[j].rise == r
               && forall i :: 0 <= i < j ==> front[i].rise != r;
      assert entries[j] == front[j];
      assert forall i :: 0 <= i < j ==> entries[i] == front[i];
    }
  }

  lemma {:induction false} BucketEmpty(entries: seq<DelayEntry>, r: int)
    requires Bucket(entries, r) == []
    ensures forall i :: 0 <= i < |entries| ==> entries[i].rise != r
  {
    if entries != [] {
      BucketEmpty(entries[..|entries| - 1], r);
    }
  }

  lemma {:induction false} DistinctRisesSpec(entries: seq<DelayEntry>)
    ensures forall r :: r in DistinctRises(entries) <==> HasRise(entries, r)
    ensures forall i, j :: 0 <= i < j < |DistinctRises(entries)| ==>
              DistinctRises(entries)[i] != DistinctRises(entries)[j]
  {
    if entries != [] {
      var front := entries[..|entries| - 1];
      var last := entries[|entries| - 1];
      DistinctRisesSpec(front);
      assert entries == front + [last];
      forall r ensures HasRise(entries, r) ==> HasRise(front, r) || r == last.rise {
        if HasRise(entries, r) {
          var e :| e in entries && e.rise == r;
          assert e in front || e == last;
        }
      }
      forall r ensures HasRise(front, r) ==> HasRise(entries, r) {
        if HasRise(front, r) {
          var e :| e in front && e.rise == r;
          assert e in entries;
        }
      }
      assert last in entries;
    }
  }

  /** A sorted list without repeated values is strictly ascending. */
  lemma SortedDistinct(xs: seq<int>)
    requires forall i, j :: 0 <= i < j < |xs| ==> xs[i] != xs[j]
    ensures StrictlyAscending(Sort(xs))
  {
    var s := Sort(xs);
    forall i, j | 0 <= i < j < |s| ensures s[i] < s[j] {
      if s[i] == s[j] {
        DistinctCountsOne(xs, s[i]);
        RepeatCountsTwo(s, i, j);
        assert false;
      }
    }
  }

  lemma RepeatCountsTwo(s: seq<int>, i: nat, j: nat)
    requires i < j < |s| && s[i] == s[j]
    ensures multiset(s)[s[i]] >= 2
  {
    var v := s[i];
    assert s == s[..j] + s[j..];
    assert s[..j][i] == v;
    assert s[j..][0] == v;
    assert multiset(s)[v] == multiset(s[..j])[v] + multiset(s[j..])[v];
  }

  lemma {:induction false} DistinctCountsOne(xs: seq<int>, x: int)
    requires forall i, j :: 0 <= i < j < |xs| ==> xs[i] != xs[j]
    ensures multiset(xs)[x] <= 1
  {
    if xs != [] {
      var front := xs[..|xs| - 1];
      DistinctCountsOne(front, x);
      assert xs == front + [xs[|xs| - 1]];
      if xs[|xs| - 1] == x {
        assert x !in front;
      }
    }
  }

  /** `rs` lists the catalog's rise values, each once, in ascending order. */
  ghost predicate IsRiseOrder(entries: seq<DelayEntry>, rs: seq<int>)
  {
    StrictlyAscending(rs) && forall r :: r in rs <==> HasRise(entries, r)
  }

  /** The rise values are strictly ascending and are exactly the rises of the catalog. */
  lemma RiseValuesSpec(entries: seq<DelayEntry>)
    ensures StrictlyAscending(RiseValues(entries))
    ensures forall r :: r in RiseValues(entries) <==> HasRise(entries, r)
    ensures IsRiseOrder(entries, RiseValues(entries))
  {
    var keys := DistinctRises(entries);
    DistinctRisesSpec(entries);
    SortedDistinct(keys);
    forall r ensures r in RiseValues(entries) <==> r in keys {
      assert r in multiset(RiseValues(entries)) <==> r in multiset(keys);
    }
  }

  lemma RiseListed(entries: seq<DelayEntry>, e: DelayEntry)
    requires e in entries
    ensures e.rise in RiseValues(entries)
  {
    RiseValuesSpec(entries);
    assert HasRise(entries, e.rise);
  }

  /** Grouping a concatenation is grouping its parts. */
  lemma {:induction false} BucketAppend(a: seq<DelayEntry>, b: seq<DelayEntry>, r: int)
    ensures Bucket(a + b, r) == Bucket(a, r) + Bucket(b, r)
  {
    if b != [] {
      var front := b[..|b| - 1];
      BucketAppend(a, front, r);
      assert (a + b)[..|a + b| - 1] == a + front;
      assert (a + b)[|a + b| - 1] == b[|b| - 1];
    } else {
      assert a + b == a;
    }
  }

  /** A bucket regrouped by its own rise is itself, and by any other rise is empty. */
  lemma {:induction false} BucketOfBucket(entries: seq<DelayEntry>, r: int, r0: int)
    ensures Bucket(Bucket(entries, r), r0) == if r == r0 then Bucket(entries, r) else []
  {
    if entries != [] {
      var front, last := entries[..|entries| - 1], entries[|entries| - 1];
      BucketOfBucket(front, r, r0);
      var tail := if last.rise == r then [last] else [];
      BucketAppend(Bucket(front, r), tail, r0);
      assert [last][..0] == [];
    }
  }

  /** A rise value of the catalog has a non-empty bucket, headed by an entry of that rise. */
  lemma HasRiseBucket(entries: seq<DelayEntry>, r: int)
    requires HasRise(entries, r)
    ensures Bucket(entries, r) != []
    ensures Bucket(entries, r)[0] in entries && Bucket(entries, r)[0].rise == r
  {
    var e :| e in entries && e.rise == r;
    BucketMembers(entries, r, e);
    assert Bucket(entries, r)[0] in Bucket(entries, r);
    BucketMembers(entries, r, Bucket(entries, r)[0]);
  }

  /** `index` maps every rise value of the catalog, and only those, to its bucket. */
  ghost predicate IsIndexOf(index: map<int, seq<DelayEntry>>, entries: seq<DelayEntry>)
  {
    forall r :: if r in index then index[r] == Bucket(entries, r) else Bucket(entries, r) == []
  }

  /**
   * Builds the index as the loop at the top of the search does: a map from rise value to
   * the entries with that rise, appended in catalog order, then the sorted key list.
   */
  method BuildRiseIndex(entries: seq<DelayEntry>)
    returns (index: map<int, seq<DelayEntry>>, riseValues: seq<int>)
    ensures forall r :: r in index <==> HasRise(entries, r)
    ensures forall r :: r in index ==> index[r] == Bucket(entries, r)
    ensures IsIndexOf(index, entries)
    ensures StrictlyAscending(riseValues)
    ensures forall r :: r in riseValues <==> r in index
    ensures riseValues == RiseValues(entries)
  {
    index := map[];
    var keys: seq<int> := [];
    for i := 0 to |entries|
      invariant keys == DistinctRises(entries[..i])
      invariant forall r :: r in index <==> r in keys
      invariant forall r :: r in index ==> index[r] == Bucket(entries[..i], r)
      invariant forall r :: r !in index ==> Bucket(entries[..i], r) == []
    {
      var e := entries[i];
      assert entries[..i + 1][..i] == entries[..i];
      assert forall r :: Bucket(entries[..i + 1], r)
                         == Bucket(entries[..i], r) + (if e.rise == r then [e] else []);
      if e.rise !in index {
        index := index[e.rise := []];
        keys := keys + [e.rise];
      }
      index := index[e.rise := index[e.rise] + [e]];
    }
    assert entries[..|entries|] == entries;
    riseValues := Sort(keys);
    RiseValuesSpec(entries);
    DistinctRisesSpec(entries);
  }
}
