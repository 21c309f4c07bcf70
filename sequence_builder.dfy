/**
 * The sequence builder: from a start rise value and a step, greedily grows a chain of
 * catalog entries that approximates the progression (startRise + i*step, seedFall + i*step).
 */
module SequenceBuilder {
  import opened Catalog
  import opened RiseIndex

  /** Hard cap on the number of positions in a chain. */
  const MaxChainLength: nat := 100

  /**
   * The entries examined for a target, in scan order: the buckets of the rise values in `rs`
   * that lie within `maxDist` of `targetRise`, rise values in the order of `rs`, catalog
   * order inside each bucket.
   */
  function Window(entries: seq<DelayEntry>, rs: seq<int>, targetRise: int, maxDist: int): seq<DelayEntry>
  {
    if rs == [] then []
    else
      var r := rs[|rs| - 1];
      Window(entries, rs[..|rs| - 1], targetRise, maxDist)
        + (if Abs(r - targetRise) <= maxDist then Bucket(entries, r) else [])
  }

  /** One step of the nearest-match scan: take `e` if it is strictly closer than the best so far and within twice `maxDist`. */
  function Consider(best: Option<Match>, e: DelayEntry, targetRise: int, targetFall: int, maxDist: int): Option<Match>
  {
    var d := Distance(e, targetRise, targetFall);
    if (best.None? || d < best.value.dist) && d <= maxDist * 2 then Some(Match(e, d)) else best
  }

  /** Scanning `cands` in order, starting from `best`; `None` plays the role of the infinite initial distance. */
  function ScanFrom(best: Option<Match>, cands: seq<DelayEntry>, targetRise: int, targetFall: int, maxDist: int): Option<Match>
  {
    if cands == [] then best
    else
      Consider(ScanFrom(best, cands[..|cands| - 1], targetRise, targetFall, maxDist), cands[|cands| - 1],
               targetRise, targetFall, maxDist)
  }

  /**
   * The entry accepted for a target, if any: the rise values of `rs` in order, those farther
   * than `maxDist` from the target skipped, each remaining bucket scanned in catalog order.
   */
  function Nearest(entries: seq<DelayEntry>, rs: seq<int>, targetRise: int, targetFall: int, maxDist: int): Option<Match>
  {
    if rs == [] then None
    else
      var best := Nearest(entries, rs[..|rs| - 1], targetRise, targetFall, maxDist);
      var r := rs[|rs| - 1];
      if Abs(r - targetRise) > maxDist then best
      else ScanFrom(best, Bucket(entries, r), targetRise, targetFall, maxDist)
  }

  /** The record of position `i` of the progression, matched by `m`. */
  function StepAt(targetRise: int, targetFall: int, m: Match): Step
  {
    Step(targetRise, targetFall, m.entry.rise, m.entry.fall, m.entry.select, m.dist)
  }

  /** `base + p * step`, unfolded one step at a time. */
  function Target(base: int, p: nat, step: int): int
  {
    if p == 0 then base else Target(base, p - 1, step) + step
  }

  lemma {:induction false} TargetIsProgression(base: int, p: nat, step: int)
    ensures Target(base, p, step) == base + p * step
  {
    if p > 0 {
      TargetIsProgression(base, p - 1, step);
      assert (p - 1) * step + step == p * step;
    }
  }

  /** The chain positions from `i` on, stopping for good at the first target without a match. */
  function Extend(entries: seq<DelayEntry>, rs: seq<int>, startRise: int, seedFall: int, step: int, maxDist: int, i: nat): seq<Step>
    decreases MaxChainLength - i
  {
    if i >= MaxChainLength then []
    else
      var targetRise := Target(startRise, i, step);
      var targetFall := Target(seedFall, i, step);
      match Nearest(entries, rs, targetRise, targetFall, maxDist)
      case None => []
      case Some(m) =>
        [StepAt(targetRise, targetFall, m)] + Extend(entries, rs, startRise, seedFall, step, maxDist, i + 1)
  }

  /** The chain grown from the first entry with rise `startRise`, or empty when there is none. */
  function Chain(entries: seq<DelayEntry>, rs: seq<int>, startRise: int, step: int, maxDist: int): seq<Step>
  {
    var bucket := Bucket(entries, startRise);
    if bucket == [] then []
    else
      var seed := bucket[0];
      [Step(startRise, seed.fall, seed.rise, seed.fall, seed.select, 0)]
        + Extend(entries, rs, startRise, seed.fall, step, maxDist, 1)
  }

  /** The scan finds nothing exactly when every candidate is farther than twice `maxDist`. */
  lemma {:induction false} ScanFindsNothing(cands: seq<DelayEntry>, targetRise: int, targetFall: int, maxDist: int)
    ensures ScanFrom(None, cands, targetRise, targetFall, maxDist).None? <==>
            forall k :: 0 <= k < |cands| ==> Distance(cands[k], targetRise, targetFall) > maxDist * 2
  {
    if cands != [] {
      var front := cands[..|cands| - 1];
      ScanFindsNothing(front, targetRise, targetFall, maxDist);
      assert forall j :: 0 <= j < |front| ==> cands[j] == front[j];
    }
  }

  /**
   * The scan keeps the first candidate of least distance, provided that distance is at most
   * twice `maxDist`.
   */
  lemma {:induction false} ScanFirstMinimum(cands: seq<DelayEntry>, targetRise: int, targetFall: int, maxDist: int)
    requires ScanFrom(None, cands, targetRise, targetFall, maxDist).Some?
    ensures var m := ScanFrom(None, cands, targetRise, targetFall, maxDist).value;
            m.dist <= maxDist * 2
            && exists k :: 0 <= k < |cands| && cands[k] == m.entry
                           && m.dist == Distance(cands[k], targetRise, targetFall)
                           && (forall j :: 0 <= j < k ==> Distance(cands[j], targetRise, targetFall) > m.dist)
                           && (forall j :: 0 <= j < |cands| ==> m.dist <= Distance(cands[j], targetRise, targetFall))
  {
    var front := cands[..|cands| - 1];
    var last := cands[|cands| - 1];
    var prior := ScanFrom(None, front, targetRise, targetFall, maxDist);
    var d := Distance(last, targetRise, targetFall);
    assert forall j :: 0 <= j < |front| ==> cands[j] == front[j];
    if (prior.None? || d < prior.value.dist) && d <= maxDist * 2 {
      var k := |cands| - 1;
      assert cands[k] == last;
      if prior.None? {
        ScanFindsNothing(front, targetRise, targetFall, maxDist);
      } else {
        ScanFirstMinimum(front, targetRise, targetFall, maxDist);
      }
    } else {
      ScanFirstMinimum(front, targetRise, targetFall, maxDist);
      var m := prior.value;
      var k :| 0 <= k < |front| && front[k] == m.entry
               && m.dist == Distance(front[k], targetRise, targetFall)
               && (forall j :: 0 <= j < k ==> Distance(front[j], targetRise, targetFall) > m.dist)
               && (forall j :: 0 <= j < |front| ==> m.dist <= Distance(front[j], targetRise, targetFall));
      assert cands[k] == m.entry;
    }
  }

  /** Scanning a concatenation is scanning the second part from where the first left off. */
  lemma {:induction false} ScanFromAppend(best: Option<Match>, a: seq<DelayEntry>, b: seq<DelayEntry>,
                                          targetRise: int, targetFall: int, maxDist: int)
    ensures ScanFrom(best, a + b, targetRise, targetFall, maxDist)
            == ScanFrom(ScanFrom(best, a, targetRise, targetFall, maxDist), b, targetRise, targetFall, maxDist)
  {
    if b == [] {
      assert a + b == a;
    } else {
      var front := b[..|b| - 1];
      ScanFromAppend(best, a, front, targetRise, targetFall, maxDist);
      assert (a + b)[..|a + b| - 1] == a + front;
      assert (a + b)[|a + b| - 1] == b[|b| - 1];
    }
  }

  /** The nested scan of `Nearest` is one scan over the window. */
  lemma {:induction false} NearestScansWindow(entries: seq<DelayEntry>, rs: seq<int>, targetRise: int, targetFall: int, maxDist: int)
    ensures Nearest(entries, rs, targetRise, targetFall, maxDist)
            == ScanFrom(None, Window(entries, rs, targetRise, maxDist), targetRise, targetFall, maxDist)
  {
    if rs != [] {
      var front := rs[..|rs| - 1];
      var r := rs[|rs| - 1];
      NearestScansWindow(entries, front, targetRise, targetFall, maxDist);
      var tail := if Abs(r - targetRise) <= maxDist then Bucket(entries, r) else [];
      ScanFromAppend(None, Window(entries, front, targetRise, maxDist), tail, targetRise, targetFall, maxDist);
    }
  }

  /** The window holds exactly the catalog entries whose rise is listed and within `maxDist` of the target. */
  lemma {:induction false} WindowMembers(entries: seq<DelayEntry>, rs: seq<int>, targetRise: int, maxDist: int, e: DelayEntry)
    ensures e in Window(entries, rs, targetRise, maxDist) <==>
            e in entries && e.rise in rs && Abs(e.rise - targetRise) <= maxDist
  {
    if rs != [] {
      var front := rs[..|rs| - 1];
      var r := rs[|rs| - 1];
      WindowMembers(entries, front, targetRise, maxDist, e);
      BucketMembers(entries, r, e);
      assert rs == front + [r];
    }
  }

  /** Over ascending rise values the window is ordered by rise. */
  lemma {:induction false} WindowAscending(entries: seq<DelayEntry>, rs: seq<int>, targetRise: int, maxDist: int)
    requires Ascending(rs)
    ensures var w := Window(entries, rs, targetRise, maxDist);
            forall i, j :: 0 <= i < j < |w| ==> w[i].rise <= w[j].rise
  {
    if rs != [] {
      var front := rs[..|rs| - 1];
      var r := rs[|rs| - 1];
      WindowAscending(entries, front, targetRise, maxDist);
      var prior := Window(entries, front, targetRise, maxDist);
      var tail := if Abs(r - targetRise) <= maxDist then Bucket(entries, r) else [];
      var w := prior + tail;
      forall k | 0 <= k < |prior| ensures prior[k].rise <= r {
        WindowMembers(entries, front, targetRise, maxDist, prior[k]);
        assert prior[k] in prior;
      }
      forall k | 0 <= k < |tail| ensures tail[k].rise == r {
        assert tail[k] in tail;
        BucketMembers(entries, r, tail[k]);
      }
      forall i, j | 0 <= i < j < |w| ensures w[i].rise <= w[j].rise {
        if j < |prior| {
          assert w[i] == prior[i] && w[j] == prior[j];
        } else if i < |prior| {
          assert w[i] == prior[i] && w[j] == tail[j - |prior|];
        } else {
          assert w[i] == tail[i - |prior|] && w[j] == tail[j - |prior|];
        }
      }
    }
  }

  /** Over the catalog's own rise values, the window is the catalog entries within `maxDist` of the target rise. */
  lemma WindowOfCatalog(entries: seq<DelayEntry>, rs: seq<int>, targetRise: int, maxDist: int, e: DelayEntry)
    requires IsRiseOrder(entries, rs)
    ensures e in Window(entries, rs, targetRise, maxDist) <==>
            e in entries && Abs(e.rise - targetRise) <= maxDist
  {
    WindowMembers(entries, rs, targetRise, maxDist, e);
    if e in entries {
      assert HasRise(entries, e.rise);
    }
  }

  /** Every catalog entry whose rise is within `maxDist` of the target deviates from it by more than twice `maxDist`. */
  predicate NothingWithin(entries: seq<DelayEntry>, targetRise: int, targetFall: int, maxDist: int)
  {
    forall e :: e in entries && Abs(e.rise - targetRise) <= maxDist ==>
      Distance(e, targetRise, targetFall) > maxDist * 2
  }

  /** Nothing is accepted for a target exactly when no catalog entry is near enough to it. */
  lemma NearestNone(entries: seq<DelayEntry>, rs: seq<int>, targetRise: int, targetFall: int, maxDist: int)
    requires IsRiseOrder(entries, rs)
    ensures Nearest(entries, rs, targetRise, targetFall, maxDist).None? <==>
            NothingWithin(entries, targetRise, targetFall, maxDist)
  {
    var w := Window(entries, rs, targetRise, maxDist);
    NearestScansWindow(entries, rs, targetRise, targetFall, maxDist);
    ScanFindsNothing(w, targetRise, targetFall, maxDist);
    forall e | e in entries && Abs(e.rise - targetRise) <= maxDist
      ensures e in w
    {
      WindowOfCatalog(entries, rs, targetRise, maxDist, e);
    }
    forall k | 0 <= k < |w|
      ensures w[k] in entries && Abs(w[k].rise - targetRise) <= maxDist
    {
      WindowOfCatalog(entries, rs, targetRise, maxDist, w[k]);
    }
    if NothingWithin(entries, targetRise, targetFall, maxDist) {
      assert forall k :: 0 <= k < |w| ==> Distance(w[k], targetRise, targetFall) > maxDist * 2;
    } else {
      var e :| e in entries && Abs(e.rise - targetRise) <= maxDist && Distance(e, targetRise, targetFall) <= maxDist * 2;
      var j :| 0 <= j < |w| && w[j] == e;
    }
  }

  /**
   * What is accepted for a target: an entry of the catalog whose rise is within `maxDist`,
   * whose distance is at most twice `maxDist` and no larger than that of any entry in the
   * rise window.
   */
  lemma NearestSpec(entries: seq<DelayEntry>, rs: seq<int>, targetRise: int, targetFall: int, maxDist: int)
    requires IsRiseOrder(entries, rs)
    requires Nearest(entries, rs, targetRise, targetFall, maxDist).Some?
    ensures var m := Nearest(entries, rs, targetRise, targetFall, maxDist).value;
            && m.entry in entries
            && Abs(m.entry.rise - targetRise) <= maxDist
            && m.dist == Distance(m.entry, targetRise, targetFall)
            && m.dist <= maxDist * 2
            && (forall e :: e in entries && Abs(e.rise - targetRise) <= maxDist ==>
                  m.dist <= Distance(e, targetRise, targetFall))
  {
    var w := Window(entries, rs, targetRise, maxDist);
    var n := ScanFrom(None, w, targetRise, targetFall, maxDist);
    NearestScansWindow(entries, rs, targetRise, targetFall, maxDist);
    ScanFirstMinimum(w, targetRise, targetFall, maxDist);
    forall e | e in entries && Abs(e.rise - targetRise) <= maxDist
      ensures e in w
    {
      WindowOfCatalog(entries, rs, targetRise, maxDist, e);
    }
    assert n.value.entry in w;
    WindowOfCatalog(entries, rs, targetRise, maxDist, n.value.entry);
  }

  /**
   * `e` occurs in `s` at a position before which every entry of the same rise is farther
   * than `d` from the target: among entries of its rise, `e` is the first within `d`.
   */
  predicate FirstOfItsRise(s: seq<DelayEntry>, e: DelayEntry, targetRise: int, targetFall: int, d: int)
  {
    exists j :: 0 <= j < |s| && s[j] == e
                && forall i :: 0 <= i < j && s[i].rise == e.rise ==> Distance(s[i], targetRise, targetFall) > d
  }

  /** `e` occurs in the bucket `b` at a position before which every entry is farther than `d`. */
  predicate FirstInBucket(b: seq<DelayEntry>, e: DelayEntry, targetRise: int, targetFall: int, d: int)
  {
    exists p :: 0 <= p < |b| && b[p] == e
                && forall q :: 0 <= q < p ==> Distance(b[q], targetRise, targetFall) > d
  }

  /** Being first of its rise in `s` means being first within `d` in the bucket of that rise. */
  lemma {:induction false} FirstToBucket(s: seq<DelayEntry>, e: DelayEntry, targetRise: int, targetFall: int, d: int)
    requires FirstOfItsRise(s, e, targetRise, targetFall, d)
    ensures FirstInBucket(Bucket(s, e.rise), e, targetRise, targetFall, d)
  {
    var j :| 0 <= j < |s| && s[j] == e
             && forall i :: 0 <= i < j && s[i].rise == e.rise ==> Distance(s[i], targetRise, targetFall) > d;
    var front, last := s[..|s| - 1], s[|s| - 1];
    if j < |front| {
      assert FirstOfItsRise(front, e, targetRise, targetFall, d) by {
        assert front[j] == e;
        assert forall i :: 0 <= i < j ==> front[i] == s[i];
      }
      FirstToBucket(front, e, targetRise, targetFall, d);
      FirstInBucketGrows(Bucket(front, e.rise), if last.rise == e.rise then [last] else [], e, targetRise, targetFall, d);
    } else {
      FirstAtEnd(s, e, targetRise, targetFall, d);
    }
  }

  /** The last entry, with every earlier entry of its rise farther than `d`, is first within `d` in its bucket. */
  lemma FirstAtEnd(s: seq<DelayEntry>, e: DelayEntry, targetRise: int, targetFall: int, d: int)
    requires s != [] && s[|s| - 1] == e
    requires forall i :: 0 <= i < |s| - 1 && s[i].rise == e.rise ==> Distance(s[i], targetRise, targetFall) > d
    ensures FirstInBucket(Bucket(s, e.rise), e, targetRise, targetFall, d)
  {
    var front := s[..|s| - 1];
    var bf := Bucket(front, e.rise);
    var b := Bucket(s, e.rise);
    assert b == bf + [e];
    forall q | 0 <= q < |bf| ensures Distance(b[q], targetRise, targetFall) > d {
      assert bf[q] in bf;
      BucketMembers(front, e.rise, bf[q]);
      var i :| 0 <= i < |front| && front[i] == bf[q];
      assert s[i] == front[i] && b[q] == bf[q];
    }
    assert b[|bf|] == e;
  }

  lemma FirstInBucketGrows(b: seq<DelayEntry>, t: seq<DelayEntry>, e: DelayEntry, targetRise: int, targetFall: int, d: int)
    requires FirstInBucket(b, e, targetRise, targetFall, d)
    ensures FirstInBucket(b + t, e, targetRise, targetFall, d)
  {
    var p :| 0 <= p < |b| && b[p] == e && forall q :: 0 <= q < p ==> Distance(b[q], targetRise, targetFall) > d;
    assert (b + t)[p] == e;
    assert forall q :: 0 <= q < p ==> (b + t)[q] == b[q];
  }

  /** Being first within `d` in the bucket of its rise means being first of its rise in `s`. */
  lemma {:induction false} FirstFromBucket(s: seq<DelayEntry>, e: DelayEntry, targetRise: int, targetFall: int, d: int)
    requires FirstInBucket(Bucket(s, e.rise), e, targetRise, targetFall, d)
    ensures FirstOfItsRise(s, e, targetRise, targetFall, d)
  {
    var b := Bucket(s, e.rise);
    var p :| 0 <= p < |b| && b[p] == e && forall q :: 0 <= q < p ==> Distance(b[q], targetRise, targetFall) > d;
    assert s != [];
    var front, last := s[..|s| - 1], s[|s| - 1];
    var bf := Bucket(front, e.rise);
    assert b == bf + (if last.rise == e.rise then [last] else []);
    if p < |bf| {
      assert FirstInBucket(bf, e, targetRise, targetFall, d) by {
        assert bf[p] == e;
        assert forall q :: 0 <= q < p ==> bf[q] == b[q];
      }
      FirstFromBucket(front, e, targetRise, targetFall, d);
      var j :| 0 <= j < |front| && front[j] == e
               && forall i :: 0 <= i < j && front[i].rise == e.rise ==> Distance(front[i], targetRise, targetFall) > d;
      assert s[j] == e;
      assert forall i :: 0 <= i < j ==> s[i] == front[i];
    } else {
      FirstFromBucketAtEnd(s, e, targetRise, targetFall, d, p);
    }
  }

  lemma FirstFromBucketAtEnd(s: seq<DelayEntry>, e: DelayEntry, targetRise: int, targetFall: int, d: int, p: nat)
    requires s != [] && p == |Bucket(s[..|s| - 1], e.rise)| && p < |Bucket(s, e.rise)| && Bucket(s, e.rise)[p] == e
    requires forall q :: 0 <= q < p ==> Distance(Bucket(s, e.rise)[q], targetRise, targetFall) > d
    ensures FirstOfItsRise(s, e, targetRise, targetFall, d)
  {
    var front := s[..|s| - 1];
    var bf, b := Bucket(front, e.rise), Bucket(s, e.rise);
    assert s[|s| - 1] == e;
    forall i | 0 <= i < |s| - 1 && s[i].rise == e.rise ensures Distance(s[i], targetRise, targetFall) > d {
      assert s[i] == front[i];
      BucketMembers(front, e.rise, front[i]);
      var q :| 0 <= q < |bf| && bf[q] == front[i];
      assert b[q] == bf[q];
    }
  }

  /** Dropping the last of strictly ascending values keeps them strictly ascending, and the last is not among the rest. */
  lemma StrictFront(rs: seq<int>)
    requires StrictlyAscending(rs) && rs != []
    ensures StrictlyAscending(rs[..|rs| - 1])
    ensures rs[|rs| - 1] !in rs[..|rs| - 1]
  {
    var front := rs[..|rs| - 1];
    forall i, j | 0 <= i < j < |front| ensures front[i] < front[j] {
      assert front[i] == rs[i] && front[j] == rs[j];
    }
    forall i | 0 <= i < |front| ensures front[i] != rs[|rs| - 1] {
      assert front[i] == rs[i];
    }
  }

  /** A rise value not listed contributes nothing to the window. */
  lemma WindowWithoutRise(entries: seq<DelayEntry>, rs: seq<int>, targetRise: int, maxDist: int, r0: int)
    requires r0 !in rs
    ensures Bucket(Window(entries, rs, targetRise, maxDist), r0) == []
  {
    var w := Window(entries, rs, targetRise, maxDist);
    var b := Bucket(w, r0);
    if b != [] {
      var x := b[0];
      BucketMembers(w, r0, x);
      WindowMembers(entries, rs, targetRise, maxDist, x);
      assert false;
    }
  }

  /** Over strictly ascending rise values, the window's entries of one listed rise within tolerance are that rise's bucket. */
  lemma {:induction false} WindowBucket(entries: seq<DelayEntry>, rs: seq<int>, targetRise: int, maxDist: int, r0: int)
    requires StrictlyAscending(rs) && r0 in rs && Abs(r0 - targetRise) <= maxDist
    ensures Bucket(Window(entries, rs, targetRise, maxDist), r0) == Bucket(entries, r0)
  {
    var front, last := rs[..|rs| - 1], rs[|rs| - 1];
    var prior := Window(entries, front, targetRise, maxDist);
    var tail := if Abs(last - targetRise) <= maxDist then Bucket(entries, last) else [];
    WindowSplit(entries, rs, targetRise, maxDist);
    BucketAppend(prior, tail, r0);
    StrictFront(rs);
    if last == r0 {
      WindowWithoutRise(entries, front, targetRise, maxDist, r0);
      BucketOfBucket(entries, r0, r0);
      assert Bucket(tail, r0) == Bucket(entries, r0);
    } else {
      var i :| 0 <= i < |rs| && rs[i] == r0;
      assert front[i] == r0;
      WindowBucket(entries, front, targetRise, maxDist, r0);
      BucketOfBucket(entries, last, r0);
      assert Bucket(tail, r0) == [];
    }
  }

  lemma WindowSplit(entries: seq<DelayEntry>, rs: seq<int>, targetRise: int, maxDist: int)
    requires rs != []
    ensures Window(entries, rs, targetRise, maxDist)
            == Window(entries, rs[..|rs| - 1], targetRise, maxDist)
               + (if Abs(rs[|rs| - 1] - targetRise) <= maxDist then Bucket(entries, rs[|rs| - 1]) else [])
  {
  }

  /**
   * The accepted entry is the first, in catalog order, of the entries of its rise within
   * its distance: an earlier entry of the same rise is strictly farther.
   */
  lemma NearestCatalogOrder(entries: seq<DelayEntry>, rs: seq<int>, targetRise: int, targetFall: int, maxDist: int)
    requires IsRiseOrder(entries, rs)
    requires Nearest(entries, rs, targetRise, targetFall, maxDist).Some?
    ensures var m := Nearest(entries, rs, targetRise, targetFall, maxDist).value;
            FirstOfItsRise(entries, m.entry, targetRise, targetFall, m.dist)
  {
    var w := Window(entries, rs, targetRise, maxDist);
    var m := Nearest(entries, rs, targetRise, targetFall, maxDist).value;
    NearestScansWindow(entries, rs, targetRise, targetFall, maxDist);
    ScanFirstMinimum(w, targetRise, targetFall, maxDist);
    assert FirstOfItsRise(w, m.entry, targetRise, targetFall, m.dist);
    assert m.entry in w;
    WindowMembers(entries, rs, targetRise, maxDist, m.entry);
    WindowBucket(entries, rs, targetRise, maxDist, m.entry.rise);
    FirstToBucket(w, m.entry, targetRise, targetFall, m.dist);
    FirstFromBucket(entries, m.entry, targetRise, targetFall, m.dist);
  }

  /**
   * The tie-break among equally near entries within tolerance: the one accepted has the least
   * rise, and among entries of that rise it is the first in catalog order.
   */
  lemma NearestTieBreak(entries: seq<DelayEntry>, rs: seq<int>, targetRise: int, targetFall: int, maxDist: int, e: DelayEntry)
    requires IsRiseOrder(entries, rs)
    requires Nearest(entries, rs, targetRise, targetFall, maxDist).Some?
    requires e in entries && Abs(e.rise - targetRise) <= maxDist
    requires Distance(e, targetRise, targetFall) == Nearest(entries, rs, targetRise, targetFall, maxDist).value.dist
    ensures Nearest(entries, rs, targetRise, targetFall, maxDist).value.entry.rise <= e.rise
    ensures var m := Nearest(entries, rs, targetRise, targetFall, maxDist).value;
            FirstOfItsRise(entries, m.entry, targetRise, targetFall, m.dist)
  {
    NearestCatalogOrder(entries, rs, targetRise, targetFall, maxDist);
    var w := Window(entries, rs, targetRise, maxDist);
    var m := Nearest(entries, rs, targetRise, targetFall, maxDist).value;
    NearestScansWindow(entries, rs, targetRise, targetFall, maxDist);
    ScanFirstMinimum(w, targetRise, targetFall, maxDist);
    WindowAscending(entries, rs, targetRise, maxDist);
    WindowOfCatalog(entries, rs, targetRise, maxDist, e);
    var k :| 0 <= k < |w| && w[k] == m.entry
             && (forall j :: 0 <= j < k ==> Distance(w[j], targetRise, targetFall) > m.dist);
    var j :| 0 <= j < |w| && w[j] == e;
    assert k <= j;
    assert w[k].rise <= w[j].rise;
  }

  /** The step recorded at a chain position is what `Nearest` accepts for that position's target. */
  predicate Matched(entries: seq<DelayEntry>, rs: seq<int>, s: Step, maxDist: int)
  {
    Nearest(entries, rs, s.targetRise, s.targetFall, maxDist)
      == Some(Match(DelayEntry(s.select, s.actualRise, s.actualFall), s.distance))
  }

  /** Position `k` of the chain tail begun at `i` targets position `i + k` of the progression. */
  lemma {:induction false} ExtendTargets(entries: seq<DelayEntry>, rs: seq<int>, startRise: int, seedFall: int, step: int, maxDist: int, i: nat)
    requires i <= MaxChainLength
    ensures forall k :: 0 <= k < |Extend(entries, rs, startRise, seedFall, step, maxDist, i)| ==>
              && Extend(entries, rs, startRise, seedFall, step, maxDist, i)[k].targetRise == Target(startRise, i + k, step)
              && Extend(entries, rs, startRise, seedFall, step, maxDist, i)[k].targetFall == Target(seedFall, i + k, step)
    decreases MaxChainLength - i
  {
    if i < MaxChainLength {
      var targetRise := Target(startRise, i, step);
      var targetFall := Target(seedFall, i, step);
      var c := Extend(entries, rs, startRise, seedFall, step, maxDist, i);
      var n := Nearest(entries, rs, targetRise, targetFall, maxDist);
      if n.Some? {
        var rest := Extend(entries, rs, startRise, seedFall, step, maxDist, i + 1);
        ExtendTargets(entries, rs, startRise, seedFall, step, maxDist, i + 1);
        assert c == [StepAt(targetRise, targetFall, n.value)] + rest;
        forall k | 1 <= k < |c|
          ensures c[k] == rest[k - 1]
          ensures c[k].targetRise == Target(startRise, i + k, step)
          ensures c[k].targetFall == Target(seedFall, i + k, step)
        {
          assert i + 1 + (k - 1) == i + k;
        }
      }
    }
  }

  /**
   * The chain tail begun at `i` stops only at the cap or at a target where nothing is
   * accepted.
   */
  lemma {:induction false} ExtendEnds(entries: seq<DelayEntry>, rs: seq<int>, startRise: int, seedFall: int, step: int, maxDist: int, i: nat)
    requires i <= MaxChainLength
    ensures var n := i + |Extend(entries, rs, startRise, seedFall, step, maxDist, i)|;
            && n <= MaxChainLength
            && (n < MaxChainLength ==>
                  Nearest(entries, rs, Target(startRise, n, step), Target(seedFall, n, step), maxDist).None?)
    decreases MaxChainLength - i
  {
    if i < MaxChainLength {
      var c := Extend(entries, rs, startRise, seedFall, step, maxDist, i);
      var n := Nearest(entries, rs, Target(startRise, i, step), Target(seedFall, i, step), maxDist);
      if n.Some? {
        var rest := Extend(entries, rs, startRise, seedFall, step, maxDist, i + 1);
        ExtendEnds(entries, rs, startRise, seedFall, step, maxDist, i + 1);
        assert |c| == 1 + |rest|;
      } else {
        assert c == [];
      }
    }
  }

  /** Every position of the chain tail records what `Nearest` accepts for that position's target. */
  lemma {:induction false} ExtendMatched(entries: seq<DelayEntry>, rs: seq<int>, startRise: int, seedFall: int, step: int,
                                         maxDist: int, i: nat, k: nat)
    requires k < |Extend(entries, rs, startRise, seedFall, step, maxDist, i)|
    ensures Matched(entries, rs, Extend(entries, rs, startRise, seedFall, step, maxDist, i)[k], maxDist)
    decreases k
  {
    var c := Extend(entries, rs, startRise, seedFall, step, maxDist, i);
    var targetRise := Target(startRise, i, step);
    var targetFall := Target(seedFall, i, step);
    var n := Nearest(entries, rs, targetRise, targetFall, maxDist);
    var rest := Extend(entries, rs, startRise, seedFall, step, maxDist, i + 1);
    assert n.Some? && c == [StepAt(targetRise, targetFall, n.value)] + rest;
    if k > 0 {
      ExtendMatched(entries, rs, startRise, seedFall, step, maxDist, i + 1, k - 1);
      assert c[k] == rest[k - 1];
    }
  }

  /** One position of the chain tail begun at `i`: the accepted entry, or the end of the chain. */
  lemma ExtendUnfold(entries: seq<DelayEntry>, rs: seq<int>, startRise: int, seedFall: int, step: int, maxDist: int, i: nat)
    requires i < MaxChainLength
    ensures var n := Nearest(entries, rs, Target(startRise, i, step), Target(seedFall, i, step), maxDist);
            Extend(entries, rs, startRise, seedFall, step, maxDist, i)
            == if n.None? then []
               else [StepAt(Target(startRise, i, step), Target(seedFall, i, step), n.value)]
                    + Extend(entries, rs, startRise, seedFall, step, maxDist, i + 1)
  {
  }

  /** The chain grown from a non-empty bucket: the seed step, then the tail from position 1. */
  lemma ChainUnfold(entries: seq<DelayEntry>, rs: seq<int>, startRise: int, step: int, maxDist: int, bucket: seq<DelayEntry>)
    requires bucket == Bucket(entries, startRise)
    ensures bucket == [] ==> Chain(entries, rs, startRise, step, maxDist) == []
    ensures bucket != [] ==>
            Chain(entries, rs, startRise, step, maxDist)
            == [Step(startRise, bucket[0].fall, bucket[0].rise, bucket[0].fall, bucket[0].select, 0)]
               + Extend(entries, rs, startRise, bucket[0].fall, step, maxDist, 1)
  {
  }

  /** The tail at the cap is empty. */
  lemma ExtendAtCap(entries: seq<DelayEntry>, rs: seq<int>, startRise: int, seedFall: int, step: int, maxDist: int)
    ensures Extend(entries, rs, startRise, seedFall, step, maxDist, MaxChainLength) == []
  {
  }

  /**
   * One iteration of the chain loop, with the targets written as `base + i * step`: a missing
   * match ends the chain; a match appends its step and leaves the tail from `i + 1` to come.
   */
  lemma ExtendNext(entries: seq<DelayEntry>, rs: seq<int>, startRise: int, seedFall: int, step: int, maxDist: int,
                   i: nat, targetRise: int, targetFall: int, found: Option<Match>, chain: seq<Step>, whole: seq<Step>)
    requires i < MaxChainLength
    requires targetRise == startRise + i * step && targetFall == seedFall + i * step
    requires found == Nearest(entries, rs, targetRise, targetFall, maxDist)
    requires chain + Extend(entries, rs, startRise, seedFall, step, maxDist, i) == whole
    ensures found.None? ==> chain == whole
    ensures found.Some? ==>
            var next := Step(targetRise, targetFall, found.value.entry.rise, found.value.entry.fall,
                             found.value.entry.select, found.value.dist);
            (chain + [next]) + Extend(entries, rs, startRise, seedFall, step, maxDist, i + 1) == whole
  {
    TargetIsProgression(startRise, i, step);
    TargetIsProgression(seedFall, i, step);
    ExtendUnfold(entries, rs, startRise, seedFall, step, maxDist, i);
    if found.None? {
      assert chain + [] == chain;
    }
  }

  /** A chain with a seed is the seed step followed by the tail from position 1. */
  lemma ChainSeed(entries: seq<DelayEntry>, rs: seq<int>, startRise: int, step: int, maxDist: int)
    requires HasRise(entries, startRise)
    ensures Bucket(entries, startRise) != []
    ensures var seed := Bucket(entries, startRise)[0];
            && seed in entries && seed.rise == startRise
            && Chain(entries, rs, startRise, step, maxDist)
               == [Step(startRise, seed.fall, startRise, seed.fall, seed.select, 0)]
                  + Extend(entries, rs, startRise, seed.fall, step, maxDist, 1)
    ensures exists j :: 0 <= j < |entries| && entries[j] == Bucket(entries, startRise)[0]
                        && entries[j].rise == startRise
                        && forall i :: 0 <= i < j ==> entries[i].rise != startRise
  {
    var e0 :| e0 in entries && e0.rise == startRise;
    BucketMembers(entries, startRise, e0);
    var bucket := Bucket(entries, startRise);
    BucketFirst(entries, startRise);
    assert bucket[0] in bucket;
    BucketMembers(entries, startRise, bucket[0]);
  }

  /** Position `k` of a seeded chain targets (startRise + k*step, seed fall + k*step). */
  lemma ChainTargets(entries: seq<DelayEntry>, rs: seq<int>, startRise: int, step: int, maxDist: int, k: nat)
    requires HasRise(entries, startRise)
    requires k < |Chain(entries, rs, startRise, step, maxDist)|
    ensures var c := Chain(entries, rs, startRise, step, maxDist);
            c[k].targetRise == startRise + k * step && c[k].targetFall == c[0].targetFall + k * step
  {
    HasRiseBucket(entries, startRise);
    var seed := Bucket(entries, startRise)[0];
    ChainUnfold(entries, rs, startRise, step, maxDist, Bucket(entries, startRise));
    if k > 0 {
      ExtendTargetAt(entries, rs, startRise, seed.fall, step, maxDist, 1, k - 1);
    }
  }

  /** Position `k` of the tail begun at `i` targets (startRise + (i+k)*step, seedFall + (i+k)*step). */
  lemma ExtendTargetAt(entries: seq<DelayEntry>, rs: seq<int>, startRise: int, seedFall: int, step: int, maxDist: int,
                       i: nat, k: nat)
    requires i <= MaxChainLength
    requires k < |Extend(entries, rs, startRise, seedFall, step, maxDist, i)|
    ensures var s := Extend(entries, rs, startRise, seedFall, step, maxDist, i)[k];
            s.targetRise == startRise + (i + k) * step && s.targetFall == seedFall + (i + k) * step
  {
    ExtendTargets(entries, rs, startRise, seedFall, step, maxDist, i);
    TargetIsProgression(startRise, i + k, step);
    TargetIsProgression(seedFall, i + k, step);
  }

  /** Position `k >= 1` of a chain records what `Nearest` accepts for its target. */
  lemma ChainMatched(entries: seq<DelayEntry>, rs: seq<int>, startRise: int, step: int, maxDist: int, k: nat)
    requires HasRise(entries, startRise)
    requires 1 <= k < |Chain(entries, rs, startRise, step, maxDist)|
    ensures Matched(entries, rs, Chain(entries, rs, startRise, step, maxDist)[k], maxDist)
  {
    HasRiseBucket(entries, startRise);
    ChainUnfold(entries, rs, startRise, step, maxDist, Bucket(entries, startRise));
    var seed := Bucket(entries, startRise)[0];
    var rest := Extend(entries, rs, startRise, seed.fall, step, maxDist, 1);
    ExtendMatched(entries, rs, startRise, seed.fall, step, maxDist, 1, k - 1);
    assert Chain(entries, rs, startRise, step, maxDist)[k] == rest[k - 1];
  }

  /**
   * The tail begun at `i` ends at the cap or at the first target for which every catalog
   * entry within `maxDist` in rise deviates by more than twice `maxDist`.
   */
  lemma ExtendStops(entries: seq<DelayEntry>, rs: seq<int>, startRise: int, seedFall: int, step: int, maxDist: int,
                    i: nat, n: nat)
    requires IsRiseOrder(entries, rs)
    requires i <= MaxChainLength
    requires n == i + |Extend(entries, rs, startRise, seedFall, step, maxDist, i)|
    ensures n <= MaxChainLength
    ensures n < MaxChainLength ==> NothingWithin(entries, startRise + n * step, seedFall + n * step, maxDist)
  {
    ExtendEnds(entries, rs, startRise, seedFall, step, maxDist, i);
    TargetIsProgression(startRise, n, step);
    TargetIsProgression(seedFall, n, step);
    NearestNone(entries, rs, startRise + n * step, seedFall + n * step, maxDist);
  }

  /**
   * A chain has between 1 and 100 positions. One shorter than the cap has no gap left to
   * fill: every catalog entry whose rise is within `maxDist` of the next target of the
   * progression deviates from it by more than twice `maxDist`.
   */
  lemma ChainStops(entries: seq<DelayEntry>, rs: seq<int>, startRise: int, step: int, maxDist: int)
    requires IsRiseOrder(entries, rs)
    requires HasRise(entries, startRise)
    ensures var c := Chain(entries, rs, startRise, step, maxDist);
            && 1 <= |c| <= MaxChainLength
            && (|c| < MaxChainLength ==>
                  NothingWithin(entries, startRise + |c| * step, c[0].targetFall + |c| * step, maxDist))
  {
    HasRiseBucket(entries, startRise);
    var seed := Bucket(entries, startRise)[0];
    ChainUnfold(entries, rs, startRise, step, maxDist, Bucket(entries, startRise));
    ExtendStops(entries, rs, startRise, seed.fall, step, maxDist, 1, |Chain(entries, rs, startRise, step, maxDist)|);
  }

  /**
   * Position `k >= 1` of a chain holds a catalog entry whose rise is within `maxDist` of the
   * target and records its combined deviation, at most twice `maxDist`; no entry in the rise
   * window is nearer, and an equally near one has no smaller rise.
   */
  lemma ChainAccepted(entries: seq<DelayEntry>, rs: seq<int>, startRise: int, step: int, maxDist: int, k: nat)
    requires IsRiseOrder(entries, rs)
    requires HasRise(entries, startRise)
    requires 1 <= k < |Chain(entries, rs, startRise, step, maxDist)|
    ensures var s := Chain(entries, rs, startRise, step, maxDist)[k];
            && DelayEntry(s.select, s.actualRise, s.actualFall) in entries
            && Abs(s.actualRise - s.targetRise) <= maxDist
            && s.distance == Abs(s.actualRise - s.targetRise) + Abs(s.actualFall - s.targetFall)
            && s.distance <= maxDist * 2
            && (forall e :: e in entries && Abs(e.rise - s.targetRise) <= maxDist ==>
                  s.distance <= Distance(e, s.targetRise, s.targetFall))
            && (forall e :: e in entries && Abs(e.rise - s.targetRise) <= maxDist
                            && Distance(e, s.targetRise, s.targetFall) == s.distance ==>
                  s.actualRise <= e.rise)
            && FirstOfItsRise(entries, DelayEntry(s.select, s.actualRise, s.actualFall), s.targetRise, s.targetFall, s.distance)
  {
    var s := Chain(entries, rs, startRise, step, maxDist)[k];
    ChainMatched(entries, rs, startRise, step, maxDist, k);
    NearestSpec(entries, rs, s.targetRise, s.targetFall, maxDist);
    NearestCatalogOrder(entries, rs, s.targetRise, s.targetFall, maxDist);
    forall e | e in entries && Abs(e.rise - s.targetRise) <= maxDist
               && Distance(e, s.targetRise, s.targetFall) == s.distance
      ensures s.actualRise <= e.rise
    {
      NearestTieBreak(entries, rs, s.targetRise, s.targetFall, maxDist, e);
    }
  }

  /** Without an entry of rise `startRise` there is no chain. */
  lemma ChainWithoutSeed(entries: seq<DelayEntry>, rs: seq<int>, startRise: int, step: int, maxDist: int)
    requires !HasRise(entries, startRise)
    ensures Chain(entries, rs, startRise, step, maxDist) == []
  {
    var bucket := Bucket(entries, startRise);
    if bucket != [] {
      assert bucket[0] in bucket;
      BucketMembers(entries, startRise, bucket[0]);
      assert false;
    }
  }

  /**
   * The scan for one target: over the listed rise values in ascending order, skipping those
   * farther than `maxDist` from the target, over each bucket in catalog order, keeping the
   * strictly nearest entry within twice `maxDist`.
   */
  method FindNearest(entries: seq<DelayEntry>, index: map<int, seq<DelayEntry>>, riseValues: seq<int>,
                     targetRise: int, targetFall: int, maxDist: int)
    returns (best: Option<Match>)
    requires IsIndexOf(index, entries)
    ensures best == Nearest(entries, riseValues, targetRise, targetFall, maxDist)
  {
    best := None;
    for j := 0 to |riseValues|
      invariant best == Nearest(entries, riseValues[..j], targetRise, targetFall, maxDist)
    {
      var r := riseValues[j];
      assert riseValues[..j + 1][..j] == riseValues[..j];
      if Abs(r - targetRise) > maxDist {
        continue;
      }
      var bucket := if r in index then index[r] else [];
      ghost var before := best;
      for k := 0 to |bucket|
        invariant best == ScanFrom(before, bucket[..k], targetRise, targetFall, maxDist)
      {
        var e := bucket[k];
        var dist := Distance(e, targetRise, targetFall);
        if (best.None? || dist < best.value.dist) && dist <= maxDist * 2 {
          best := Some(Match(e, dist));
        }
        assert bucket[..k + 1][..k] == bucket[..k];
      }
      assert bucket[..|bucket|] == bucket;
    }
    assert riseValues[..|riseValues|] == riseValues;
  }

  /**
   * Grows the chain for one (start rise, step) pair: the seed, then one position per
   * iteration until the cap or the first target with no accepted entry.
   */
  method BuildChain(entries: seq<DelayEntry>, index: map<int, seq<DelayEntry>>, riseValues: seq<int>,
                    startRise: int, step: int, maxDist: int)
    returns (chain: seq<Step>)
    requires IsIndexOf(index, entries)
    ensures chain == Chain(entries, riseValues, startRise, step, maxDist)
  {
    var bucket := if startRise in index then index[startRise] else [];
    ChainUnfold(entries, riseValues, startRise, step, maxDist, bucket);
    if bucket == [] {
      return [];
    }
    var first := bucket[0];
    chain := GrowChain(entries, index, riseValues, startRise, first, step, maxDist);
  }

  /** The loop of `BuildChain`: the seed step for `first`, followed by the tail from position 1. */
  method GrowChain(entries: seq<DelayEntry>, index: map<int, seq<DelayEntry>>, riseValues: seq<int>,
                   startRise: int, first: DelayEntry, step: int, maxDist: int)
    returns (chain: seq<Step>)
    requires IsIndexOf(index, entries)
    ensures chain == [Step(startRise, first.fall, first.rise, first.fall, first.select, 0)]
                     + Extend(entries, riseValues, startRise, first.fall, step, maxDist, 1)
  {
    chain := [Step(startRise, first.fall, first.rise, first.fall, first.select, 0)];
    ghost var whole := chain + Extend(entries, riseValues, startRise, first.fall, step, maxDist, 1);
    var i := 1;
    while i < MaxChainLength
      invariant 1 <= i <= MaxChainLength
      invariant chain + Extend(entries, riseValues, startRise, first.fall, step, maxDist, i) == whole
    {
      var targetRise := startRise + i * step;
      var targetFall := first.fall + i * step;
      var found := FindNearest(entries, index, riseValues, targetRise, targetFall, maxDist);
      ExtendNext(entries, riseValues, startRise, first.fall, step, maxDist, i, targetRise, targetFall, found, chain, whole);
      if found.None? {
        break;
      }
      var m := found.value;
      var next := Step(targetRise, targetFall, m.entry.rise, m.entry.fall, m.entry.select, m.dist);
      chain := chain + [next];
      i := i + 1;
    }
    ExtendAtCap(entries, riseValues, startRise, first.fall, step, maxDist);
  }
}
