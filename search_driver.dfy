/**
 * The search driver: every (start rise, step) pair in enumeration order, keeping the first
 * longest chain.
 */
module SearchDriver {
  import opened Catalog
  import opened RiseIndex
  import opened SequenceBuilder

  /** The longer of the best chain so far and a new one; on a tie the earlier one stays. */
  function Pick(best: seq<Step>, candidate: seq<Step>): seq<Step>
  {
    if |candidate| > |best| then candidate else best
  }

  /** The best chain after trying steps `lo .. hi - 1`, in increasing order, for start rise `r`. */
  function BestSteps(chainOf: (int, int) -> seq<Step>, best: seq<Step>, r: int, lo: int, hi: int): seq<Step>
    decreases hi - lo
  {
    if hi <= lo then best
    else Pick(BestSteps(chainOf, best, r, lo, hi - 1), chainOf(r, hi - 1))
  }

  /** The best chain after trying every start rise of `starts`, in order, with every step of `minStep .. maxStep`. */
  function BestStarts(chainOf: (int, int) -> seq<Step>, starts: seq<int>, minStep: int, maxStep: int): seq<Step>
  {
    if starts == [] then []
    else
      BestSteps(chainOf, BestStarts(chainOf, starts[..|starts| - 1], minStep, maxStep),
                starts[|starts| - 1], minStep, maxStep + 1)
  }

  /** The chain builder over a catalog, as a function of (start rise, step). */
  function ChainOf(entries: seq<DelayEntry>, rs: seq<int>, maxDist: int): (int, int) -> seq<Step>
  {
    (r, step) => Chain(entries, rs, r, step, maxDist)
  }

  /** The result of the whole search. */
  function BestSequence(entries: seq<DelayEntry>, minStep: int, maxStep: int, maxDist: int): seq<Step>
  {
    var rs := RiseValues(entries);
    BestStarts(ChainOf(entries, rs, maxDist), rs, minStep, maxStep)
  }

  /** Trying more steps never shortens the best chain, and the best is at least as long as every chain tried. */
  lemma {:induction false} StepsDominate(chainOf: (int, int) -> seq<Step>, best: seq<Step>, r: int, lo: int, hi: int)
    ensures |best| <= |BestSteps(chainOf, best, r, lo, hi)|
    ensures forall s :: lo <= s < hi ==> |chainOf(r, s)| <= |BestSteps(chainOf, best, r, lo, hi)|
    decreases hi - lo
  {
    if lo < hi {
      StepsDominate(chainOf, best, r, lo, hi - 1);
    }
  }

  /**
   * The best chain after a run of steps is the one it started from, or the chain of the
   * first step that beats it and every earlier step of the run.
   */
  lemma {:induction false} StepsFirst(chainOf: (int, int) -> seq<Step>, best: seq<Step>, r: int, lo: int, hi: int)
    ensures var b := BestSteps(chainOf, best, r, lo, hi);
            b == best
            || exists s :: lo <= s < hi && b == chainOf(r, s) && |best| < |b|
                           && forall t :: lo <= t < s ==> |chainOf(r, t)| < |b|
    decreases hi - lo
  {
    if lo < hi {
      StepsFirst(chainOf, best, r, lo, hi - 1);
      StepsDominate(chainOf, best, r, lo, hi - 1);
      var prior := BestSteps(chainOf, best, r, lo, hi - 1);
      var b := BestSteps(chainOf, best, r, lo, hi);
      if |chainOf(r, hi - 1)| > |prior| {
        assert b == chainOf(r, hi - 1);
        assert forall t :: lo <= t < hi - 1 ==> |chainOf(r, t)| < |b|;
      }
    }
  }

  /** The best chain is at least as long as the chain of every (start rise, step) pair tried. */
  lemma {:induction false} StartsDominate(chainOf: (int, int) -> seq<Step>, starts: seq<int>, minStep: int, maxStep: int)
    ensures forall j, s :: 0 <= j < |starts| && minStep <= s <= maxStep ==>
              |chainOf(starts[j], s)| <= |BestStarts(chainOf, starts, minStep, maxStep)|
  {
    if starts != [] {
      var front := starts[..|starts| - 1];
      var prior := BestStarts(chainOf, front, minStep, maxStep);
      StartsDominate(chainOf, front, minStep, maxStep);
      StepsDominate(chainOf, prior, starts[|starts| - 1], minStep, maxStep + 1);
      forall j, s | 0 <= j < |starts| && minStep <= s <= maxStep
        ensures |chainOf(starts[j], s)| <= |BestStarts(chainOf, starts, minStep, maxStep)|
      {
        if j < |front| {
          assert starts[j] == front[j];
        }
      }
    }
  }

  /** Pair `(j', t)` comes before pair `(j, s)` in the enumeration: an earlier start, or the same start and a smaller step. */
  predicate Before(j': int, t: int, j: int, s: int, minStep: int, maxStep: int)
  {
    (0 <= j' < j && minStep <= t <= maxStep) || (j' == j && minStep <= t < s)
  }

  /**
   * The best chain is empty or the chain of some pair tried that is strictly longer than
   * the chain of every pair before it: the first longest chain of the enumeration.
   */
  lemma {:induction false} StartsFirst(chainOf: (int, int) -> seq<Step>, starts: seq<int>, minStep: int, maxStep: int)
    ensures var b := BestStarts(chainOf, starts, minStep, maxStep);
            b == []
            || exists j, s :: 0 <= j < |starts| && minStep <= s <= maxStep && b == chainOf(starts[j], s)
                              && forall j', t :: Before(j', t, j, s, minStep, maxStep) ==> |chainOf(starts[j'], t)| < |b|
  {
    if starts != [] {
      var front := starts[..|starts| - 1];
      var last := |starts| - 1;
      var prior := BestStarts(chainOf, front, minStep, maxStep);
      var b := BestStarts(chainOf, starts, minStep, maxStep);
      assert forall j :: 0 <= j < |front| ==> starts[j] == front[j];
      StartsFirst(chainOf, front, minStep, maxStep);
      StartsDominate(chainOf, front, minStep, maxStep);
      StepsFirst(chainOf, prior, starts[last], minStep, maxStep + 1);
      if b != prior {
        var s :| minStep <= s < maxStep + 1 && b == chainOf(starts[last], s) && |prior| < |b|
                 && forall t :: minStep <= t < s ==> |chainOf(starts[last], t)| < |b|;
        forall j', t | Before(j', t, last, s, minStep, maxStep)
          ensures |chainOf(starts[j'], t)| < |b|
        {
          if j' < last {
            assert |chainOf(front[j'], t)| <= |prior|;
          }
        }
        assert b == chainOf(starts[last], s);
      } else if b != [] {
        var j, s :| 0 <= j < |front| && minStep <= s <= maxStep && prior == chainOf(front[j], s)
                    && forall j', t :: Before(j', t, j, s, minStep, maxStep) ==> |chainOf(front[j'], t)| < |prior|;
        forall j', t | Before(j', t, j, s, minStep, maxStep)
          ensures |chainOf(starts[j'], t)| < |b|
        {
          assert starts[j'] == front[j'];
        }
        assert b == chainOf(starts[j], s);
      }
    }
  }

  /** With no step to try, nothing is ever picked. */
  lemma {:induction false} StartsWithoutSteps(chainOf: (int, int) -> seq<Step>, starts: seq<int>, minStep: int, maxStep: int)
    requires maxStep < minStep
    ensures BestStarts(chainOf, starts, minStep, maxStep) == []
  {
    if starts != [] {
      StartsWithoutSteps(chainOf, starts[..|starts| - 1], minStep, maxStep);
    }
  }

  /** An empty catalog yields an empty result. */
  lemma EmptyCatalog(minStep: int, maxStep: int, maxDist: int)
    ensures BestSequence([], minStep, maxStep, maxDist) == []
  {
    assert RiseValues([]) == [];
  }

  /** An empty step range yields an empty result. */
  lemma EmptyStepRange(entries: seq<DelayEntry>, minStep: int, maxStep: int, maxDist: int)
    requires maxStep < minStep
    ensures BestSequence(entries, minStep, maxStep, maxDist) == []
  {
    StartsWithoutSteps(ChainOf(entries, RiseValues(entries), maxDist), RiseValues(entries), minStep, maxStep);
  }

  /** Over the catalog's own rise values, every chain tried has at least one position, so the best one does. */
  lemma SearchFindsSeed(entries: seq<DelayEntry>, rs: seq<int>, minStep: int, maxStep: int, maxDist: int)
    requires IsRiseOrder(entries, rs)
    requires entries != [] && minStep <= maxStep
    ensures |BestStarts(ChainOf(entries, rs, maxDist), rs, minStep, maxStep)| >= 1
  {
    var chainOf := ChainOf(entries, rs, maxDist);
    assert entries[0] in entries;
    assert HasRise(entries, entries[0].rise);
    var j :| 0 <= j < |rs| && rs[j] == entries[0].rise;
    StartsDominate(chainOf, rs, minStep, maxStep);
    assert |chainOf(rs[j], minStep)| <= |BestStarts(chainOf, rs, minStep, maxStep)|;
    ChainStops(entries, rs, rs[j], minStep, maxDist);
  }

  /** A non-empty catalog and a non-empty step range yield a chain of at least one position. */
  lemma NonEmptyResult(entries: seq<DelayEntry>, minStep: int, maxStep: int, maxDist: int)
    requires entries != [] && minStep <= maxStep
    ensures |BestSequence(entries, minStep, maxStep, maxDist)| >= 1
  {
    RiseValuesSpec(entries);
    SearchFindsSeed(entries, RiseValues(entries), minStep, maxStep, maxDist);
  }

  /** No chain from a rise value of the catalog with a step in range is longer than the result. */
  lemma ResultIsLongest(entries: seq<DelayEntry>, minStep: int, maxStep: int, maxDist: int, r: int, step: int)
    requires HasRise(entries, r) && minStep <= step <= maxStep
    ensures |Chain(entries, RiseValues(entries), r, step, maxDist)| <= |BestSequence(entries, minStep, maxStep, maxDist)|
  {
    var rs := RiseValues(entries);
    RiseValuesSpec(entries);
    var j :| 0 <= j < |rs| && rs[j] == r;
    StartsDominate(ChainOf(entries, rs, maxDist), rs, minStep, maxStep);
    assert ChainOf(entries, rs, maxDist)(rs[j], step) == Chain(entries, rs, r, step, maxDist);
  }

  /**
   * Over the catalog's own rise values, the best chain is the chain of some rise value and
   * step in range that is strictly longer than the chain of every pair enumerated before it:
   * a smaller start rise with any step in range, or the same start rise with a smaller step.
   */
  lemma SearchFirstLongest(entries: seq<DelayEntry>, rs: seq<int>, minStep: int, maxStep: int, maxDist: int)
    requires IsRiseOrder(entries, rs)
    requires entries != [] && minStep <= maxStep
    ensures var b := BestStarts(ChainOf(entries, rs, maxDist), rs, minStep, maxStep);
            exists r, step :: HasRise(entries, r) && minStep <= step <= maxStep && b == Chain(entries, rs, r, step, maxDist)
                              && forall r', t :: HasRise(entries, r')
                                                 && ((r' < r && minStep <= t <= maxStep) || (r' == r && minStep <= t < step)) ==>
                                                   |Chain(entries, rs, r', t, maxDist)| < |b|
  {
    var chainOf := ChainOf(entries, rs, maxDist);
    var b := BestStarts(chainOf, rs, minStep, maxStep);
    SearchFindsSeed(entries, rs, minStep, maxStep, maxDist);
    StartsFirst(chainOf, rs, minStep, maxStep);
    var j, step :| 0 <= j < |rs| && minStep <= step <= maxStep && b == chainOf(rs[j], step)
                   && forall j', t :: Before(j', t, j, step, minStep, maxStep) ==> |chainOf(rs[j'], t)| < |b|;
    assert rs[j] in rs;
    forall r', t | HasRise(entries, r') && ((r' < rs[j] && minStep <= t <= maxStep) || (r' == rs[j] && minStep <= t < step))
      ensures |Chain(entries, rs, r', t, maxDist)| < |b|
    {
      var j' :| 0 <= j' < |rs| && rs[j'] == r';
      if r' < rs[j] {
        assert j' < j;
      } else {
        assert j' == j;
      }
      assert Before(j', t, j, step, minStep, maxStep);
    }
  }

  /** The result is the first longest chain, over the catalog's rise values in ascending order and steps in increasing order. */
  lemma ResultIsFirstLongest(entries: seq<DelayEntry>, minStep: int, maxStep: int, maxDist: int)
    requires entries != [] && minStep <= maxStep
    ensures var rs := RiseValues(entries);
            var b := BestSequence(entries, minStep, maxStep, maxDist);
            exists r, step :: HasRise(entries, r) && minStep <= step <= maxStep && b == Chain(entries, rs, r, step, maxDist)
                              && forall r', t :: HasRise(entries, r')
                                                 && ((r' < r && minStep <= t <= maxStep) || (r' == r && minStep <= t < step)) ==>
                                                   |Chain(entries, rs, r', t, maxDist)| < |b|
  {
    RiseValuesSpec(entries);
    SearchFirstLongest(entries, RiseValues(entries), minStep, maxStep, maxDist);
  }

  /**
   * The whole search: build the index, then for every start rise in ascending order and
   * every step from `minStep` to `maxStep`, build the chain and keep it if it is strictly
   * longer than the best so far. The defaults are those of the source (steps 8 to 30,
   * tolerance 3).
   */
  method FindBestSequenceGreedy(entries: seq<DelayEntry>, minStep: int := 8, maxStep: int := 30, maxDist: int := 3)
    returns (best: seq<Step>)
    ensures best == BestSequence(entries, minStep, maxStep, maxDist)
  {
    var index, riseValues := BuildRiseIndex(entries);
    best := [];
    for si := 0 to |riseValues|
      invariant best == BestStarts(ChainOf(entries, riseValues, maxDist), riseValues[..si], minStep, maxStep)
    {
      assert riseValues[..si + 1][..si] == riseValues[..si];
      best := TrySteps(entries, index, riseValues, riseValues[si], minStep, maxStep, maxDist, best);
    }
    assert riseValues[..|riseValues|] == riseValues;
  }

  /** The inner loop of the search: every step from `minStep` to `maxStep` for one start rise. */
  method TrySteps(entries: seq<DelayEntry>, index: map<int, seq<DelayEntry>>, riseValues: seq<int>,
                  startRise: int, minStep: int, maxStep: int, maxDist: int, bestSoFar: seq<Step>)
    returns (best: seq<Step>)
    requires IsIndexOf(index, entries)
    ensures best == BestSteps(ChainOf(entries, riseValues, maxDist), bestSoFar, startRise, minStep, maxStep + 1)
  {
    ghost var chainOf := ChainOf(entries, riseValues, maxDist);
    best := bestSoFar;
    var stop := if maxStep < minStep then minStep else maxStep + 1;
    for step := minStep to stop
      invariant best == BestSteps(chainOf, bestSoFar, startRise, minStep, step)
    {
      var sequence := TryChain(entries, index, riseValues, startRise, step, maxDist);
      StepsNext(chainOf, bestSoFar, startRise, minStep, step, sequence);
      if |sequence| > |best| {
        best := sequence;
      }
    }
  }

  lemma StepsNext(chainOf: (int, int) -> seq<Step>, bestSoFar: seq<Step>, r: int, lo: int, hi: int,
                  candidate: seq<Step>)
    requires lo <= hi && candidate == chainOf(r, hi)
    ensures BestSteps(chainOf, bestSoFar, r, lo, hi + 1) == Pick(BestSteps(chainOf, bestSoFar, r, lo, hi), candidate)
  {
  }

  /** One chain of the search, stated through `ChainOf`. */
  method TryChain(entries: seq<DelayEntry>, index: map<int, seq<DelayEntry>>, riseValues: seq<int>,
                  startRise: int, step: int, maxDist: int)
    returns (chain: seq<Step>)
    requires IsIndexOf(index, entries)
    ensures chain == ChainOf(entries, riseValues, maxDist)(startRise, step)
  {
    chain := BuildChain(entries, index, riseValues, startRise, step, maxDist);
  }
}
