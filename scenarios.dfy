/** A worked example: four catalog entries searched with step 8 and tolerance 3. */
module Scenarios {
  import opened Catalog
  import opened RiseIndex
  import opened SequenceBuilder
  import opened SearchDriver

  function Sample(): seq<DelayEntry>
  {
    [DelayEntry("A", 10, 12), DelayEntry("B", 18, 20), DelayEntry("C", 26, 29), DelayEntry("D", 50, 999)]
  }

  function SampleResult(): seq<Step>
  {
    [Step(10, 12, 10, 12, "A", 0), Step(18, 20, 18, 20, "B", 0), Step(26, 28, 26, 29, "C", 1)]
  }

  lemma SampleRises()
    ensures RiseValues(Sample()) == [10, 18, 26, 50]
  {
    var a, b, c, d := DelayEntry("A", 10, 12), DelayEntry("B", 18, 20), DelayEntry("C", 26, 29), DelayEntry("D", 50, 999);
    assert DistinctRises([a]) == [10] by { assert [a][..0] == []; }
    assert DistinctRises([a, b]) == [10, 18] by { assert [a, b][..1] == [a]; }
    assert DistinctRises([a, b, c]) == [10, 18, 26] by { assert [a, b, c][..2] == [a, b]; }
    assert DistinctRises([a, b, c, d]) == [10, 18, 26, 50] by { assert [a, b, c, d][..3] == [a, b, c]; }
    SortSorted([10, 18, 26, 50]);
  }

  lemma SampleBuckets()
    ensures Bucket(Sample(), 10) == [DelayEntry("A", 10, 12)]
    ensures Bucket(Sample(), 18) == [DelayEntry("B", 18, 20)]
    ensures Bucket(Sample(), 26) == [DelayEntry("C", 26, 29)]
    ensures Bucket(Sample(), 50) == [DelayEntry("D", 50, 999)]
  {
    var a, b, c, d := DelayEntry("A", 10, 12), DelayEntry("B", 18, 20), DelayEntry("C", 26, 29), DelayEntry("D", 50, 999);
    assert Sample() == [a] + [b] + [c] + [d];
    forall r ensures Bucket(Sample(), r) == (if r == 10 then [a] else []) + (if r == 18 then [b] else [])
                                           + (if r == 26 then [c] else []) + (if r == 50 then [d] else [])
    {
      assert ([] + [a])[..0] == [];
      BucketSnoc([], a, r);
      BucketSnoc([a], b, r);
      BucketSnoc([a] + [b], c, r);
      BucketSnoc([a] + [b] + [c], d, r);
    }
  }

  lemma BucketSnoc(entries: seq<DelayEntry>, e: DelayEntry, r: int)
    ensures Bucket(entries + [e], r) == Bucket(entries, r) + (if e.rise == r then [e] else [])
  {
    assert (entries + [e])[..|entries|] == entries;
  }

  /** The nearest entry to each target the sample's chains ask about. */
  lemma SampleNearest()
    ensures Nearest(Sample(), [10, 18, 26, 50], 18, 20, 3) == Some(Match(DelayEntry("B", 18, 20), 0))
    ensures Nearest(Sample(), [10, 18, 26, 50], 26, 28, 3) == Some(Match(DelayEntry("C", 26, 29), 1))
    ensures Nearest(Sample(), [10, 18, 26, 50], 34, 36, 3) == None
    ensures Nearest(Sample(), [10, 18, 26, 50], 34, 37, 3) == None
    ensures Nearest(Sample(), [10, 18, 26, 50], 58, 1007, 3) == None
  {
    SampleBuckets();
    var b, c := DelayEntry("B", 18, 20), DelayEntry("C", 26, 29);
    assert [b][..0] == [] && [c][..0] == [];
    forall tr, tf ensures Nearest(Sample(), [10, 18, 26, 50], tr, tf, 3) == SampleNearestUnrolled(tr, tf) {
      NearestUnrolled(Sample(), tr, tf);
    }
  }

  /** `Nearest` over the sample's four rise values, written out. */
  function SampleNearestUnrolled(tr: int, tf: int): Option<Match>
  {
    var n1 := if Abs(10 - tr) > 3 then None else ScanFrom(None, Bucket(Sample(), 10), tr, tf, 3);
    var n2 := if Abs(18 - tr) > 3 then n1 else ScanFrom(n1, Bucket(Sample(), 18), tr, tf, 3);
    var n3 := if Abs(26 - tr) > 3 then n2 else ScanFrom(n2, Bucket(Sample(), 26), tr, tf, 3);
    if Abs(50 - tr) > 3 then n3 else ScanFrom(n3, Bucket(Sample(), 50), tr, tf, 3)
  }

  lemma NearestUnrolled(entries: seq<DelayEntry>, tr: int, tf: int)
    requires entries == Sample()
    ensures Nearest(entries, [10, 18, 26, 50], tr, tf, 3) == SampleNearestUnrolled(tr, tf)
  {
    var n1 := if Abs(10 - tr) > 3 then None else ScanFrom(None, Bucket(entries, 10), tr, tf, 3);
    var n2 := if Abs(18 - tr) > 3 then n1 else ScanFrom(n1, Bucket(entries, 18), tr, tf, 3);
    var n3 := if Abs(26 - tr) > 3 then n2 else ScanFrom(n2, Bucket(entries, 26), tr, tf, 3);
    assert [10][..0] == [];
    assert Nearest(entries, [10], tr, tf, 3) == n1;
    assert [10, 18][..1] == [10];
    assert Nearest(entries, [10, 18], tr, tf, 3) == n2;
    assert [10, 18, 26][..2] == [10, 18];
    assert Nearest(entries, [10, 18, 26], tr, tf, 3) == n3;
    assert [10, 18, 26, 50][..3] == [10, 18, 26];
  }

  /** The chains with step 8 from each of the sample's rise values. */
  lemma SampleChains()
    ensures Chain(Sample(), [10, 18, 26, 50], 10, 8, 3) == SampleResult()
    ensures |Chain(Sample(), [10, 18, 26, 50], 18, 8, 3)| == 2
    ensures |Chain(Sample(), [10, 18, 26, 50], 26, 8, 3)| == 1
    ensures |Chain(Sample(), [10, 18, 26, 50], 50, 8, 3)| == 1
  {
    var cat, rs := Sample(), [10, 18, 26, 50];
    SampleBuckets();
    SampleNearest();
    assert Target(10, 1, 8) == 18 && Target(10, 2, 8) == 26 && Target(10, 3, 8) == 34;
    assert Target(12, 1, 8) == 20 && Target(12, 2, 8) == 28 && Target(12, 3, 8) == 36;
    assert Extend(cat, rs, 10, 12, 8, 3, 3) == [];
    assert Extend(cat, rs, 10, 12, 8, 3, 2) == [Step(26, 28, 26, 29, "C", 1)];
    assert Extend(cat, rs, 10, 12, 8, 3, 1) == [Step(18, 20, 18, 20, "B", 0), Step(26, 28, 26, 29, "C", 1)];
    assert Target(18, 1, 8) == 26 && Target(18, 2, 8) == 34;
    assert Target(20, 1, 8) == 28 && Target(20, 2, 8) == 36;
    assert Extend(cat, rs, 18, 20, 8, 3, 2) == [];
    assert |Extend(cat, rs, 18, 20, 8, 3, 1)| == 1;
    assert Target(26, 1, 8) == 34 && Target(29, 1, 8) == 37;
    assert Extend(cat, rs, 26, 29, 8, 3, 1) == [];
    assert Target(50, 1, 8) == 58 && Target(999, 1, 8) == 1007;
    assert Extend(cat, rs, 50, 999, 8, 3, 1) == [];
  }

  /** The search over the sample with step 8 and tolerance 3 returns the chain from rise 10. */
  lemma SampleSearch()
    ensures BestSequence(Sample(), 8, 8, 3) == SampleResult()
  {
    SampleRises();
    SampleChains();
    SampleStarts(ChainOf(Sample(), [10, 18, 26, 50], 3), SampleResult());
  }

  /** Selection over the sample's four start rises, whatever the chains are beyond their lengths. */
  lemma SampleStarts(chainOf: (int, int) -> seq<Step>, longest: seq<Step>)
    requires chainOf(10, 8) == longest && |longest| == 3
    requires |chainOf(18, 8)| == 2 && |chainOf(26, 8)| == 1 && |chainOf(50, 8)| == 1
    ensures BestStarts(chainOf, [10, 18, 26, 50], 8, 8) == longest
  {
    var rs := [10, 18, 26, 50];
    assert rs[..3] == [10, 18, 26] && rs[..3][..2] == [10, 18] && rs[..3][..2][..1] == [10] && rs[..3][..2][..1][..0] == [];
    assert BestStarts(chainOf, [10], 8, 8) == longest;
    assert BestStarts(chainOf, [10, 18], 8, 8) == longest;
    assert BestStarts(chainOf, [10, 18, 26], 8, 8) == longest;
  }

  /**
   * A catalog of one entry does not always give a chain of one: with a step no larger than
   * the tolerance the lone entry is accepted again for the next targets.
   */
  lemma LoneEntryRepeats()
    ensures BestSequence([DelayEntry("X", 20, 20)], 1, 1, 3)
            == [Step(20, 20, 20, 20, "X", 0), Step(21, 21, 20, 20, "X", 2),
                Step(22, 22, 20, 20, "X", 4), Step(23, 23, 20, 20, "X", 6)]
  {
    var cat, rs := [Lone()], [20];
    LoneIndex();
    forall tr, tf ensures Nearest(cat, rs, tr, tf, 3)
                          == if Abs(20 - tr) > 3 then None else Consider(None, Lone(), tr, tf, 3)
    {
      LoneNearest(tr, tf);
    }
    assert Target(20, 1, 1) == 21 && Target(20, 2, 1) == 22 && Target(20, 3, 1) == 23 && Target(20, 4, 1) == 24;
    assert Extend(cat, rs, 20, 20, 1, 3, 4) == [];
    assert Extend(cat, rs, 20, 20, 1, 3, 3) == [Step(23, 23, 20, 20, "X", 6)];
    assert Extend(cat, rs, 20, 20, 1, 3, 2) == [Step(22, 22, 20, 20, "X", 4), Step(23, 23, 20, 20, "X", 6)];
    var chainOf := ChainOf(cat, rs, 3);
    assert BestStarts(chainOf, rs, 1, 1) == Pick([], chainOf(20, 1));
  }

  /**
   * For the one-entry catalog, the chain stops after the seed exactly when the step, in either
   * direction, exceeds the tolerance.
   */
  lemma LoneChainSingle(step: int)
    ensures |Chain([Lone()], [20], 20, step, 3)| == 1 <==> Abs(step) > 3
  {
    LoneIndex();
    var t := Target(20, 1, step);
    TargetIsProgression(20, 1, step);
    LoneNearest(t, t);
    assert Chain([Lone()], [20], 20, step, 3) == [Step(20, 20, 20, 20, "X", 0)] + Extend([Lone()], [20], 20, 20, step, 3, 1);
  }

  function Lone(): DelayEntry
  {
    DelayEntry("X", 20, 20)
  }

  lemma LoneIndex()
    ensures RiseValues([Lone()]) == [20]
    ensures Bucket([Lone()], 20) == [Lone()]
  {
    assert [Lone()][..0] == [];
    assert DistinctRises([Lone()]) == [20];
    assert [20][..0] == [];
  }

  lemma LoneNearest(tr: int, tf: int)
    ensures Nearest([Lone()], [20], tr, tf, 3) == if Abs(20 - tr) > 3 then None else Consider(None, Lone(), tr, tf, 3)
  {
    LoneIndex();
    var rs, cands := [20], [Lone()];
    assert rs[..|rs| - 1] == [] && rs[|rs| - 1] == 20;
    assert cands[..|cands| - 1] == [] && cands[|cands| - 1] == Lone();
    assert ScanFrom(None, cands, tr, tf, 3) == Consider(None, Lone(), tr, tf, 3);
  }

  /** Two cells with the same rise, equally near the target (20, 12) at tolerance 3. */
  function Twins(): seq<DelayEntry>
  {
    [DelayEntry("P", 20, 10), DelayEntry("Q", 20, 14)]
  }

  lemma TwinIndex()
    ensures RiseValues(Twins()) == [20]
    ensures Bucket(Twins(), 20) == Twins()
  {
    var cat := Twins();
    assert cat[..1][..0] == [];
    assert DistinctRises(cat[..1]) == [20];
    assert DistinctRises(cat) == [20];
    assert [20][..0] == [];
    assert Bucket(cat[..1], 20) == cat[..1];
    assert cat == cat[..1] + [cat[1]];
  }

  /** The first of two equally near cells of the same rise is accepted. */
  lemma TwinRiseTie()
    ensures RiseValues(Twins()) == [20]
    ensures Nearest(Twins(), [20], 20, 12, 3) == Some(Match(Twins()[0], 2))
  {
    TwinIndex();
    var cat, rs := Twins(), [20];
    assert rs[..|rs| - 1] == [] && rs[|rs| - 1] == 20;
    assert cat[..1][..0] == [];
    assert ScanFrom(None, cat[..1], 20, 12, 3) == Some(Match(cat[0], 2));
    assert cat[..|cat| - 1] == cat[..1];
  }
}
