/**
 * Small events worked out against the specification of the matcher: which
 * pairs the greedy rounds select and which of them the cut reports.
 */
module Scenarios {
  import opened Labels
  import opened Greedy
  import opened Cut
  import opened Matching

  /**
   * Two reconstructed jets at distances 0 and 3 from the one generated jet:
   * the single round pairs the first reconstructed jet, and the cut reports
   * that pair, so the second reconstructed jet is left unmatched.
   */
  lemma UnevenSides()
    ensures forall js, gs :: IsGreedy([[0.0], [3.0]], 2, 1, js, gs) && |js| == 1 ==>
              js == [0] && gs == [0]
    ensures forall accepted :: ReportsCut([[0.0], [3.0]], 2, 1, [0], [0], accepted) ==>
              accepted != [] && forall k :: 0 <= k < |accepted| ==> accepted[k] == Match(0, 0, 0.0)
  {
    var d := [[0.0], [3.0]];
    assert LabelsAfter([], 2) == [0, 0] && LabelsAfter([], 1) == [0];
    assert IsClosest(d, [0, 0], [0], 0, 0);
    assert [0][..0] == [];
    assert IsGreedy(d, 2, 1, [0], [0]);
    forall js, gs | IsGreedy(d, 2, 1, js, gs) && |js| == 1
      ensures js == [0] && gs == [0]
    {
      GreedyUnique(d, 2, 1, js, gs, [0], [0]);
    }
    forall accepted | ReportsCut(d, 2, 1, [0], [0], accepted)
      ensures accepted != [] && forall k :: 0 <= k < |accepted| ==> accepted[k] == Match(0, 0, 0.0)
    {
      assert Match(0, 0, 0.0) in accepted;
    }
  }

  /**
   * All four distances equal: the strict comparison keeps the first pair
   * of each scan, so the rounds pair (0, 0) and then (1, 1).
   */
  lemma TieBreak()
    ensures forall js, gs :: IsGreedy([[0.5, 0.5], [0.5, 0.5]], 2, 2, js, gs) && |js| == 2 ==>
              js == [0, 1] && gs == [0, 1]
  {
    var d := [[0.5, 0.5], [0.5, 0.5]];
    assert LabelsAfter([], 2) == [0, 0];
    assert LabelsAfter([0], 2) == [1, 0];
    assert IsClosest(d, [0, 0], [0, 0], 0, 0);
    assert IsClosest(d, [1, 0], [1, 0], 1, 1);
    assert [0, 1][..0] == [] && [0, 1][..1] == [0];
    assert IsGreedy(d, 2, 2, [0, 1], [0, 1]);
    forall js, gs | IsGreedy(d, 2, 2, js, gs) && |js| == 2
      ensures js == [0, 1] && gs == [0, 1]
    {
      GreedyUnique(d, 2, 2, js, gs, [0, 1], [0, 1]);
    }
  }

  /** Total distance of the assignment pairing js[r] with gs[r] for every r. */
  function Cost(d: seq<seq<real>>, js: seq<nat>, gs: seq<nat>): real
    requires |js| == |gs|
    requires forall r :: 0 <= r < |js| ==> js[r] < |d| && gs[r] < |d[js[r]]|
    decreases |js|
  {
    if js == [] then 0.0 else d[js[0]][gs[0]] + Cost(d, js[1..], gs[1..])
  }

  /** Distances of a 2 x 2 event on which the greedy pairing is not the cheapest. */
  const Crossed: seq<seq<real>> := [[0.1, 0.2], [0.2, 0.9]]

  /**
   * The matcher is greedy, not an optimal assignment: here it pairs (0, 0)
   * and (1, 1), whose total distance 1.0 exceeds the 0.4 of pairing (0, 1)
   * and (1, 0).
   */
  lemma GreedyIsNotOptimal()
    ensures forall js, gs :: IsGreedy(Crossed, 2, 2, js, gs) && |js| == 2 ==>
              && js == [0, 1] && gs == [0, 1]
              && Cost(Crossed, js, gs) > Cost(Crossed, [0, 1], [1, 0])
  {
    var d := Crossed;
    assert LabelsAfter([], 2) == [0, 0];
    assert LabelsAfter([0], 2) == [1, 0];
    assert IsClosest(d, [0, 0], [0, 0], 0, 0);
    assert IsClosest(d, [1, 0], [1, 0], 1, 1);
    assert [0, 1][..0] == [] && [0, 1][..1] == [0];
    assert IsGreedy(d, 2, 2, [0, 1], [0, 1]);
    forall js, gs | IsGreedy(d, 2, 2, js, gs) && |js| == 2
      ensures js == [0, 1] && gs == [0, 1]
    {
      GreedyUnique(d, 2, 2, js, gs, [0, 1], [0, 1]);
    }
  }

  /**
   * One jet on each side at distance 1.5: the round pairs them, the cut
   * rejects the pair, and nothing is reported as accepted.
   */
  lemma RejectedPair()
    ensures forall js, gs, accepted :: |js| == 1 && ReportsCut([[1.5]], 1, 1, js, gs, accepted) ==>
              accepted == []
  {
    var d := [[1.5]];
    forall js, gs, accepted | |js| == 1 && ReportsCut(d, 1, 1, js, gs, accepted)
      ensures accepted == []
    {
      assert js == [0] && gs == [0];
      AllEqualContains(accepted, Match(0, 0, 1.5));
    }
  }

  /** A non-empty sequence whose every element is m contains m. */
  lemma AllEqualContains(s: seq<Match>, m: Match)
    requires forall k :: 0 <= k < |s| ==> s[k] == m
    ensures s != [] ==> m in s
  {
    if s != [] {
      assert s[0] == m;
    }
  }
}
