/**
 * Phase 1 of the per-event jet matcher: greedy nearest-pair matching.
 *
 * Reconstructed jets are indexed by i < J and generated jets by j < G; the
 * angular distance of the pair (i, j) is the input d[i][j]. Each round scans
 * all pairs whose two labels are still 0, in i-major, j-minor order, keeps
 * the first pair of smallest distance (strict comparison), and stamps both
 * jets with the round number. The loop runs while both side counters, which
 * drop by one per round, are non-zero.
 */
module Greedy {
  import opened Labels

  /** Initial value of the running minimum distance of a round's scan. */
  const SentinelDistance: real := 999.0

  /** Initial value of the two indices a round's scan selects. */
  const SentinelIndex: int := 999

  /** `d` holds one distance per (reconstructed, generated) pair. */
  predicate IsMatrix(d: seq<seq<real>>, rows: nat, cols: nat)
  {
    |d| == rows && forall i :: 0 <= i < rows ==> |d[i]| == cols
  }

  /** Every distance lies below the scan's sentinel. */
  predicate BelowSentinel(d: seq<seq<real>>)
  {
    forall i, j :: 0 <= i < |d| && 0 <= j < |d[i]| ==> d[i][j] < SentinelDistance
  }

  function Min(a: nat, b: nat): nat
  {
    if a < b then a else b
  }

  /** Object x has not been paired yet: its label is below 1. */
  predicate Free(l: seq<int>, x: int)
  {
    0 <= x < |l| && l[x] < 1
  }

  /** Pair (i', j') comes before pair (i, j) in the scan's i-major, j-minor order. */
  predicate Earlier(i': int, j': int, i: int, j: int)
  {
    i' < i || (i' == i && j' < j)
  }

  /**
   * (i, j) is the pair a round selects under labels jl, gl: both free, its
   * distance no larger than that of any free pair, and strictly smaller than
   * that of every free pair scanned before it.
   */
  ghost predicate IsClosest(d: seq<seq<real>>, jl: seq<int>, gl: seq<int>, i: int, j: int)
  {
    && IsMatrix(d, |jl|, |gl|)
    && Free(jl, i) && Free(gl, j)
    && forall i', j' :: Free(jl, i') && Free(gl, j') ==>
         d[i][j] <= d[i'][j'] && (Earlier(i', j', i, j) ==> d[i][j] < d[i'][j'])
  }

  /** Some free pair lies below the sentinel distance. */
  ghost predicate HasCandidate(d: seq<seq<real>>, jl: seq<int>, gl: seq<int>)
  {
    && IsMatrix(d, |jl|, |gl|)
    && exists i, j :: Free(jl, i) && Free(gl, j) && d[i][j] < SentinelDistance
  }

  /** The state of a round's scan once every pair before (i, j) has been looked at. */
  ghost predicate BestSoFar(d: seq<seq<real>>, jl: seq<int>, gl: seq<int>, i: int, j: int,
                            found: bool, minDeltaR: real, bi: int, bj: int)
  {
    && IsMatrix(d, |jl|, |gl|)
    && (found ==> Free(jl, bi) && Free(gl, bj) && Earlier(bi, bj, i, j)
                  && minDeltaR == d[bi][bj] && minDeltaR < SentinelDistance)
    && (!found ==> minDeltaR == SentinelDistance && bi == SentinelIndex && bj == SentinelIndex)
    && forall i', j' :: Free(jl, i') && Free(gl, j') && Earlier(i', j', i, j) ==>
         minDeltaR <= d[i'][j'] && (found && Earlier(i', j', bi, bj) ==> minDeltaR < d[i'][j'])
  }

  /**
   * One round's scan: the first pair of smallest distance among the pairs
   * whose labels are both 0. When no such pair lies below the sentinel,
   * both indices keep the sentinel value 999.
   */
  method FindClosest(d: seq<seq<real>>, jetEntries: array<int>, genJetEntries: array<int>)
    returns (jetIndex: int, genjetIndex: int)
    requires IsMatrix(d, jetEntries.Length, genJetEntries.Length)
    ensures HasCandidate(d, jetEntries[..], genJetEntries[..]) ==>
              IsClosest(d, jetEntries[..], genJetEntries[..], jetIndex, genjetIndex)
    ensures !HasCandidate(d, jetEntries[..], genJetEntries[..]) ==>
              jetIndex == SentinelIndex && genjetIndex == SentinelIndex
  {
    ghost var jl, gl := jetEntries[..], genJetEntries[..];
    ghost var found := false;
    var minDeltaR := SentinelDistance;
    jetIndex, genjetIndex := SentinelIndex, SentinelIndex;
    for i := 0 to jetEntries.Length
      invariant BestSoFar(d, jl, gl, i, 0, found, minDeltaR, jetIndex, genjetIndex)
    {
      if jetEntries[i] < 1 {
        for j := 0 to genJetEntries.Length
          invariant BestSoFar(d, jl, gl, i, j, found, minDeltaR, jetIndex, genjetIndex)
        {
          if genJetEntries[j] < 1 && d[i][j] < minDeltaR {
            ScanTake(d, jl, gl, i, j, found, minDeltaR, jetIndex, genjetIndex);
            minDeltaR := d[i][j];
            jetIndex := i;
            genjetIndex := j;
            found := true;
          } else {
            ScanPass(d, jl, gl, i, j, found, minDeltaR, jetIndex, genjetIndex);
          }
        }
        ScanNextRow(d, jl, gl, i, found, minDeltaR, jetIndex, genjetIndex);
      } else {
        ScanSkipRow(d, jl, gl, i, found, minDeltaR, jetIndex, genjetIndex);
      }
    }
    ScanDone(d, jl, gl, found, minDeltaR, jetIndex, genjetIndex);
  }

  /** A free pair strictly closer than the running minimum becomes the new best. */
  lemma ScanTake(d: seq<seq<real>>, jl: seq<int>, gl: seq<int>, i: int, j: int,
                 found: bool, minDeltaR: real, bi: int, bj: int)
    requires BestSoFar(d, jl, gl, i, j, found, minDeltaR, bi, bj)
    requires Free(jl, i) && Free(gl, j) && d[i][j] < minDeltaR
    ensures BestSoFar(d, jl, gl, i, j + 1, true, d[i][j], i, j)
  {
  }

  /** Any other pair leaves the running best as it is. */
  lemma ScanPass(d: seq<seq<real>>, jl: seq<int>, gl: seq<int>, i: int, j: int,
                 found: bool, minDeltaR: real, bi: int, bj: int)
    requires BestSoFar(d, jl, gl, i, j, found, minDeltaR, bi, bj)
    requires Free(jl, i) && 0 <= j < |gl| && !(Free(gl, j) && d[i][j] < minDeltaR)
    ensures BestSoFar(d, jl, gl, i, j + 1, found, minDeltaR, bi, bj)
  {
  }

  /** After the last generated jet of row i, the scan continues at the start of row i + 1. */
  lemma ScanNextRow(d: seq<seq<real>>, jl: seq<int>, gl: seq<int>, i: int,
                    found: bool, minDeltaR: real, bi: int, bj: int)
    requires BestSoFar(d, jl, gl, i, |gl|, found, minDeltaR, bi, bj)
    ensures BestSoFar(d, jl, gl, i + 1, 0, found, minDeltaR, bi, bj)
  {
  }

  /** A row whose reconstructed jet is already paired holds no candidate. */
  lemma ScanSkipRow(d: seq<seq<real>>, jl: seq<int>, gl: seq<int>, i: int,
                    found: bool, minDeltaR: real, bi: int, bj: int)
    requires BestSoFar(d, jl, gl, i, 0, found, minDeltaR, bi, bj) && 0 <= i < |jl| && !Free(jl, i)
    ensures BestSoFar(d, jl, gl, i + 1, 0, found, minDeltaR, bi, bj)
  {
  }

  /** After the last row the running best is the selected pair, or the sentinel when none qualifies. */
  lemma ScanDone(d: seq<seq<real>>, jl: seq<int>, gl: seq<int>,
                 found: bool, minDeltaR: real, bi: int, bj: int)
    requires BestSoFar(d, jl, gl, |jl|, 0, found, minDeltaR, bi, bj)
    ensures HasCandidate(d, jl, gl) ==> IsClosest(d, jl, gl, bi, bj)
    ensures !HasCandidate(d, jl, gl) ==> bi == SentinelIndex && bj == SentinelIndex
  {
    if HasCandidate(d, jl, gl) {
      var i, j :| Free(jl, i) && Free(gl, j) && d[i][j] < SentinelDistance;
      assert Earlier(i, j, |jl|, 0);
    }
  }

  /** Two pairs a round could select under the same labels are the same pair. */
  lemma ClosestUnique(d: seq<seq<real>>, jl: seq<int>, gl: seq<int>, i: int, j: int, i': int, j': int)
    requires IsClosest(d, jl, gl, i, j) && IsClosest(d, jl, gl, i', j')
    ensures i == i' && j == j'
  {
  }

  /**
   * js, gs record the rounds of the greedy loop: round r + 1 paired
   * reconstructed jet js[r] with generated jet gs[r], and that pair is the
   * one the scan selects under the labels left by rounds 1 .. r.
   */
  ghost predicate IsGreedy(d: seq<seq<real>>, nJets: nat, nGenJets: nat, js: seq<nat>, gs: seq<nat>)
  {
    && |js| == |gs|
    && InRange(js, nJets) && InRange(gs, nGenJets)
    && forall r :: 0 <= r < |js| ==>
         IsClosest(d, LabelsAfter(js[..r], nJets), LabelsAfter(gs[..r], nGenJets), js[r], gs[r])
  }

  /** Every prefix of a greedy run is a greedy run. */
  lemma GreedyPrefix(d: seq<seq<real>>, nJets: nat, nGenJets: nat, js: seq<nat>, gs: seq<nat>, k: nat)
    requires IsGreedy(d, nJets, nGenJets, js, gs) && k <= |js|
    ensures IsGreedy(d, nJets, nGenJets, js[..k], gs[..k])
  {
    forall r | 0 <= r < k
      ensures IsClosest(d, LabelsAfter(js[..k][..r], nJets), LabelsAfter(gs[..k][..r], nGenJets), js[..k][r], gs[..k][r])
    {
      assert js[..k][..r] == js[..r];
      assert gs[..k][..r] == gs[..r];
    }
  }

  /** Appending the pair the next round's scan selects extends a greedy run. */
  lemma GreedyStep(d: seq<seq<real>>, nJets: nat, nGenJets: nat, js: seq<nat>, gs: seq<nat>, i: nat, j: nat)
    requires IsGreedy(d, nJets, nGenJets, js, gs)
    requires IsClosest(d, LabelsAfter(js, nJets), LabelsAfter(gs, nGenJets), i, j)
    ensures IsGreedy(d, nJets, nGenJets, js + [i], gs + [j])
  {
    var js', gs' := js + [i], gs + [j];
    assert js'[..|js|] == js && gs'[..|gs|] == gs;
    forall r | 0 <= r < |js'|
      ensures IsClosest(d, LabelsAfter(js'[..r], nJets), LabelsAfter(gs'[..r], nGenJets), js'[r], gs'[r])
    {
      if r < |js| {
        assert js'[..r] == js[..r] && gs'[..r] == gs[..r];
      }
    }
  }

  /**
   * A greedy run never pairs an object twice: the object a round selects is
   * free, and every object stamped earlier carries a label of at least 1.
   */
  lemma GreedyDistinct(d: seq<seq<real>>, nJets: nat, nGenJets: nat, js: seq<nat>, gs: seq<nat>)
    requires IsGreedy(d, nJets, nGenJets, js, gs)
    ensures Distinct(js) && Distinct(gs)
  {
    forall r, s | 0 <= r < s < |js|
      ensures js[r] != js[s] && gs[r] != gs[s]
    {
      assert IsClosest(d, LabelsAfter(js[..s], nJets), LabelsAfter(gs[..s], nGenJets), js[s], gs[s]);
      LabelsAfterBounds(js[..s], nJets);
      LabelsAfterBounds(gs[..s], nGenJets);
      assert js[..s][r] == js[r] && gs[..s][r] == gs[r];
    }
  }

  /**
   * The labels after k rounds: the two jets paired in round r + 1 both carry
   * label r + 1, each label 1 .. k is carried by exactly one jet on each
   * side, every jet never paired carries 0, and no label exceeds k.
   */
  lemma GreedyLabels(d: seq<seq<real>>, nJets: nat, nGenJets: nat, js: seq<nat>, gs: seq<nat>)
    requires IsGreedy(d, nJets, nGenJets, js, gs)
    ensures StampedBy(LabelsAfter(js, nJets), js) && StampedBy(LabelsAfter(gs, nGenJets), gs)
  {
    GreedyDistinct(d, nJets, nGenJets, js, gs);
    LabelsAfterFacts(js, nJets);
    LabelsAfterFacts(gs, nGenJets);
  }

  /**
   * Entries that are already non-zero are never overwritten: an object
   * paired in some round keeps its label through all later rounds.
   */
  lemma GreedyLabelsPersist(d: seq<seq<real>>, nJets: nat, nGenJets: nat, js: seq<nat>, gs: seq<nat>, k: nat)
    requires IsGreedy(d, nJets, nGenJets, js, gs) && k <= |js|
    ensures InRange(js[..k], nJets) && InRange(gs[..k], nGenJets)
    ensures forall x :: 0 <= x < nJets && LabelsAfter(js[..k], nJets)[x] != 0 ==>
              LabelsAfter(js, nJets)[x] == LabelsAfter(js[..k], nJets)[x]
    ensures forall y :: 0 <= y < nGenJets && LabelsAfter(gs[..k], nGenJets)[y] != 0 ==>
              LabelsAfter(gs, nGenJets)[y] == LabelsAfter(gs[..k], nGenJets)[y]
  {
    GreedyDistinct(d, nJets, nGenJets, js, gs);
    LabelsAfterPrefix(js, nJets, k);
    LabelsAfterPrefix(gs, nGenJets, k);
  }

  /**
   * While fewer than min(J, G) rounds have run, the scan has a free pair on
   * both sides, so when all distances are below the sentinel it finds one.
   */
  lemma GreedyHasCandidate(d: seq<seq<real>>, nJets: nat, nGenJets: nat, js: seq<nat>, gs: seq<nat>)
    requires IsGreedy(d, nJets, nGenJets, js, gs)
    requires IsMatrix(d, nJets, nGenJets) && BelowSentinel(d)
    requires |js| < Min(nJets, nGenJets)
    ensures HasCandidate(d, LabelsAfter(js, nJets), LabelsAfter(gs, nGenJets))
  {
    GreedyLabels(d, nJets, nGenJets, js, gs);
    UnstampedExists(js, nJets);
    UnstampedExists(gs, nGenJets);
    var i :| 0 <= i < nJets && i !in js;
    var j :| 0 <= j < nGenJets && j !in gs;
    assert Free(LabelsAfter(js, nJets), i) && Free(LabelsAfter(gs, nGenJets), j);
    assert d[i][j] < SentinelDistance;
  }

  /** The greedy run is determined by the distances: two runs of equal length coincide. */
  lemma {:induction false} GreedyUnique(d: seq<seq<real>>, nJets: nat, nGenJets: nat,
                                        js: seq<nat>, gs: seq<nat>, js': seq<nat>, gs': seq<nat>)
    requires IsGreedy(d, nJets, nGenJets, js, gs) && IsGreedy(d, nJets, nGenJets, js', gs')
    requires |js| == |js'|
    ensures js == js' && gs == gs'
    decreases |js|
  {
    if js != [] {
      var k := |js| - 1;
      GreedyPrefix(d, nJets, nGenJets, js, gs, k);
      GreedyPrefix(d, nJets, nGenJets, js', gs', k);
      GreedyUnique(d, nJets, nGenJets, js[..k], gs[..k], js'[..k], gs'[..k]);
      ClosestUnique(d, LabelsAfter(js[..k], nJets), LabelsAfter(gs[..k], nGenJets), js[k], gs[k], js'[k], gs'[k]);
      assert js == js[..k] + [js[k]] && js' == js'[..k] + [js'[k]];
      assert gs == gs[..k] + [gs[k]] && gs' == gs'[..k] + [gs'[k]];
    }
  }

  /** The pair a round selects is no farther than any pair of two objects not yet stamped. */
  lemma ClosestBeatsUnstamped(d: seq<seq<real>>, nJets: nat, nGenJets: nat, p: seq<nat>, q: seq<nat>,
                              i: int, j: int, x: nat, y: nat)
    requires InRange(p, nJets) && Distinct(p) && InRange(q, nGenJets) && Distinct(q)
    requires IsClosest(d, LabelsAfter(p, nJets), LabelsAfter(q, nGenJets), i, j)
    requires x < nJets && x !in p && y < nGenJets && y !in q
    ensures d[i][j] <= d[x][y]
  {
    LabelsAfterAt(p, nJets);
    LabelsAfterAt(q, nGenJets);
    assert Free(LabelsAfter(p, nJets), x) && Free(LabelsAfter(q, nGenJets), y);
  }

  /** Round r + 1 selects a pair no farther than the one round s + 1 selects, for r < s. */
  lemma GreedyOrdered(d: seq<seq<real>>, nJets: nat, nGenJets: nat, js: seq<nat>, gs: seq<nat>, r: nat, s: nat)
    requires IsGreedy(d, nJets, nGenJets, js, gs)
    requires r < s < |js|
    ensures d[js[r]][gs[r]] <= d[js[s]][gs[s]]
  {
    GreedyDistinct(d, nJets, nGenJets, js, gs);
    var p, q := js[..r], gs[..r];
    assert Distinct(p) && Distinct(q) && InRange(p, nJets) && InRange(q, nGenJets);
    assert js[s] !in p && gs[s] !in q;
    ClosestBeatsUnstamped(d, nJets, nGenJets, p, q, js[r], gs[r], js[s], gs[s]);
  }

  /**
   * Greedy rounds select pairs in order of distance: a later round never
   * selects a closer pair, because that pair was already free earlier.
   */
  lemma GreedyNondecreasing(d: seq<seq<real>>, nJets: nat, nGenJets: nat, js: seq<nat>, gs: seq<nat>)
    requires IsGreedy(d, nJets, nGenJets, js, gs)
    ensures forall r, s :: 0 <= r < s < |js| ==> d[js[r]][gs[r]] <= d[js[s]][gs[s]]
  {
    forall r, s | 0 <= r < s < |js|
      ensures d[js[r]][gs[r]] <= d[js[s]][gs[s]]
    {
      GreedyOrdered(d, nJets, nGenJets, js, gs, r, s);
    }
  }

  /** Labels of one side before matching starts: every object unassigned. */
  method Unassign(entries: array<int>)
    modifies entries
    ensures forall x :: 0 <= x < entries.Length ==> entries[x] == 0
  {
    for i := 0 to entries.Length
      invariant forall x :: 0 <= x < i ==> entries[x] == 0
    {
      entries[i] := 0;
    }
  }

  /**
   * Zero both label arrays, then run rounds while both counters are
   * non-zero. Returns the ghost record of the rounds; the label arrays
   * end as the stamps of that record, which is a greedy run of exactly
   * min(J, G) rounds.
   */
  method GreedyMatch(d: seq<seq<real>>, jetEntries: array<int>, genJetEntries: array<int>)
    returns (ghost js: seq<nat>, ghost gs: seq<nat>)
    requires jetEntries != genJetEntries
    requires IsMatrix(d, jetEntries.Length, genJetEntries.Length) && BelowSentinel(d)
    modifies jetEntries, genJetEntries
    ensures IsGreedy(d, jetEntries.Length, genJetEntries.Length, js, gs)
    ensures |js| == Min(jetEntries.Length, genJetEntries.Length)
    ensures jetEntries[..] == LabelsAfter(js, jetEntries.Length)
    ensures genJetEntries[..] == LabelsAfter(gs, genJetEntries.Length)
  {
    Unassign(genJetEntries);
    Unassign(jetEntries);
    assert jetEntries[..] == LabelsAfter([], jetEntries.Length);
    assert genJetEntries[..] == LabelsAfter([], genJetEntries.Length);
    var jets, genJets := jetEntries.Length, genJetEntries.Length;
    var round := 1;
    js, gs := [], [];
    while jets != 0 && genJets != 0
      invariant 0 <= jets <= jetEntries.Length && 0 <= genJets <= genJetEntries.Length
      invariant |js| == jetEntries.Length - jets == genJetEntries.Length - genJets == round - 1
      invariant IsGreedy(d, jetEntries.Length, genJetEntries.Length, js, gs)
      invariant jetEntries[..] == LabelsAfter(js, jetEntries.Length)
      invariant genJetEntries[..] == LabelsAfter(gs, genJetEntries.Length)
      decreases jets
    {
      GreedyHasCandidate(d, jetEntries.Length, genJetEntries.Length, js, gs);
      var jetIndex, genjetIndex := FindClosest(d, jetEntries, genJetEntries);
      GreedyStep(d, jetEntries.Length, genJetEntries.Length, js, gs, jetIndex, genjetIndex);
      genJets := genJets - 1;
      jets := jets - 1;
      genJetEntries[genjetIndex] := round;
      jetEntries[jetIndex] := round;
      round := round + 1;
      ghost var before, beforeGen := js, gs;
      js, gs := js + [jetIndex], gs + [genjetIndex];
      assert js[..|js| - 1] == before && gs[..|gs| - 1] == beforeGen;
    }
  }
}
