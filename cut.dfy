/**
 * Phase 2 of the per-event jet matcher: the angular cut.
 *
 * Every (reconstructed, generated) pair sharing a non-zero label is a pair
 * the greedy phase produced. A pair whose distance is at most 1 is accepted
 * and reported (one histogram fill per pair); any other pair has both of its
 * labels reset to 0, so both jets end up unmatched. The scan runs over all
 * pairs in i-major, j-minor order.
 */
module Cut {
  import opened Labels
  import opened Greedy

  /** The acceptance threshold on the angular distance (inclusive). */
  const MaxDeltaR: real := 1.0

  /** An accepted pair as reported: the two indices and their distance. */
  datatype Match = Match(jet: nat, genJet: nat, deltaR: real)

  /**
   * Non-zero labels pair the objects one-to-one across the two sides: no
   * non-zero label occurs twice on a side, and each occurs on both sides.
   */
  ghost predicate Paired(jl: seq<int>, gl: seq<int>)
  {
    && (forall x, x' :: 0 <= x < x' < |jl| && jl[x] != 0 ==> jl[x] != jl[x'])
    && (forall y, y' :: 0 <= y < y' < |gl| && gl[y] != 0 ==> gl[y] != gl[y'])
    && (forall x :: 0 <= x < |jl| && jl[x] != 0 ==> jl[x] in gl)
    && (forall y :: 0 <= y < |gl| && gl[y] != 0 ==> gl[y] in jl)
  }

  /** Jets i and j were paired: they carry the same non-zero label. */
  predicate Partners(jl: seq<int>, gl: seq<int>, i: int, j: int)
  {
    0 <= i < |jl| && 0 <= j < |gl| && jl[i] != 0 && jl[i] == gl[j]
  }

  /** A pair that passes the cut. */
  ghost predicate Accepts(d: seq<seq<real>>, jl: seq<int>, gl: seq<int>, i: int, j: int)
  {
    IsMatrix(d, |jl|, |gl|) && Partners(jl, gl, i, j) && d[i][j] <= MaxDeltaR
  }

  /** A pair that fails the cut. */
  ghost predicate Rejects(d: seq<seq<real>>, jl: seq<int>, gl: seq<int>, i: int, j: int)
  {
    IsMatrix(d, |jl|, |gl|) && Partners(jl, gl, i, j) && MaxDeltaR < d[i][j]
  }

  /**
   * The labels cj, cg once every pair before (i, j) has been looked at,
   * starting from labels jl, gl: a label is 0 if its pair was rejected
   * so far, and unchanged otherwise.
   */
  ghost predicate LabelsSoFar(d: seq<seq<real>>, jl: seq<int>, gl: seq<int>, cj: seq<int>, cg: seq<int>,
                              i: int, j: int)
  {
    && |cj| == |jl| && |cg| == |gl|
    && (forall x :: 0 <= x < |jl| ==>
          cj[x] == if exists y :: Rejects(d, jl, gl, x, y) && Earlier(x, y, i, j) then 0 else jl[x])
    && (forall y :: 0 <= y < |gl| ==>
          cg[y] == if exists x :: Rejects(d, jl, gl, x, y) && Earlier(x, y, i, j) then 0 else gl[y])
  }

  /**
   * The report once every pair before (i, j) has been looked at: exactly
   * the accepted pairs seen so far, in scan order, each with its distance.
   */
  ghost predicate ReportSoFar(d: seq<seq<real>>, jl: seq<int>, gl: seq<int>, accepted: seq<Match>, i: int, j: int)
  {
    && (forall k :: 0 <= k < |accepted| ==>
          && Accepts(d, jl, gl, accepted[k].jet, accepted[k].genJet)
          && Earlier(accepted[k].jet, accepted[k].genJet, i, j)
          && accepted[k].deltaR == d[accepted[k].jet][accepted[k].genJet])
    && (forall x, y :: Accepts(d, jl, gl, x, y) && Earlier(x, y, i, j) ==> Match(x, y, d[x][y]) in accepted)
    && (forall k, k' :: 0 <= k < k' < |accepted| ==> accepted[k].jet < accepted[k'].jet)
  }

  /** The state of the cut scan once every pair before (i, j) has been looked at. */
  ghost predicate CutSoFar(d: seq<seq<real>>, jl: seq<int>, gl: seq<int>, cj: seq<int>, cg: seq<int>,
                           accepted: seq<Match>, i: int, j: int)
  {
    IsMatrix(d, |jl|, |gl|) && LabelsSoFar(d, jl, gl, cj, cg, i, j) && ReportSoFar(d, jl, gl, accepted, i, j)
  }

  /** At (i, j) the labels the scan reads still say whether i and j were paired. */
  lemma CutStepCondition(d: seq<seq<real>>, jl: seq<int>, gl: seq<int>, cj: seq<int>, cg: seq<int>,
                         accepted: seq<Match>, i: int, j: int)
    requires Paired(jl, gl) && CutSoFar(d, jl, gl, cj, cg, accepted, i, j)
    requires 0 <= i < |jl| && 0 <= j < |gl|
    ensures (cj[i] == cg[j] && cj[i] != 0 && cg[j] != 0) <==> Partners(jl, gl, i, j)
    ensures Partners(jl, gl, i, j) ==> cj[i] == jl[i] && cg[j] == gl[j]
  {
    if exists y :: Rejects(d, jl, gl, i, y) && Earlier(i, y, i, j) {
      var y :| Rejects(d, jl, gl, i, y) && Earlier(i, y, i, j);
      assert gl[y] == jl[i];
    }
    if exists x :: Rejects(d, jl, gl, x, j) && Earlier(x, j, i, j) {
      var x :| Rejects(d, jl, gl, x, j) && Earlier(x, j, i, j);
      assert jl[x] == gl[j];
    }
  }

  /** Moving on from a pair that was never matched changes nothing. */
  lemma CutSkip(d: seq<seq<real>>, jl: seq<int>, gl: seq<int>, cj: seq<int>, cg: seq<int>,
                accepted: seq<Match>, i: int, j: int)
    requires CutSoFar(d, jl, gl, cj, cg, accepted, i, j) && !Partners(jl, gl, i, j)
    ensures CutSoFar(d, jl, gl, cj, cg, accepted, i, j + 1)
  {
  }

  /** Passing a pair that is not rejected changes no label. */
  lemma LabelsPastPair(d: seq<seq<real>>, jl: seq<int>, gl: seq<int>, cj: seq<int>, cg: seq<int>, i: int, j: int)
    requires LabelsSoFar(d, jl, gl, cj, cg, i, j) && !Rejects(d, jl, gl, i, j)
    ensures LabelsSoFar(d, jl, gl, cj, cg, i, j + 1)
  {
  }

  /** Accepting pair (i, j) appends it to the report and changes no label. */
  lemma CutAccept(d: seq<seq<real>>, jl: seq<int>, gl: seq<int>, cj: seq<int>, cg: seq<int>,
                  accepted: seq<Match>, i: int, j: int)
    requires Paired(jl, gl) && CutSoFar(d, jl, gl, cj, cg, accepted, i, j) && Accepts(d, jl, gl, i, j)
    ensures CutSoFar(d, jl, gl, cj, cg, accepted + [Match(i, j, d[i][j])], i, j + 1)
  {
    LabelsPastPair(d, jl, gl, cj, cg, i, j);
    ReportAccept(d, jl, gl, accepted, i, j);
  }

  /** Accepting pair (i, j) appends it to the report, which stays in scan order. */
  lemma ReportAccept(d: seq<seq<real>>, jl: seq<int>, gl: seq<int>, accepted: seq<Match>, i: int, j: int)
    requires Paired(jl, gl) && ReportSoFar(d, jl, gl, accepted, i, j) && Accepts(d, jl, gl, i, j)
    ensures ReportSoFar(d, jl, gl, accepted + [Match(i, j, d[i][j])], i, j + 1)
  {
    var accepted' := accepted + [Match(i, j, d[i][j])];
    forall k | 0 <= k < |accepted|
      ensures accepted[k].jet < i
    {
    }
    forall k | 0 <= k < |accepted'|
      ensures && Accepts(d, jl, gl, accepted'[k].jet, accepted'[k].genJet)
              && Earlier(accepted'[k].jet, accepted'[k].genJet, i, j + 1)
              && accepted'[k].deltaR == d[accepted'[k].jet][accepted'[k].genJet]
    {
      if k < |accepted| {
        assert accepted'[k] == accepted[k];
      }
    }
    forall x, y | Accepts(d, jl, gl, x, y) && Earlier(x, y, i, j + 1)
      ensures Match(x, y, d[x][y]) in accepted'
    {
      if Earlier(x, y, i, j) {
        assert Match(x, y, d[x][y]) in accepted;
      } else {
        assert accepted'[|accepted|] == Match(x, y, d[x][y]);
      }
    }
  }

  /** Rejecting pair (i, j) resets both of its labels and reports nothing. */
  lemma CutReject(d: seq<seq<real>>, jl: seq<int>, gl: seq<int>, cj: seq<int>, cg: seq<int>,
                  accepted: seq<Match>, i: int, j: int)
    requires Paired(jl, gl) && CutSoFar(d, jl, gl, cj, cg, accepted, i, j) && Rejects(d, jl, gl, i, j)
    ensures CutSoFar(d, jl, gl, cj[i := 0], cg[j := 0], accepted, i, j + 1)
  {
    var cj', cg' := cj[i := 0], cg[j := 0];
    forall x | 0 <= x < |jl|
      ensures cj'[x] == if exists y :: Rejects(d, jl, gl, x, y) && Earlier(x, y, i, j + 1) then 0 else jl[x]
    {
      if x == i {
        assert Rejects(d, jl, gl, i, j) && Earlier(i, j, i, j + 1);
      }
    }
    forall y | 0 <= y < |gl|
      ensures cg'[y] == if exists x :: Rejects(d, jl, gl, x, y) && Earlier(x, y, i, j + 1) then 0 else gl[y]
    {
      if y == j {
        assert Rejects(d, jl, gl, i, j) && Earlier(i, j, i, j + 1);
      }
    }
  }

  /** Once row i is scanned completely, the scan state is the one at the start of row i + 1. */
  lemma CutNextRow(d: seq<seq<real>>, jl: seq<int>, gl: seq<int>, cj: seq<int>, cg: seq<int>,
                   accepted: seq<Match>, i: int)
    requires CutSoFar(d, jl, gl, cj, cg, accepted, i, |gl|)
    ensures CutSoFar(d, jl, gl, cj, cg, accepted, i + 1, 0)
  {
    forall x, y | Rejects(d, jl, gl, x, y) || Accepts(d, jl, gl, x, y)
      ensures Earlier(x, y, i, |gl|) <==> Earlier(x, y, i + 1, 0)
    {
    }
  }

  /** Stamping two index sequences of equal length without repetition pairs the objects one-to-one. */
  lemma StampsPaired(jl: seq<int>, gl: seq<int>, js: seq<nat>, gs: seq<nat>)
    requires StampedBy(jl, js) && StampedBy(gl, gs) && |js| == |gs|
    ensures Paired(jl, gl)
  {
    forall x | 0 <= x < |jl| && jl[x] != 0
      ensures exists y :: 0 <= y < |gl| && gl[y] == jl[x]
    {
      var r :| 0 <= r < |js| && js[r] == x;
      assert gl[gs[r]] == jl[x];
    }
    forall y | 0 <= y < |gl| && gl[y] != 0
      ensures exists x :: 0 <= x < |jl| && jl[x] == gl[y]
    {
      var r :| 0 <= r < |gs| && gs[r] == y;
      assert jl[js[r]] == gl[y];
    }
  }

  /** Two objects share a non-zero stamped label exactly when they were stamped in the same round. */
  lemma StampsPartners(jl: seq<int>, gl: seq<int>, js: seq<nat>, gs: seq<nat>)
    requires StampedBy(jl, js) && StampedBy(gl, gs) && |js| == |gs|
    ensures forall i, j :: Partners(jl, gl, i, j) <==> exists r :: 0 <= r < |js| && js[r] == i && gs[r] == j
  {
    forall i, j | Partners(jl, gl, i, j)
      ensures exists r :: 0 <= r < |js| && js[r] == i && gs[r] == j
    {
      var r :| 0 <= r < |js| && js[r] == i;
      var r' :| 0 <= r' < |gs| && gs[r'] == j;
      assert r == r';
    }
  }

  /** The labels a greedy run leaves pair the jets one-to-one. */
  lemma GreedyPaired(d: seq<seq<real>>, nJets: nat, nGenJets: nat, js: seq<nat>, gs: seq<nat>)
    requires IsGreedy(d, nJets, nGenJets, js, gs)
    ensures Paired(LabelsAfter(js, nJets), LabelsAfter(gs, nGenJets))
  {
    GreedyLabels(d, nJets, nGenJets, js, gs);
    StampsPaired(LabelsAfter(js, nJets), LabelsAfter(gs, nGenJets), js, gs);
  }

  /** Under the labels a greedy run leaves, two jets share a non-zero label exactly when one round paired them. */
  lemma GreedyPartners(d: seq<seq<real>>, nJets: nat, nGenJets: nat, js: seq<nat>, gs: seq<nat>)
    requires IsGreedy(d, nJets, nGenJets, js, gs)
    ensures forall i, j :: Partners(LabelsAfter(js, nJets), LabelsAfter(gs, nGenJets), i, j) <==>
              exists r :: 0 <= r < |js| && js[r] == i && gs[r] == j
  {
    GreedyLabels(d, nJets, nGenJets, js, gs);
    StampsPartners(LabelsAfter(js, nJets), LabelsAfter(gs, nGenJets), js, gs);
  }

  /**
   * With labels paired one-to-one, a jet ends in exactly one of two ways:
   * its pair passes the cut, or it carried no label or its pair failed.
   */
  lemma CutOutcome(d: seq<seq<real>>, jl: seq<int>, gl: seq<int>)
    requires Paired(jl, gl) && IsMatrix(d, |jl|, |gl|)
    ensures forall x :: 0 <= x < |jl| ==>
              ((exists y :: Accepts(d, jl, gl, x, y)) <==> jl[x] != 0 && !exists y :: Rejects(d, jl, gl, x, y))
    ensures forall y :: 0 <= y < |gl| ==>
              ((exists x :: Accepts(d, jl, gl, x, y)) <==> gl[y] != 0 && !exists x :: Rejects(d, jl, gl, x, y))
  {
    forall x, y, y' | Accepts(d, jl, gl, x, y) && Rejects(d, jl, gl, x, y')
      ensures y == y'
    {
    }
    forall x, x', y | Accepts(d, jl, gl, x, y) && Rejects(d, jl, gl, x', y)
      ensures x == x'
    {
    }
    forall x | 0 <= x < |jl| && jl[x] != 0 && !exists y :: Rejects(d, jl, gl, x, y)
      ensures exists y :: Accepts(d, jl, gl, x, y)
    {
      var y :| 0 <= y < |gl| && gl[y] == jl[x];
      assert Partners(jl, gl, x, y) && !Rejects(d, jl, gl, x, y);
      assert Accepts(d, jl, gl, x, y);
    }
    forall y | 0 <= y < |gl| && gl[y] != 0 && !exists x :: Rejects(d, jl, gl, x, y)
      ensures exists x :: Accepts(d, jl, gl, x, y)
    {
      var x :| 0 <= x < |jl| && jl[x] == gl[y];
      assert Partners(jl, gl, x, y) && !Rejects(d, jl, gl, x, y);
      assert Accepts(d, jl, gl, x, y);
    }
  }

  /** The reconstructed-jet indices of the reported pairs, in report order. */
  function JetsOf(ms: seq<Match>): (r: seq<nat>)
    ensures |r| == |ms| && forall k :: 0 <= k < |ms| ==> r[k] == ms[k].jet
  {
    seq(|ms|, k requires 0 <= k < |ms| => ms[k].jet)
  }

  /** The generated-jet indices of the reported pairs, in report order. */
  function GenJetsOf(ms: seq<Match>): (r: seq<nat>)
    ensures |r| == |ms| && forall k :: 0 <= k < |ms| ==> r[k] == ms[k].genJet
  {
    seq(|ms|, k requires 0 <= k < |ms| => ms[k].genJet)
  }

  /**
   * The cut loop. Each label changes only if its pair fails the cut, in
   * which case it becomes 0; the accepted pairs are reported in scan order,
   * each with its distance, and every pair that passes is reported.
   */
  method ApplyCut(d: seq<seq<real>>, jetEntries: array<int>, genJetEntries: array<int>)
    returns (accepted: seq<Match>)
    requires jetEntries != genJetEntries
    requires IsMatrix(d, jetEntries.Length, genJetEntries.Length)
    requires Paired(jetEntries[..], genJetEntries[..])
    modifies jetEntries, genJetEntries
    ensures forall x :: 0 <= x < jetEntries.Length ==>
              jetEntries[x] == if exists y :: Rejects(d, old(jetEntries[..]), old(genJetEntries[..]), x, y)
                               then 0 else old(jetEntries[x])
    ensures forall y :: 0 <= y < genJetEntries.Length ==>
              genJetEntries[y] == if exists x :: Rejects(d, old(jetEntries[..]), old(genJetEntries[..]), x, y)
                                  then 0 else old(genJetEntries[y])
    ensures forall k :: 0 <= k < |accepted| ==>
              && Accepts(d, old(jetEntries[..]), old(genJetEntries[..]), accepted[k].jet, accepted[k].genJet)
              && accepted[k].deltaR == d[accepted[k].jet][accepted[k].genJet]
    ensures forall x, y :: Accepts(d, old(jetEntries[..]), old(genJetEntries[..]), x, y) ==>
              Match(x, y, d[x][y]) in accepted
    ensures forall k, k' :: 0 <= k < k' < |accepted| ==> accepted[k].jet < accepted[k'].jet
  {
    ghost var jl, gl := jetEntries[..], genJetEntries[..];
    accepted := [];
    for i := 0 to jetEntries.Length
      invariant CutSoFar(d, jl, gl, jetEntries[..], genJetEntries[..], accepted, i, 0)
    {
      for j := 0 to genJetEntries.Length
        invariant CutSoFar(d, jl, gl, jetEntries[..], genJetEntries[..], accepted, i, j)
      {
        CutStepCondition(d, jl, gl, jetEntries[..], genJetEntries[..], accepted, i, j);
        if jetEntries[i] == genJetEntries[j] && jetEntries[i] != 0 && genJetEntries[j] != 0 {
          var deltaR := d[i][j];
          if deltaR <= MaxDeltaR {
            CutAccept(d, jl, gl, jetEntries[..], genJetEntries[..], accepted, i, j);
            accepted := accepted + [Match(i, j, deltaR)];
          } else {
            CutReject(d, jl, gl, jetEntries[..], genJetEntries[..], accepted, i, j);
            jetEntries[i] := 0;
            genJetEntries[j] := 0;
          }
        } else {
          CutSkip(d, jl, gl, jetEntries[..], genJetEntries[..], accepted, i, j);
        }
      }
      CutNextRow(d, jl, gl, jetEntries[..], genJetEntries[..], accepted, i);
    }
    assert forall x, y :: Rejects(d, jl, gl, x, y) || Accepts(d, jl, gl, x, y) ==>
      Earlier(x, y, jetEntries.Length, 0);
  }
}
