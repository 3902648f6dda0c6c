/**
 * One event of the jet matcher: greedy matching, the angular cut, and the
 * enumeration of the jets left unmatched on each side.
 *
 * What the source fills into histograms is returned instead: the accepted
 * pairs (with their distance) and the indices of the unmatched generated
 * and reconstructed jets.
 */
module Matching {
  import opened Labels
  import opened Greedy
  import opened Cut

  /**
   * Phase 3 on one side: the indices whose label is 0, in increasing order,
   * so that every unmatched jet is reported exactly once.
   */
  method CollectUnmatched(entries: array<int>) returns (unmatched: seq<nat>)
    ensures Increasing(unmatched) && InRange(unmatched, entries.Length)
    ensures forall x :: 0 <= x < entries.Length ==> (x in unmatched <==> entries[x] == 0)
  {
    unmatched := [];
    for i := 0 to entries.Length
      invariant Increasing(unmatched) && InRange(unmatched, i)
      invariant forall x :: 0 <= x < i ==> (x in unmatched <==> entries[x] == 0)
    {
      if entries[i] == 0 {
        unmatched := unmatched + [i];
      }
    }
  }

  /**
   * The reported pairs are the greedy run's pairs that pass the cut: a
   * round's pair is reported exactly when its distance is at most the
   * threshold, and nothing else is reported.
   */
  ghost predicate ReportsCut(d: seq<seq<real>>, nJets: nat, nGenJets: nat,
                             js: seq<nat>, gs: seq<nat>, accepted: seq<Match>)
  {
    && IsMatrix(d, nJets, nGenJets)
    && IsGreedy(d, nJets, nGenJets, js, gs)
    && (forall r :: 0 <= r < |js| ==>
          (Match(js[r], gs[r], d[js[r]][gs[r]]) in accepted <==> d[js[r]][gs[r]] <= MaxDeltaR))
    && (forall k :: 0 <= k < |accepted| ==>
          exists r :: 0 <= r < |js| && accepted[k] == Match(js[r], gs[r], d[js[r]][gs[r]]))
  }

  /**
   * Matching of one event with J reconstructed and G generated jets and
   * distances d. The accepted pairs are those of the greedy run of
   * min(J, G) rounds that pass the cut, reported in order of reconstructed
   * index with their distance; no jet is in two accepted pairs, so there are
   * at most min(J, G) of them. Every jet on either side is either in an
   * accepted pair or reported unmatched, never both, and at most once.
   */
  method MatchEvent(d: seq<seq<real>>, nJets: nat, nGenJets: nat)
    returns (accepted: seq<Match>, unmatchedGenJets: seq<nat>, unmatchedJets: seq<nat>)
    requires IsMatrix(d, nJets, nGenJets) && BelowSentinel(d)
    ensures exists js, gs :: |js| == Min(nJets, nGenJets) && ReportsCut(d, nJets, nGenJets, js, gs, accepted)
    ensures forall k :: 0 <= k < |accepted| ==>
              && accepted[k].jet < nJets && accepted[k].genJet < nGenJets
              && accepted[k].deltaR == d[accepted[k].jet][accepted[k].genJet]
              && accepted[k].deltaR <= MaxDeltaR
    ensures Increasing(JetsOf(accepted)) && Distinct(GenJetsOf(accepted))
    ensures |accepted| <= Min(nJets, nGenJets)
    ensures Increasing(unmatchedJets) && InRange(unmatchedJets, nJets)
    ensures Increasing(unmatchedGenJets) && InRange(unmatchedGenJets, nGenJets)
    ensures forall x :: 0 <= x < nJets ==> (x in unmatchedJets <==> x !in JetsOf(accepted))
    ensures forall y :: 0 <= y < nGenJets ==> (y in unmatchedGenJets <==> y !in GenJetsOf(accepted))
  {
    var genJetEntries := new int[nGenJets];
    var jetEntries := new int[nJets];
    ghost var js, gs := GreedyMatch(d, jetEntries, genJetEntries);
    GreedyPaired(d, nJets, nGenJets, js, gs);
    ghost var jl, gl := jetEntries[..], genJetEntries[..];
    accepted := ApplyCut(d, jetEntries, genJetEntries);
    ghost var cj, cg := jetEntries[..], genJetEntries[..];
    unmatchedGenJets := CollectUnmatched(genJetEntries);
    unmatchedJets := CollectUnmatched(jetEntries);
    EventOutcome(d, nJets, nGenJets, js, gs, jl, gl, cj, cg, accepted, unmatchedGenJets, unmatchedJets);
  }

  /**
   * The facts MatchEvent promises, from what its three phases establish:
   * the greedy labels, the effect of the cut on them, and the indices left
   * at 0.
   */
  lemma EventOutcome(d: seq<seq<real>>, nJets: nat, nGenJets: nat, js: seq<nat>, gs: seq<nat>,
                     jl: seq<int>, gl: seq<int>, cj: seq<int>, cg: seq<int>,
                     accepted: seq<Match>, unmatchedGenJets: seq<nat>, unmatchedJets: seq<nat>)
    requires IsMatrix(d, nJets, nGenJets) && IsGreedy(d, nJets, nGenJets, js, gs)
    requires |js| == Min(nJets, nGenJets)
    requires jl == LabelsAfter(js, nJets) && gl == LabelsAfter(gs, nGenJets)
    requires |cj| == nJets && |cg| == nGenJets
    requires forall x :: 0 <= x < nJets ==>
               cj[x] == if exists y :: Rejects(d, jl, gl, x, y) then 0 else jl[x]
    requires forall y :: 0 <= y < nGenJets ==>
               cg[y] == if exists x :: Rejects(d, jl, gl, x, y) then 0 else gl[y]
    requires forall k :: 0 <= k < |accepted| ==>
               && Accepts(d, jl, gl, accepted[k].jet, accepted[k].genJet)
               && accepted[k].deltaR == d[accepted[k].jet][accepted[k].genJet]
    requires forall x, y :: Accepts(d, jl, gl, x, y) ==> Match(x, y, d[x][y]) in accepted
    requires forall k, k' :: 0 <= k < k' < |accepted| ==> accepted[k].jet < accepted[k'].jet
    requires Increasing(unmatchedJets) && InRange(unmatchedJets, nJets)
    requires Increasing(unmatchedGenJets) && InRange(unmatchedGenJets, nGenJets)
    requires forall x :: 0 <= x < nJets ==> (x in unmatchedJets <==> cj[x] == 0)
    requires forall y :: 0 <= y < nGenJets ==> (y in unmatchedGenJets <==> cg[y] == 0)
    ensures ReportsCut(d, nJets, nGenJets, js, gs, accepted)
    ensures forall k :: 0 <= k < |accepted| ==>
              && accepted[k].jet < nJets && accepted[k].genJet < nGenJets
              && accepted[k].deltaR == d[accepted[k].jet][accepted[k].genJet]
              && accepted[k].deltaR <= MaxDeltaR
    ensures Increasing(JetsOf(accepted)) && Distinct(GenJetsOf(accepted))
    ensures |accepted| <= Min(nJets, nGenJets)
    ensures forall x :: 0 <= x < nJets ==> (x in unmatchedJets <==> x !in JetsOf(accepted))
    ensures forall y :: 0 <= y < nGenJets ==> (y in unmatchedGenJets <==> y !in GenJetsOf(accepted))
  {
    GreedyPaired(d, nJets, nGenJets, js, gs);
    GreedyPartners(d, nJets, nGenJets, js, gs);
    AcceptedAreGreedyPairs(d, nJets, nGenJets, js, gs, jl, gl, accepted);
    AcceptedOneToOne(d, jl, gl, accepted);
    DistinctBound(JetsOf(accepted), nJets);
    DistinctBound(GenJetsOf(accepted), nGenJets);
    JetPartition(d, jl, gl, cj, accepted, unmatchedJets);
    GenJetPartition(d, jl, gl, cg, accepted, unmatchedGenJets);
  }

  /**
   * After the cut, a reconstructed jet is reported unmatched exactly when it
   * is in no accepted pair.
   */
  lemma JetPartition(d: seq<seq<real>>, jl: seq<int>, gl: seq<int>, labels: seq<int>,
                     accepted: seq<Match>, unmatched: seq<nat>)
    requires Paired(jl, gl) && IsMatrix(d, |jl|, |gl|) && |labels| == |jl|
    requires forall x :: 0 <= x < |jl| ==>
               labels[x] == if exists y :: Rejects(d, jl, gl, x, y) then 0 else jl[x]
    requires forall x :: 0 <= x < |jl| ==> (x in unmatched <==> labels[x] == 0)
    requires forall k :: 0 <= k < |accepted| ==> Accepts(d, jl, gl, accepted[k].jet, accepted[k].genJet)
    requires forall x, y :: Accepts(d, jl, gl, x, y) ==> Match(x, y, d[x][y]) in accepted
    ensures forall x :: 0 <= x < |jl| ==> (x in unmatched <==> x !in JetsOf(accepted))
  {
    CutOutcome(d, jl, gl);
    var jets := JetsOf(accepted);
    forall x | 0 <= x < |jl|
      ensures x in unmatched <==> x !in jets
    {
      if x in jets {
        var k :| 0 <= k < |jets| && jets[k] == x;
        assert Accepts(d, jl, gl, x, accepted[k].genJet);
      }
    }
  }

  /**
   * After the cut, a generated jet is reported unmatched exactly when it is
   * in no accepted pair.
   */
  lemma GenJetPartition(d: seq<seq<real>>, jl: seq<int>, gl: seq<int>, labels: seq<int>,
                        accepted: seq<Match>, unmatched: seq<nat>)
    requires Paired(jl, gl) && IsMatrix(d, |jl|, |gl|) && |labels| == |gl|
    requires forall y :: 0 <= y < |gl| ==>
               labels[y] == if exists x :: Rejects(d, jl, gl, x, y) then 0 else gl[y]
    requires forall y :: 0 <= y < |gl| ==> (y in unmatched <==> labels[y] == 0)
    requires forall k :: 0 <= k < |accepted| ==> Accepts(d, jl, gl, accepted[k].jet, accepted[k].genJet)
    requires forall x, y :: Accepts(d, jl, gl, x, y) ==> Match(x, y, d[x][y]) in accepted
    ensures forall y :: 0 <= y < |gl| ==> (y in unmatched <==> y !in GenJetsOf(accepted))
  {
    CutOutcome(d, jl, gl);
    var genJets := GenJetsOf(accepted);
    forall y | 0 <= y < |gl|
      ensures y in unmatched <==> y !in genJets
    {
      if y in genJets {
        var k :| 0 <= k < |genJets| && genJets[k] == y;
        assert Accepts(d, jl, gl, accepted[k].jet, y);
      }
    }
  }

  /**
   * Under the labels of a greedy run, the pairs the cut accepts are exactly
   * the run's pairs within the threshold.
   */
  lemma AcceptedAreGreedyPairs(d: seq<seq<real>>, nJets: nat, nGenJets: nat, js: seq<nat>, gs: seq<nat>,
                               jl: seq<int>, gl: seq<int>, accepted: seq<Match>)
    requires IsMatrix(d, nJets, nGenJets) && IsGreedy(d, nJets, nGenJets, js, gs)
    requires jl == LabelsAfter(js, nJets) && gl == LabelsAfter(gs, nGenJets)
    requires forall i, j :: Partners(jl, gl, i, j) <==> exists r :: 0 <= r < |js| && js[r] == i && gs[r] == j
    requires forall k :: 0 <= k < |accepted| ==>
               && Accepts(d, jl, gl, accepted[k].jet, accepted[k].genJet)
               && accepted[k].deltaR == d[accepted[k].jet][accepted[k].genJet]
    requires forall x, y :: Accepts(d, jl, gl, x, y) ==> Match(x, y, d[x][y]) in accepted
    ensures ReportsCut(d, nJets, nGenJets, js, gs, accepted)
  {
    forall r | 0 <= r < |js|
      ensures Match(js[r], gs[r], d[js[r]][gs[r]]) in accepted <==> d[js[r]][gs[r]] <= MaxDeltaR
    {
      assert Partners(jl, gl, js[r], gs[r]);
      if Match(js[r], gs[r], d[js[r]][gs[r]]) in accepted {
        var k :| 0 <= k < |accepted| && accepted[k] == Match(js[r], gs[r], d[js[r]][gs[r]]);
        assert Accepts(d, jl, gl, accepted[k].jet, accepted[k].genJet);
      } else {
        assert !Accepts(d, jl, gl, js[r], gs[r]);
      }
    }
    forall k | 0 <= k < |accepted|
      ensures exists r :: 0 <= r < |js| && accepted[k] == Match(js[r], gs[r], d[js[r]][gs[r]])
    {
      assert Partners(jl, gl, accepted[k].jet, accepted[k].genJet);
    }
  }

  /**
   * Accepted pairs listed in increasing reconstructed index under one-to-one
   * labels use every generated jet at most once.
   */
  lemma AcceptedOneToOne(d: seq<seq<real>>, jl: seq<int>, gl: seq<int>, accepted: seq<Match>)
    requires Paired(jl, gl)
    requires forall k :: 0 <= k < |accepted| ==> Accepts(d, jl, gl, accepted[k].jet, accepted[k].genJet)
    requires forall k, k' :: 0 <= k < k' < |accepted| ==> accepted[k].jet < accepted[k'].jet
    ensures Increasing(JetsOf(accepted)) && Distinct(GenJetsOf(accepted))
  {
    forall k, k' | 0 <= k < k' < |accepted|
      ensures accepted[k].genJet != accepted[k'].genJet
    {
    }
  }
}
