# Greedy jet matcher: one event

This project models the per-event jet matcher inside `Matching()` in
`Matching.C`. For each event, the matcher pairs reconstructed jets with
generated jets, cuts the pairs that are too far apart, and reports the jets
left unmatched. It has three phases:

1. **Greedy matching.** Every jet on both sides carries a label, the
   `JetEntries` and `GenJetEntries` arrays, which starts at 0 (unassigned).
   Each round scans all pairs of unassigned jets in i-major, j-minor order.
   It keeps the first pair of smallest distance (the comparison is strict)
   and stamps both jets with the round number 1, 2, 3, …. The loop runs
   while both side counters are non-zero, and both drop by one per round.
2. **Cut.** The scan finds each paired (reconstructed, generated) couple
   through their equal non-zero labels. A couple at distance at most 1 is
   accepted and reported. Otherwise both labels are reset to 0.
3. **Unmatched enumeration.** Every index whose label is 0 is reported
   unmatched: first the generated jets, then the reconstructed jets.

In the model, the angular distance of reconstructed jet `i` to generated jet
`j` is an input `d[i][j]` of type `real`. Each label array is an
`array<int>` updated in place, as in the source. The histogram fills become
returned sequences:

- the accepted pairs, `Match(jet, genJet, deltaR)`;
- the unmatched generated indices;
- the unmatched reconstructed indices.

Modules:

- `Labels` (`labels.dfy`): the label array left by stamping a sequence of
  indices round by round (`LabelsAfter`), the facts that characterise it
  (`StampedBy`), and the counting (pigeonhole) lemmas.
- `Greedy` (`greedy.dfy`): one round's scan (`FindClosest`) and the while
  loop (`GreedyMatch`). `GreedyMatch` is specified by a ghost record of the
  rounds and the predicate `IsGreedy`: every round takes the pair the scan
  selects under the labels of the earlier rounds.
- `Cut` (`cut.dfy`): the cut loop (`ApplyCut`) and what the greedy labels
  guarantee it (`Paired`).
- `Matching` (`event.dfy`): the unmatched loops (`CollectUnmatched`) and one
  whole event (`MatchEvent`).
- `Scenarios` (`scenarios.dfy`): small events whose outcome is worked out
  in full.

## Model

| member | source | states |
|---|---|---|
| Greedy.Unassign | Matching.C:57-67 | Before matching, every label of the array is 0 (unassigned). |
| Greedy.FindClosest | Matching.C:76-99 | If some pair of unassigned jets lies below the 999 sentinel, the scan returns the pair the round selects (`IsClosest`). Both jets are unassigned. Its distance is no larger than that of any unassigned pair, and strictly smaller than that of every unassigned pair scanned before it, so ties go to the first pair in i-major, j-minor order. Otherwise both indices stay 999. |
| Greedy.ClosestUnique | Matching.C:80-98 | Under given labels, at most one pair satisfies the selection criterion, so the strict comparison makes the choice unique. |
| Greedy.GreedyMatch | Matching.C:69-105 | Starting from zeroed arrays, the loop runs exactly min(J, G) rounds, and zero rounds when either side is empty. The rounds form a greedy run. On exit each array holds exactly the stamps of that run: jet xs[r] carries r + 1 and every other jet carries 0. |
| Greedy.GreedyStep | Matching.C:100-104 | Stamping the pair the current scan selects extends a greedy run by one round. |
| Greedy.GreedyPrefix | Matching.C:75-105 | The first k rounds of a greedy run are a greedy run. |
| Greedy.GreedyHasCandidate | Matching.C:69-78 | While fewer than min(J, G) rounds have run and every distance lies below the sentinel, an unassigned pair below the sentinel exists, so the indices written at lines 102-103 are never the sentinel 999. |
| Greedy.GreedyDistinct | Matching.C:81-84 | No jet on either side is paired in two rounds, because the scan only considers jets whose label is below 1. |
| Greedy.GreedyLabels | Matching.C:102-104 | After k rounds, on each side: the jet paired in round r + 1 carries label r + 1; the labels lie in 0 .. k; a label is 0 exactly on the jets never paired; no non-zero label is carried twice. So each of 1 .. k is carried by exactly one jet per side. |
| Greedy.GreedyLabelsPersist | Matching.C:81-84 | A label that is non-zero after k rounds is the same after all later rounds: no non-zero entry is overwritten. |
| Greedy.GreedyUnique | Matching.C:75-105 | Two greedy runs of the same length over the same distances are identical, so the matching is a function of the distances. |
| Greedy.GreedyOrdered | Matching.C:91-94 | An earlier round selects a pair no farther than any later round's pair. |
| Greedy.GreedyNondecreasing | Matching.C:91-94 | The distances of the pairs, in round order, never decrease. |
| Labels.LabelsAfterBounds | Matching.C:102-104 | Stamped labels lie in 0 .. k after k rounds, and every stamped jet carries a label of at least 1. |
| Labels.LabelsAfterAt | Matching.C:102-104 | When no jet is stamped twice, the jet stamped in round r + 1 carries r + 1 and every unstamped jet carries 0. |
| Labels.LabelsAfterFacts | Matching.C:102-104 | Stamping without repetition yields labels with every property of `StampedBy`. |
| Labels.LabelsAfterPrefix | Matching.C:102-104 | A label stamped in the first k rounds survives all later rounds. |
| Labels.DistinctBound | Matching.C:75 | Pigeonhole: a list of n objects without repetition has at most n entries. This bounds the number of accepted pairs. |
| Labels.UnstampedExists | Matching.C:100-101 | Pigeonhole: fewer than n stamps leave an object of n unstamped. |
| Cut.StampsPaired | Matching.C:102-103 | Two stamp sequences of equal length pair the jets one-to-one. Each non-zero label occurs once per side, and on both sides. |
| Cut.StampsPartners | Matching.C:102-103 | Two jets share a non-zero label exactly when they were stamped in the same round. |
| Cut.GreedyPaired | Matching.C:100-104 | After the greedy loop, the labels pair the jets one-to-one: each non-zero label is carried by exactly one jet per side, and on both sides. |
| Cut.GreedyPartners | Matching.C:102-114 | After the greedy loop, a reconstructed and a generated jet share a non-zero label (the cut's test at line 114) if and only if one round paired them. |
| Cut.CutOutcome | Matching.C:114-136 | With one-to-one labels, a jet is in an accepted pair if and only if it carries a non-zero label and its pair is not rejected. This holds on both sides. |
| Cut.ApplyCut | Matching.C:112-139 | A pair sharing a non-zero label at distance > 1 has both labels reset to 0, and no other entry changes. Every reported pair shares a non-zero label, is at distance ≤ 1, and carries its own distance. Every such pair is reported. Reports come in increasing reconstructed index. |
| Matching.CollectUnmatched | Matching.C:142-167 | The reported indices are exactly those whose label is 0, each reported once, in increasing order. |
| Matching.AcceptedAreGreedyPairs | Matching.C:112-132 | The reported pairs are exactly the greedy run's pairs at distance ≤ 1. |
| Matching.AcceptedOneToOne | Matching.C:112-124 | Reported pairs use every reconstructed and every generated jet at most once. |
| Matching.JetPartition | Matching.C:156-157 | After the cut, a reconstructed jet is reported unmatched if and only if it is in no accepted pair. |
| Matching.GenJetPartition | Matching.C:142-143 | After the cut, a generated jet is reported unmatched if and only if it is in no accepted pair. |
| Matching.MatchEvent | Matching.C:55-167 | For one event: the accepted pairs are the pairs of the unique greedy run of min(J, G) rounds whose distance is ≤ 1. They are in range and carry their distance, and no jet occurs twice among them. There are at most min(J, G) of them. On each side every jet is either in an accepted pair or reported unmatched exactly once, never both. |
| Matching.EventOutcome | Matching.C:112-167 | From what the three phases leave (the greedy labels, the labels after the cut, the accepted pairs and the indices left at 0), the report has every property `MatchEvent` promises. |
| Scenarios.UnevenSides | Matching.C:75-105 | With two reconstructed jets and one generated jet, every one-round greedy run pairs the closer reconstructed jet, and a report of that run contains exactly that pair. One round is the count `Greedy.GreedyMatch` fixes, min(2, 1) = 1. |
| Scenarios.TieBreak | Matching.C:91 | With all distances equal, the strict comparison pairs (0, 0) and then (1, 1). |
| Scenarios.GreedyIsNotOptimal | Matching.C:75-105 | The matcher is greedy, not an optimal assignment. On a 2×2 event the only two-round run pairs (0, 0) and (1, 1), and the total distance (`Cost`) of that pairing exceeds that of the crossed pairing (0, 1), (1, 0). |
| Scenarios.RejectedPair | Matching.C:124-136 | A single pair at distance 1.5 is rejected by the cut, and nothing is reported as accepted. |

## Left out

- The ROOT/Delphes input (chain, tree reader, branch access, reading an event) is not modelled. The jet counts J and G and the distance matrix are parameters of `MatchEvent`.
- Histograms and the canvas (booking, filling, drawing) are not modelled. What is filled is returned as sequences instead.
- The kinematics are not modelled: four-momenta, `DeltaR` (the η/φ difference and square root) and the energy `PT * cosh(η)` are floating-point library calls. The distance is an abstract `real` matrix, and the reported pairs and unmatched jets carry indices rather than energies.
- The running minimum is a `float` in the source while `DeltaR` returns a `double`. The model compares exact reals, so it does not capture a tie-break that could change when two distances round to the same `float`.
- Greedy.GreedyMatch and Matching.MatchEvent require every distance to lie below the 999 sentinel. Otherwise a round can find no pair, keep the sentinel indices 999, and write outside both arrays (lines 102-103). That case is undefined behaviour in the source, so it is excluded rather than modelled. The requirement is stronger than what the source needs to stay in bounds: the source only needs a free pair below 999 in each round. So some well-defined inputs are also excluded, for example J = 1, G = 2 with distances [[0.5, 1000.0]].
- Cut.ApplyCut tests and reports the exact distance `d[i][j]`, the same value the scan compares. The source stores the `double` from `DeltaR` into the `float` `deltaR` (lines 109 and 121) before testing `deltaR <= 1` (line 124) and filling it. So a pair whose double distance lies in (1, 1 + 2^-24], such as 1.00000005, rounds to 1.0f: the source accepts it and reports 1.0, while the model rejects it. Matching.MatchEvent inherits this. No single real matrix can reproduce both the scan's double comparison and the cut's float one.
- Cut.ApplyCut requires one-to-one labels (`Paired`), the state the greedy loop leaves, which is the only state the cut loop runs on. Arbitrary label arrays are not modelled.
- The read of `ungenjet` in the loop over unmatched reconstructed jets (line 161) is not modelled. Its value is never used, but the pointer is declared without a value (line 49) and assigned only at line 144. So the first time a reconstructed jet is left unmatched before any generated jet has been unmatched in the run, line 161 dereferences an uninitialised pointer. That is undefined behaviour and may crash the run; an example is a first event with J = 2, G = 1 and a close pair. It depends on state carried across events and on the pointer's undefined value, so it lies outside a one-event model.
- The loop over events is not modelled, because no state carries over from one event to the next. One event is modelled.
- The variant of the matcher that excludes leptons is not part of this model.
- C `int` overflow is not modelled: the round counter never exceeds the number of jets.
