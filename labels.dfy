/**
 * Label arrays of the jet matcher.
 *
 * During one event every reconstructed jet and every generated jet carries an
 * integer label: 0 while it is unassigned, and the 1-based number of the
 * greedy round that paired it otherwise. This module describes the label
 * array obtained by stamping a sequence of indices round by round, and the
 * counting facts (pigeonhole) the matcher relies on.
 */
module Labels {

  /** Every index of `xs` addresses one of `n` objects. */
  predicate InRange(xs: seq<nat>, n: nat)
  {
    forall r :: 0 <= r < |xs| ==> xs[r] < n
  }

  /** No index occurs twice in `xs`. */
  predicate Distinct(xs: seq<nat>)
  {
    forall r, s :: 0 <= r < s < |xs| ==> xs[r] != xs[s]
  }

  /** `xs` is strictly increasing (so in particular it lists no index twice). */
  predicate Increasing(xs: seq<nat>)
  {
    forall r, s :: 0 <= r < s < |xs| ==> xs[r] < xs[s]
  }

  /**
   * The label array of `n` objects after round r + 1 stamped label r + 1 on
   * object xs[r], starting from an array of zeros.
   */
  function LabelsAfter(xs: seq<nat>, n: nat): (l: seq<int>)
    requires InRange(xs, n)
    ensures |l| == n
    decreases |xs|
  {
    if xs == [] then seq(n, _ => 0)
    else LabelsAfter(xs[..|xs| - 1], n)[xs[|xs| - 1] := |xs|]
  }

  /** Stamping never produces a negative label and never a label above the round count. */
  lemma {:induction false} LabelsAfterBounds(xs: seq<nat>, n: nat)
    requires InRange(xs, n)
    ensures forall x :: 0 <= x < n ==> 0 <= LabelsAfter(xs, n)[x] <= |xs|
    ensures forall r :: 0 <= r < |xs| ==> LabelsAfter(xs, n)[xs[r]] >= 1
    decreases |xs|
  {
    if xs != [] {
      var p := xs[..|xs| - 1];
      LabelsAfterBounds(p, n);
      forall r | 0 <= r < |xs|
        ensures LabelsAfter(xs, n)[xs[r]] >= 1
      {
        if r < |p| {
          assert xs[r] == p[r];
        }
      }
    }
  }

  /**
   * When no index is stamped twice, object xs[r] carries exactly label r + 1
   * and every object that was never stamped still carries 0.
   */
  lemma {:induction false} LabelsAfterAt(xs: seq<nat>, n: nat)
    requires InRange(xs, n) && Distinct(xs)
    ensures forall r :: 0 <= r < |xs| ==> LabelsAfter(xs, n)[xs[r]] == r + 1
    ensures forall x :: 0 <= x < n && x !in xs ==> LabelsAfter(xs, n)[x] == 0
    decreases |xs|
  {
    if xs != [] {
      var p := xs[..|xs| - 1];
      LabelsAfterAt(p, n);
      forall r | 0 <= r < |xs|
        ensures LabelsAfter(xs, n)[xs[r]] == r + 1
      {
        if r < |p| {
          assert xs[r] == p[r];
        }
      }
      forall x | 0 <= x < n && x !in xs
        ensures LabelsAfter(xs, n)[x] == 0
      {
        assert x !in p;
      }
    }
  }

  /**
   * Label array l is what stamping xs without repetition leaves: object
   * xs[r] carries r + 1, labels lie in 0 .. |xs|, a label is 0 exactly on
   * the objects never stamped, and no non-zero label is carried twice.
   */
  ghost predicate StampedBy(l: seq<int>, xs: seq<nat>)
  {
    && InRange(xs, |l|)
    && (forall r :: 0 <= r < |xs| ==> l[xs[r]] == r + 1)
    && (forall x :: 0 <= x < |l| ==> 0 <= l[x] <= |xs| && (l[x] == 0 <==> x !in xs))
    && (forall x, x' :: 0 <= x < x' < |l| && l[x] != 0 ==> l[x] != l[x'])
  }

  /** Stamping without repetition leaves exactly the labels StampedBy describes. */
  lemma LabelsAfterFacts(xs: seq<nat>, n: nat)
    requires InRange(xs, n) && Distinct(xs)
    ensures StampedBy(LabelsAfter(xs, n), xs)
  {
    LabelsAfterAt(xs, n);
    LabelsAfterBounds(xs, n);
    var l := LabelsAfter(xs, n);
    forall x, x' | 0 <= x < x' < n && l[x] != 0
      ensures l[x] != l[x']
    {
      var r :| 0 <= r < |xs| && xs[r] == x;
      if x' in xs {
        var r' :| 0 <= r' < |xs| && xs[r'] == x';
        assert r != r';
      }
    }
  }

  /** A label stamped in the first k rounds is still there after all rounds. */
  lemma LabelsAfterPrefix(xs: seq<nat>, n: nat, k: nat)
    requires InRange(xs, n) && Distinct(xs) && k <= |xs|
    ensures InRange(xs[..k], n)
    ensures forall x :: 0 <= x < n && LabelsAfter(xs[..k], n)[x] != 0 ==>
              LabelsAfter(xs, n)[x] == LabelsAfter(xs[..k], n)[x]
  {
    var p := xs[..k];
    assert Distinct(p);
    LabelsAfterAt(xs, n);
    LabelsAfterAt(p, n);
    forall x | 0 <= x < n && LabelsAfter(p, n)[x] != 0
      ensures LabelsAfter(xs, n)[x] == LabelsAfter(p, n)[x]
    {
      var r :| 0 <= r < k && p[r] == x;
      assert xs[r] == x;
    }
  }

  /** The set of indices listed in `xs`. */
  function Elems(xs: seq<nat>): set<nat>
  {
    set x | x in xs
  }

  /** The indices 0 .. n - 1 of `n` objects. */
  function Indices(n: nat): (s: set<nat>)
    ensures forall x: nat :: x in s <==> x < n
    ensures |s| == n
  {
    if n == 0 then {} else Indices(n - 1) + {n - 1}
  }

  /** A subset is no larger than the set that contains it. */
  lemma {:induction false} SubsetCard(a: set<nat>, b: set<nat>)
    requires a <= b
    ensures |a| <= |b|
    decreases a
  {
    if a != {} {
      var x :| x in a;
      SubsetCard(a - {x}, b - {x});
    }
  }

  lemma {:induction false} ElemsCard(xs: seq<nat>)
    ensures |Elems(xs)| <= |xs|
    ensures Distinct(xs) ==> |Elems(xs)| == |xs|
    decreases |xs|
  {
    if xs != [] {
      var p := xs[..|xs| - 1];
      ElemsCard(p);
      assert xs == p + [xs[|xs| - 1]];
      assert Elems(xs) == Elems(p) + {xs[|xs| - 1]};
      if Distinct(xs) {
        assert Distinct(p);
        assert xs[|xs| - 1] !in Elems(p);
      }
    }
  }

  /** Pigeonhole: `n` objects can be listed without repetition at most `n` times. */
  lemma DistinctBound(xs: seq<nat>, n: nat)
    requires InRange(xs, n) && Distinct(xs)
    ensures |xs| <= n
  {
    ElemsCard(xs);
    SubsetCard(Elems(xs), Indices(n));
  }

  /** Pigeonhole: fewer than `n` stamps leave one of `n` objects unstamped. */
  lemma UnstampedExists(xs: seq<nat>, n: nat)
    requires InRange(xs, n) && |xs| < n
    ensures exists x :: 0 <= x < n && x !in xs
  {
    if forall x :: 0 <= x < n ==> x in xs {
      ElemsCard(xs);
        SubsetCard(Indices(n), Elems(xs));
    }
  }
}
