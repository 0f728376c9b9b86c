/**
 * The liveness equations over an abstract CFG:
 *
 *   LiveIn(s)  = UEVar(s) ∪ (LiveOut(s) − VarKill(s))
 *   LiveOut(b) = ⋃ { LiveIn(s) | s a successor of b }
 *
 * A per-block assignment of LiveOut sets is a `seq<set<V>>` indexed by block.
 */
module Equations {
  import opened Cfg

  /** What flows into the exit of a predecessor of s. */
  function LiveIn<V>(s: nat, ueVar: seq<set<V>>, varKill: seq<set<V>>, liveOut: seq<set<V>>): set<V>
    requires s < |ueVar| && s < |varKill| && s < |liveOut|
  {
    ueVar[s] + (liveOut[s] - varKill[s])
  }

  /** Every listed successor has a set in each of the three sequences. */
  predicate Indexes<V>(succs: seq<nat>, ueVar: seq<set<V>>, varKill: seq<set<V>>, liveOut: seq<set<V>>)
  {
    forall k :: 0 <= k < |succs| ==> succs[k] < |ueVar| && succs[k] < |varKill| && succs[k] < |liveOut|
  }

  /** The union of LiveIn over a list of successors. */
  function Inflow<V>(succs: seq<nat>, ueVar: seq<set<V>>, varKill: seq<set<V>>, liveOut: seq<set<V>>): set<V>
    requires Indexes(succs, ueVar, varKill, liveOut)
    decreases |succs|
  {
    if succs == [] then {}
    else Inflow(succs[..|succs| - 1], ueVar, varKill, liveOut) + LiveIn(succs[|succs| - 1], ueVar, varKill, liveOut)
  }

  /** Every variable some block reads before writing it. */
  function ReadVars<V>(ueVar: seq<set<V>>): (r: set<V>)
    ensures forall b :: 0 <= b < |ueVar| ==> ueVar[b] <= r
  {
    set b, v | 0 <= b < |ueVar| && v in ueVar[b] :: v
  }

  /** One set per block, and every edge inside the routine. */
  predicate Shaped<V>(succ: seq<seq<nat>>, ueVar: seq<set<V>>, varKill: seq<set<V>>, liveOut: seq<set<V>>)
  {
    && |ueVar| == |succ| && |varKill| == |succ| && |liveOut| == |succ|
    && WellFormed(succ)
  }

  /** LiveOut satisfies the equations at every block. */
  predicate IsSolution<V>(succ: seq<seq<nat>>, ueVar: seq<set<V>>, varKill: seq<set<V>>, liveOut: seq<set<V>>)
  {
    && Shaped(succ, ueVar, varKill, liveOut)
    && forall b {:trigger Inflow(succ[b], ueVar, varKill, liveOut)} ::
         0 <= b < |succ| ==> liveOut[b] == Inflow(succ[b], ueVar, varKill, liveOut)
  }

  /** LiveOut already holds everything its successors send it (a post-fixpoint). */
  predicate Closed<V>(succ: seq<seq<nat>>, ueVar: seq<set<V>>, varKill: seq<set<V>>, liveOut: seq<set<V>>)
  {
    && Shaped(succ, ueVar, varKill, liveOut)
    && forall b {:trigger Inflow(succ[b], ueVar, varKill, liveOut)} ::
         0 <= b < |succ| ==> Inflow(succ[b], ueVar, varKill, liveOut) <= liveOut[b]
  }

  /** Every member of LiveOut was sent by some successor (a pre-fixpoint). */
  predicate Justified<V>(succ: seq<seq<nat>>, ueVar: seq<set<V>>, varKill: seq<set<V>>, liveOut: seq<set<V>>)
  {
    && Shaped(succ, ueVar, varKill, liveOut)
    && forall b {:trigger Inflow(succ[b], ueVar, varKill, liveOut)} ::
         0 <= b < |succ| ==> liveOut[b] <= Inflow(succ[b], ueVar, varKill, liveOut)
  }

  /** Block by block inclusion. */
  predicate Below<V>(lo: seq<set<V>>, hi: seq<set<V>>)
  {
    |lo| == |hi| && forall b :: 0 <= b < |lo| ==> lo[b] <= hi[b]
  }

  /** The net effect of visiting block b once: its LiveOut absorbs the inflow. */
  function Step<V>(succ: seq<seq<nat>>, ueVar: seq<set<V>>, varKill: seq<set<V>>, liveOut: seq<set<V>>, b: nat): (r: seq<set<V>>)
    requires Shaped(succ, ueVar, varKill, liveOut) && b < |succ|
    ensures Shaped(succ, ueVar, varKill, r)
    ensures Below(liveOut, r)
    ensures forall c :: 0 <= c < |r| && c != b ==> r[c] == liveOut[c]
  {
    liveOut[b := liveOut[b] + Inflow(succ[b], ueVar, varKill, liveOut)]
  }

  /** Visiting blocks from, from + 1, ..., n - 1 in order, each seeing the updates before it. */
  function Sweep<V>(succ: seq<seq<nat>>, ueVar: seq<set<V>>, varKill: seq<set<V>>, liveOut: seq<set<V>>, from: nat): (r: seq<set<V>>)
    requires Shaped(succ, ueVar, varKill, liveOut) && from <= |succ|
    ensures Shaped(succ, ueVar, varKill, r)
    decreases |succ| - from
  {
    if from == |succ| then liveOut
    else Sweep(succ, ueVar, varKill, Step(succ, ueVar, varKill, liveOut, from), from + 1)
  }

  /** A variable flows in exactly when it is live into one of the listed successors. */
  lemma {:induction false} InflowMembers<V>(succs: seq<nat>, ueVar: seq<set<V>>, varKill: seq<set<V>>, liveOut: seq<set<V>>, v: V)
    requires Indexes(succs, ueVar, varKill, liveOut)
    ensures v in Inflow(succs, ueVar, varKill, liveOut) <==>
              exists k :: 0 <= k < |succs| && v in LiveIn(succs[k], ueVar, varKill, liveOut)
    decreases |succs|
  {
    if succs != [] {
      var init := succs[..|succs| - 1];
      InflowMembers(init, ueVar, varKill, liveOut, v);
      if exists k :: 0 <= k < |init| && v in LiveIn(init[k], ueVar, varKill, liveOut) {
        var k :| 0 <= k < |init| && v in LiveIn(init[k], ueVar, varKill, liveOut);
        assert succs[k] == init[k];
      }
      if exists k :: 0 <= k < |succs| && v in LiveIn(succs[k], ueVar, varKill, liveOut) {
        var k :| 0 <= k < |succs| && v in LiveIn(succs[k], ueVar, varKill, liveOut);
        if k < |init| {
          assert succs[k] == init[k];
        }
      }
    }
  }

  /** Larger LiveOut sets at the successors never shrink the inflow. */
  lemma {:induction false} InflowMonotone<V>(succs: seq<nat>, ueVar: seq<set<V>>, varKill: seq<set<V>>, lo: seq<set<V>>, hi: seq<set<V>>)
    requires Indexes(succs, ueVar, varKill, lo) && Below(lo, hi)
    ensures Inflow(succs, ueVar, varKill, lo) <= Inflow(succs, ueVar, varKill, hi)
    decreases |succs|
  {
    if succs != [] {
      InflowMonotone(succs[..|succs| - 1], ueVar, varKill, lo, hi);
    }
  }

  /** The inflow never leaves a universe that holds the successors' UEVar and LiveOut. */
  lemma {:induction false} InflowWithin<V>(succs: seq<nat>, ueVar: seq<set<V>>, varKill: seq<set<V>>, liveOut: seq<set<V>>, u: set<V>)
    requires Indexes(succs, ueVar, varKill, liveOut)
    requires forall k :: 0 <= k < |succs| ==> ueVar[succs[k]] <= u && liveOut[succs[k]] <= u
    ensures Inflow(succs, ueVar, varKill, liveOut) <= u
    decreases |succs|
  {
    if succs != [] {
      InflowWithin(succs[..|succs| - 1], ueVar, varKill, liveOut, u);
    }
  }

  /** Every solution is closed. */
  lemma SolutionIsClosed<V>(succ: seq<seq<nat>>, ueVar: seq<set<V>>, varKill: seq<set<V>>, liveOut: seq<set<V>>)
    requires IsSolution(succ, ueVar, varKill, liveOut)
    ensures Closed(succ, ueVar, varKill, liveOut)
  {
  }

  /** Step only grows block b and stays below any closed assignment that is already above. */
  lemma StepBelowClosed<V>(succ: seq<seq<nat>>, ueVar: seq<set<V>>, varKill: seq<set<V>>, lo: seq<set<V>>, hi: seq<set<V>>, b: nat)
    requires Shaped(succ, ueVar, varKill, lo) && b < |succ|
    requires Closed(succ, ueVar, varKill, hi) && Below(lo, hi)
    ensures Below(Step(succ, ueVar, varKill, lo, b), hi)
  {
    InflowMonotone(succ[b], ueVar, varKill, lo, hi);
  }

  /** Contained in every closed assignment, hence in every solution. */
  ghost predicate BelowEveryClosed<V(!new)>(succ: seq<seq<nat>>, ueVar: seq<set<V>>, varKill: seq<set<V>>, liveOut: seq<set<V>>)
  {
    forall sol :: Closed(succ, ueVar, varKill, sol) ==> Below(liveOut, sol)
  }

  /** The all-empty start is below every closed assignment, and Step keeps it there. */
  lemma StepBelowEveryClosed<V(!new)>(succ: seq<seq<nat>>, ueVar: seq<set<V>>, varKill: seq<set<V>>, lo: seq<set<V>>, b: nat)
    requires Shaped(succ, ueVar, varKill, lo) && b < |succ|
    requires BelowEveryClosed(succ, ueVar, varKill, lo)
    ensures BelowEveryClosed(succ, ueVar, varKill, Step(succ, ueVar, varKill, lo, b))
  {
    forall sol | Closed(succ, ueVar, varKill, sol) ensures Below(Step(succ, ueVar, varKill, lo, b), sol) {
      StepBelowClosed(succ, ueVar, varKill, lo, sol, b);
    }
  }

  /** Step keeps every LiveOut member justified by a successor. */
  lemma StepJustified<V>(succ: seq<seq<nat>>, ueVar: seq<set<V>>, varKill: seq<set<V>>, lo: seq<set<V>>, b: nat)
    requires Justified(succ, ueVar, varKill, lo) && b < |succ|
    ensures Justified(succ, ueVar, varKill, Step(succ, ueVar, varKill, lo, b))
  {
    var next := Step(succ, ueVar, varKill, lo, b);
    assert Below(lo, next);
    forall c | 0 <= c < |succ| ensures next[c] <= Inflow(succ[c], ueVar, varKill, next) {
      InflowMonotone(succ[c], ueVar, varKill, lo, next);
    }
  }

  /** Visiting any block of a solution changes nothing. */
  lemma StepFixesSolution<V>(succ: seq<seq<nat>>, ueVar: seq<set<V>>, varKill: seq<set<V>>, liveOut: seq<set<V>>, b: nat)
    requires IsSolution(succ, ueVar, varKill, liveOut) && b < |succ|
    ensures Step(succ, ueVar, varKill, liveOut, b) == liveOut
  {
    assert liveOut[b] + Inflow(succ[b], ueVar, varKill, liveOut) == liveOut[b];
  }

  /** Every LiveOut set lies within the universe u. */
  predicate Within<V>(liveOut: seq<set<V>>, u: set<V>)
  {
    forall b :: 0 <= b < |liveOut| ==> liveOut[b] <= u
  }

  /**
   * The all-empty start of the solver is justified, below every closed
   * assignment and within every universe.
   */
  lemma EmptyStart<V(!new)>(succ: seq<seq<nat>>, ueVar: seq<set<V>>, varKill: seq<set<V>>, liveOut: seq<set<V>>, u: set<V>)
    requires Shaped(succ, ueVar, varKill, liveOut)
    requires forall b :: 0 <= b < |liveOut| ==> liveOut[b] == {}
    ensures Justified(succ, ueVar, varKill, liveOut)
    ensures BelowEveryClosed(succ, ueVar, varKill, liveOut)
    ensures Within(liveOut, u)
  {
  }

  /** A sweep only grows LiveOut sets. */
  lemma {:induction false} SweepGrows<V>(succ: seq<seq<nat>>, ueVar: seq<set<V>>, varKill: seq<set<V>>, liveOut: seq<set<V>>, from: nat)
    requires Shaped(succ, ueVar, varKill, liveOut) && from <= |succ|
    ensures Below(liveOut, Sweep(succ, ueVar, varKill, liveOut, from))
    decreases |succ| - from
  {
    if from < |succ| {
      SweepGrows(succ, ueVar, varKill, Step(succ, ueVar, varKill, liveOut, from), from + 1);
    }
  }

  /** A sweep keeps every LiveOut member justified by a successor. */
  lemma {:induction false} SweepJustified<V>(succ: seq<seq<nat>>, ueVar: seq<set<V>>, varKill: seq<set<V>>, liveOut: seq<set<V>>, from: nat)
    requires Justified(succ, ueVar, varKill, liveOut) && from <= |succ|
    ensures Justified(succ, ueVar, varKill, Sweep(succ, ueVar, varKill, liveOut, from))
    decreases |succ| - from
  {
    if from < |succ| {
      StepJustified(succ, ueVar, varKill, liveOut, from);
      SweepJustified(succ, ueVar, varKill, Step(succ, ueVar, varKill, liveOut, from), from + 1);
    }
  }

  /** A sweep stays below every closed assignment. */
  lemma {:induction false} SweepBelowEveryClosed<V(!new)>(succ: seq<seq<nat>>, ueVar: seq<set<V>>, varKill: seq<set<V>>, liveOut: seq<set<V>>, from: nat)
    requires Shaped(succ, ueVar, varKill, liveOut) && from <= |succ|
    requires BelowEveryClosed(succ, ueVar, varKill, liveOut)
    ensures BelowEveryClosed(succ, ueVar, varKill, Sweep(succ, ueVar, varKill, liveOut, from))
    decreases |succ| - from
  {
    if from < |succ| {
      StepBelowEveryClosed(succ, ueVar, varKill, liveOut, from);
      SweepBelowEveryClosed(succ, ueVar, varKill, Step(succ, ueVar, varKill, liveOut, from), from + 1);
    }
  }

  /** A sweep never adds a variable outside a universe holding every UEVar. */
  lemma {:induction false} SweepWithin<V>(succ: seq<seq<nat>>, ueVar: seq<set<V>>, varKill: seq<set<V>>, liveOut: seq<set<V>>, from: nat, u: set<V>)
    requires Shaped(succ, ueVar, varKill, liveOut) && from <= |succ|
    requires Within(ueVar, u) && Within(liveOut, u)
    ensures Within(Sweep(succ, ueVar, varKill, liveOut, from), u)
    decreases |succ| - from
  {
    if from < |succ| {
      InflowWithin(succ[from], ueVar, varKill, liveOut, u);
      SweepWithin(succ, ueVar, varKill, Step(succ, ueVar, varKill, liveOut, from), from + 1, u);
    }
  }

  /**
   * A sweep that changes nothing leaves every visited block holding its
   * whole inflow.
   */
  lemma {:induction false} SweepUnchangedClosed<V>(succ: seq<seq<nat>>, ueVar: seq<set<V>>, varKill: seq<set<V>>, liveOut: seq<set<V>>, from: nat)
    requires Shaped(succ, ueVar, varKill, liveOut) && from <= |succ|
    requires Sweep(succ, ueVar, varKill, liveOut, from) == liveOut
    ensures forall b :: from <= b < |succ| ==> Inflow(succ[b], ueVar, varKill, liveOut) <= liveOut[b]
    decreases |succ| - from
  {
    if from < |succ| {
      var next := Step(succ, ueVar, varKill, liveOut, from);
      SweepGrows(succ, ueVar, varKill, next, from + 1);
      assert forall c :: 0 <= c < |next| ==> next[c] == liveOut[c];
      assert next == liveOut;
      SweepUnchangedClosed(succ, ueVar, varKill, liveOut, from + 1);
    }
  }

  /** One more sweep over a solution changes nothing. */
  lemma {:induction false} SweepFixesSolution<V>(succ: seq<seq<nat>>, ueVar: seq<set<V>>, varKill: seq<set<V>>, liveOut: seq<set<V>>, from: nat)
    requires IsSolution(succ, ueVar, varKill, liveOut) && from <= |succ|
    ensures Sweep(succ, ueVar, varKill, liveOut, from) == liveOut
    decreases |succ| - from
  {
    if from < |succ| {
      var next := Step(succ, ueVar, varKill, liveOut, from);
      StepFixesSolution(succ, ueVar, varKill, liveOut, from);
      SweepFixesSolution(succ, ueVar, varKill, liveOut, from + 1);
      calc {
        Sweep(succ, ueVar, varKill, liveOut, from);
        Sweep(succ, ueVar, varKill, next, from + 1);
        { assert next == liveOut; }
        Sweep(succ, ueVar, varKill, liveOut, from + 1);
      }
    }
  }

  /**
   * A solution below every closed assignment is unique, whatever order
   * produced it.
   */
  lemma LeastSolutionUnique<V>(succ: seq<seq<nat>>, ueVar: seq<set<V>>, varKill: seq<set<V>>, a: seq<set<V>>, c: seq<set<V>>)
    requires IsSolution(succ, ueVar, varKill, a) && IsSolution(succ, ueVar, varKill, c)
    requires forall sol :: Closed(succ, ueVar, varKill, sol) ==> Below(a, sol)
    requires forall sol :: Closed(succ, ueVar, varKill, sol) ==> Below(c, sol)
    ensures a == c
  {
    SolutionIsClosed(succ, ueVar, varKill, a);
    SolutionIsClosed(succ, ueVar, varKill, c);
    assert Below(a, c) && Below(c, a);
    assert forall b :: 0 <= b < |a| ==> a[b] == c[b];
  }
}
