/**
 * The iterative solver: computeLiveOut folds each successor's LiveIn into
 * one block's LiveOut in place, and the driver sweeps over all blocks in
 * index order until a whole sweep changes no LiveOut.
 */
module Solver {
  import opened Cfg
  import opened LocalAnalysis
  import opened Equations

  /**
   * computeLiveOut: for each successor s of block b in turn, LiveOut[b] absorbs
   * UEVar[s] ∪ (LiveOut[s] − VarKill[s]), reading LiveOut[s] as it is at that
   * moment (for a self-loop, the partly updated LiveOut[b]).  The net effect
   * is one Step computed from the LiveOut sets before the call.
   */
  method ComputeLiveOut<V>(b: nat, succ: seq<seq<nat>>, ueVar: seq<set<V>>, varKill: seq<set<V>>, liveOut: array<set<V>>)
    requires Shaped(succ, ueVar, varKill, liveOut[..]) && b < |succ|
    modifies liveOut
    ensures liveOut[..] == Step(succ, ueVar, varKill, old(liveOut[..]), b)
    ensures old(liveOut[b]) <= liveOut[b]
    ensures forall c :: 0 <= c < liveOut.Length && c != b ==> liveOut[c] == old(liveOut[c])
    ensures forall k :: 0 <= k < |succ[b]| ==> LiveIn(succ[b][k], ueVar, varKill, liveOut[..]) <= liveOut[b]
  {
    ghost var before := liveOut[..];
    var succs := succ[b];
    var k := 0;
    assert succs[..0] == [];
    assert before[b] + Inflow(succs[..0], ueVar, varKill, before) == before[b];
    assert before[b := before[b]] == before;
    while k < |succs|
      invariant 0 <= k <= |succs|
      invariant liveOut[..] == before[b := before[b] + Inflow(succs[..k], ueVar, varKill, before)]
    {
      var s := succs[k];
      ghost var cur := liveOut[b];
      assert liveOut[s] == if s == b then cur else before[s];
      var dest := liveOut[s] - varKill[s];
      var dest1 := dest + ueVar[s];
      liveOut[b] := dest1 + liveOut[b];
      assert succs[..k + 1][..k] == succs[..k];
      assert Inflow(succs[..k + 1], ueVar, varKill, before)
          == Inflow(succs[..k], ueVar, varKill, before) + LiveIn(s, ueVar, varKill, before);
      assert liveOut[b] == before[b] + Inflow(succs[..k + 1], ueVar, varKill, before);
      k := k + 1;
    }
    assert succs[..k] == succs;
    forall k | 0 <= k < |succs| ensures LiveIn(succs[k], ueVar, varKill, liveOut[..]) <= liveOut[b] {
      forall v | v in LiveIn(succs[k], ueVar, varKill, before) ensures v in liveOut[b] {
        InflowMembers(succs, ueVar, varKill, before, v);
      }
    }
  }

  /**
   * The block-level LiveIn of the equations is what running block s
   * backwards, instruction by instruction, from its LiveOut makes live.
   */
  lemma LiveInMatchesBlockEntry<V>(blocks: seq<seq<Instr<V>>>, ueVar: seq<set<V>>, varKill: seq<set<V>>, liveOut: seq<set<V>>, s: nat)
    requires s < |blocks| && s < |ueVar| && s < |varKill| && s < |liveOut|
    requires forall v :: v in ueVar[s] <==> UpwardExposed(blocks[s], v)
    requires forall v :: v in varKill[s] <==> Killed(blocks[s], v)
    ensures LiveIn(s, ueVar, varKill, liveOut) == LiveBefore(blocks[s], liveOut[s])
  {
    var entry, backwards := LiveIn(s, ueVar, varKill, liveOut), LiveBefore(blocks[s], liveOut[s]);
    forall v | v in entry ensures v in backwards {
      LiveBeforeSummary(blocks[s], liveOut[s], v);
    }
    forall v | v in backwards ensures v in entry {
      LiveBeforeSummary(blocks[s], liveOut[s], v);
    }
  }

  /**
   * One pass of the driver's for loop: computeLiveOut on blocks 0, 1, ...,
   * n - 1 in turn, each seeing the updates made before it, reporting whether
   * any block's LiveOut differs from its value just before its own update.
   */
  method SweepBlocks<V>(succ: seq<seq<nat>>, ueVar: seq<set<V>>, varKill: seq<set<V>>, liveOut: array<set<V>>)
    returns (changed: bool)
    requires Shaped(succ, ueVar, varKill, liveOut[..])
    modifies liveOut
    ensures liveOut[..] == Sweep(succ, ueVar, varKill, old(liveOut[..]), 0)
    ensures changed <==> liveOut[..] != old(liveOut[..])
  {
    ghost var start := liveOut[..];
    var n := liveOut.Length;
    changed := false;
    var i := 0;
    while i < n
      invariant 0 <= i <= n
      invariant Shaped(succ, ueVar, varKill, liveOut[..])
      invariant Sweep(succ, ueVar, varKill, liveOut[..], i) == Sweep(succ, ueVar, varKill, start, 0)
      invariant Below(start, liveOut[..])
      invariant forall j :: i <= j < n ==> liveOut[j] == start[j]
      invariant changed <==> exists j :: 0 <= j < i && liveOut[j] != start[j]
    {
      var prev := liveOut[i];
      ComputeLiveOut(i, succ, ueVar, varKill, liveOut);
      if prev != liveOut[i] {
        changed := true;
      }
      i := i + 1;
    }
    if !changed {
      assert liveOut[..] == start;
    }
  }

  /** Pairs (block, variable of the universe) not yet in that block's LiveOut. */
  ghost function Missing<V>(liveOut: seq<set<V>>, u: set<V>): set<(int, V)>
  {
    set b, v | 0 <= b < |liveOut| && v in u && v !in liveOut[b] :: (b, v)
  }

  /** A sweep that grew some LiveOut within the universe removed a missing pair. */
  lemma MissingShrinks<V>(start: seq<set<V>>, now: seq<set<V>>, u: set<V>)
    requires Below(start, now) && now != start && Within(now, u)
    ensures Missing(now, u) < Missing(start, u)
  {
    assert exists j :: 0 <= j < |now| && now[j] != start[j];
    var j :| 0 <= j < |now| && now[j] != start[j];
    assert !(now[j] <= start[j]);
    var v :| v in now[j] && v !in start[j];
    assert (j, v) in Missing(start, u) - Missing(now, u);
  }

  /**
   * The analysis of one routine: the local sets of every block, then LiveOut
   * by sweeps until no block's LiveOut changed during a whole sweep.  The
   * result satisfies the liveness equations, is contained in every closed
   * assignment (so it is the least solution), leaves exit blocks empty, and
   * one more sweep over it changes nothing.
   */
  method Analyze<V(!new)>(blocks: seq<seq<Instr<V>>>, succ: seq<seq<nat>>)
    returns (ueVar: seq<set<V>>, varKill: seq<set<V>>, liveOut: seq<set<V>>)
    requires |succ| == |blocks| && WellFormed(succ)
    ensures |ueVar| == |blocks| && |varKill| == |blocks| && |liveOut| == |blocks|
    ensures forall i, v :: 0 <= i < |blocks| ==> (v in ueVar[i] <==> UpwardExposed(blocks[i], v))
    ensures forall i, v :: 0 <= i < |blocks| ==> (v in varKill[i] <==> Killed(blocks[i], v))
    ensures IsSolution(succ, ueVar, varKill, liveOut)
    ensures forall sol :: Closed(succ, ueVar, varKill, sol) ==> Below(liveOut, sol)
    ensures forall sol :: IsSolution(succ, ueVar, varKill, sol) ==> Below(liveOut, sol)
    ensures forall b :: 0 <= b < |blocks| && succ[b] == [] ==> liveOut[b] == {}
    ensures forall b :: 0 <= b < |blocks| ==> liveOut[b] <= ReadVars(ueVar)
    ensures Sweep(succ, ueVar, varKill, liveOut, 0) == liveOut
  {
    var n := |blocks|;
    ueVar, varKill := Initialize(blocks);
    var lo := new set<V>[n](_ => {});
    ghost var u := ReadVars(ueVar);
    EmptyStart(succ, ueVar, varKill, lo[..], u);

    var flag := true;
    while flag
      invariant Shaped(succ, ueVar, varKill, lo[..])
      invariant Within(lo[..], u)
      invariant Justified(succ, ueVar, varKill, lo[..])
      invariant BelowEveryClosed(succ, ueVar, varKill, lo[..])
      invariant !flag ==> IsSolution(succ, ueVar, varKill, lo[..])
      decreases Missing(lo[..], u), flag
    {
      ghost var start := lo[..];
      flag := SweepBlocks(succ, ueVar, varKill, lo);
      SweepGrows(succ, ueVar, varKill, start, 0);
      SweepJustified(succ, ueVar, varKill, start, 0);
      SweepBelowEveryClosed(succ, ueVar, varKill, start, 0);
      SweepWithin(succ, ueVar, varKill, start, 0, u);
      if flag {
        MissingShrinks(start, lo[..], u);
      } else {
        SweepUnchangedClosed(succ, ueVar, varKill, start, 0);
      }
    }
    liveOut := lo[..];
    forall b | 0 <= b < n && succ[b] == [] ensures liveOut[b] == {} {
      assert liveOut[b] == Inflow(succ[b], ueVar, varKill, liveOut);
    }
    SweepFixesSolution(succ, ueVar, varKill, liveOut, 0);
  }
}
