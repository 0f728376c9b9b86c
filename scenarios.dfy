/**
 * Small routines whose analysis results are fixed by the contracts of
 * Analyze alone: a straight-line pair of blocks, a block that writes a
 * location before reading it, and a two-block loop.
 */
module Scenarios {
  import opened Cfg
  import opened LocalAnalysis
  import opened Equations
  import opened Solver

  /** A → B, where only B reads x: x is live out of A and nothing is live out of B. */
  method StraightLine<V(!new)>(x: V) returns (ueVar: seq<set<V>>, varKill: seq<set<V>>, liveOut: seq<set<V>>)
    ensures ueVar == [{}, {x}] && varKill == [{}, {}]
    ensures liveOut == [{x}, {}]
  {
    var blocks := [[], [Read(x)]];
    var succ := [[1], []];
    ueVar, varKill, liveOut := Analyze(blocks, succ);
    forall v ensures (v in ueVar[1] <==> v == x) && v !in ueVar[0] && v !in varKill[0] && v !in varKill[1] {
      assert blocks[1][0] == Read(x);
    }
    assert ueVar[0] == {} && varKill[0] == {} && varKill[1] == {};
    assert ueVar[1] == {x};
    assert succ[0][..0] == [];
    assert liveOut[1] == Inflow(succ[1], ueVar, varKill, liveOut) == {};
    assert liveOut[0] == Inflow(succ[0], ueVar, varKill, liveOut) == LiveIn(1, ueVar, varKill, liveOut);
  }

  /** A single exit block Write(x); Read(x): the read is not upward exposed. */
  method WriteThenRead<V(!new)>(x: V) returns (ueVar: seq<set<V>>, varKill: seq<set<V>>, liveOut: seq<set<V>>)
    ensures ueVar == [{}] && varKill == [{x}]
    ensures liveOut == [{}]
  {
    var blocks := [[Write(x), Read(x)]];
    var succ := [[]];
    ueVar, varKill, liveOut := Analyze(blocks, succ);
    assert Killed(blocks[0], x) by {
      assert blocks[0][0] == Write(x);
    }
    assert varKill[0] == {x};
    assert ueVar[0] == {};
  }

  /** A ⇄ B, where B reads y and nothing writes it: y stays live around the loop. */
  method Loop<V(!new)>(y: V) returns (ueVar: seq<set<V>>, varKill: seq<set<V>>, liveOut: seq<set<V>>)
    ensures ueVar == [{}, {y}] && varKill == [{}, {}]
    ensures liveOut == [{y}, {y}]
  {
    var blocks := [[], [Read(y)]];
    var succ := [[1], [0]];
    ueVar, varKill, liveOut := Analyze(blocks, succ);
    forall v ensures (v in ueVar[1] <==> v == y) && v !in ueVar[0] && v !in varKill[0] && v !in varKill[1] {
      assert blocks[1][0] == Read(y);
    }
    assert ueVar[0] == {} && varKill[0] == {} && varKill[1] == {};
    assert ueVar[1] == {y};
    assert succ[0][..0] == [] && succ[1][..0] == [];
    assert liveOut[0] == Inflow(succ[0], ueVar, varKill, liveOut) == LiveIn(1, ueVar, varKill, liveOut);
    assert liveOut[1] == Inflow(succ[1], ueVar, varKill, liveOut) == LiveIn(0, ueVar, varKill, liveOut);
    var cand: seq<set<V>> := [{y}, {y}];
    assert Inflow(succ[0], ueVar, varKill, cand) == LiveIn(1, ueVar, varKill, cand) == {y};
    assert Inflow(succ[1], ueVar, varKill, cand) == LiveIn(0, ueVar, varKill, cand) == {y};
    assert Closed(succ, ueVar, varKill, cand);
    assert Below(liveOut, cand);
    assert liveOut[0] == {y} && liveOut[1] == {y};
  }
}
