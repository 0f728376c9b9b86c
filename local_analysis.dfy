/**
 * Local analysis: one forward scan over each block's instructions that
 * builds the block's upward-exposed uses (UEVar) and killed variables
 * (VarKill).
 */
module LocalAnalysis {
  import opened Cfg

  /** Some read of v in the block comes before every write of v in it. */
  ghost predicate UpwardExposed<V>(block: seq<Instr<V>>, v: V)
  {
    exists k :: 0 <= k < |block| && block[k] == Read(v) &&
      forall j :: 0 <= j < k ==> block[j] != Write(v)
  }

  /** The block writes v somewhere. */
  ghost predicate Killed<V>(block: seq<Instr<V>>, v: V)
  {
    exists k :: 0 <= k < |block| && block[k] == Write(v)
  }

  /**
   * The variables live on entry to the block when `out` is live on exit,
   * computed backwards one instruction at a time: a read makes its location
   * live, a write makes it dead.
   */
  function LiveBefore<V>(block: seq<Instr<V>>, out: set<V>): set<V>
    decreases |block|
  {
    if block == [] then out
    else match block[0]
      case Read(v) => LiveBefore(block[1..], out) + {v}
      case Write(v) => LiveBefore(block[1..], out) - {v}
      case Other => LiveBefore(block[1..], out)
  }

  lemma UpwardExposedExtend<V>(block: seq<Instr<V>>, k: nat, v: V)
    requires k < |block|
    ensures UpwardExposed(block[..k + 1], v) <==>
              UpwardExposed(block[..k], v) || (block[k] == Read(v) && !Killed(block[..k], v))
  {
    var p, q := block[..k], block[..k + 1];
    if UpwardExposed(q, v) {
      var m :| 0 <= m < |q| && q[m] == Read(v) && forall j :: 0 <= j < m ==> q[j] != Write(v);
      if m < k {
        assert p[m] == Read(v) && forall j :: 0 <= j < m ==> p[j] != Write(v);
      } else {
        forall j | 0 <= j < k ensures p[j] != Write(v) {
          assert p[j] == q[j];
        }
      }
    }
    if UpwardExposed(p, v) {
      var m :| 0 <= m < |p| && p[m] == Read(v) && forall j :: 0 <= j < m ==> p[j] != Write(v);
      assert q[m] == Read(v) && forall j :: 0 <= j < m ==> q[j] != Write(v);
    }
    if block[k] == Read(v) && !Killed(p, v) {
      assert q[k] == Read(v);
      forall j | 0 <= j < k ensures q[j] != Write(v) {
        assert q[j] == p[j];
      }
    }
  }

  lemma KilledExtend<V>(block: seq<Instr<V>>, k: nat, v: V)
    requires k < |block|
    ensures Killed(block[..k + 1], v) <==> Killed(block[..k], v) || block[k] == Write(v)
  {
  }

  /**
   * Splits the two predicates at the first instruction of a non-empty block.
   */
  lemma ConsCases<V>(block: seq<Instr<V>>, v: V)
    requires block != []
    ensures UpwardExposed(block, v) <==>
              block[0] == Read(v) || (block[0] != Write(v) && UpwardExposed(block[1..], v))
    ensures Killed(block, v) <==> block[0] == Write(v) || Killed(block[1..], v)
  {
  }

  /**
   * The block summary is exact: running the block backwards from any live-out
   * set gives UEVar ∪ (out − VarKill).  In particular a write that follows a
   * read does not hide the read, and a read that follows a write is hidden.
   */
  lemma {:induction false} LiveBeforeSummary<V>(block: seq<Instr<V>>, out: set<V>, v: V)
    ensures v in LiveBefore(block, out) <==>
              UpwardExposed(block, v) || (v in out && !Killed(block, v))
    decreases |block|
  {
    if block == [] {
      assert !UpwardExposed(block, v) && !Killed(block, v);
    } else {
      LiveBeforeSummary(block[1..], out, v);
      ConsCases(block, v);
    }
  }

  /**
   * initialize: for every block, a load whose location is not yet in the
   * block's running VarKill joins UEVar, and every store's location joins
   * VarKill.
   */
  method Initialize<V>(blocks: seq<seq<Instr<V>>>) returns (ueVar: seq<set<V>>, varKill: seq<set<V>>)
    ensures |ueVar| == |blocks| && |varKill| == |blocks|
    ensures forall i, v :: 0 <= i < |blocks| ==> (v in ueVar[i] <==> UpwardExposed(blocks[i], v))
    ensures forall i, v :: 0 <= i < |blocks| ==> (v in varKill[i] <==> Killed(blocks[i], v))
  {
    ueVar := seq(|blocks|, _ => {});
    varKill := seq(|blocks|, _ => {});
    var i := 0;
    while i < |blocks|
      invariant 0 <= i <= |blocks|
      invariant |ueVar| == |blocks| && |varKill| == |blocks|
      invariant forall j, v :: 0 <= j < i ==> (v in ueVar[j] <==> UpwardExposed(blocks[j], v))
      invariant forall j, v :: 0 <= j < i ==> (v in varKill[j] <==> Killed(blocks[j], v))
      invariant forall j :: i <= j < |blocks| ==> ueVar[j] == {} && varKill[j] == {}
    {
      var block := blocks[i];
      var k := 0;
      while k < |block|
        invariant 0 <= k <= |block|
        invariant |ueVar| == |blocks| && |varKill| == |blocks|
        invariant forall j, v :: 0 <= j < i ==> (v in ueVar[j] <==> UpwardExposed(blocks[j], v))
        invariant forall j, v :: 0 <= j < i ==> (v in varKill[j] <==> Killed(blocks[j], v))
        invariant forall j :: i < j < |blocks| ==> ueVar[j] == {} && varKill[j] == {}
        invariant forall v :: v in ueVar[i] <==> UpwardExposed(block[..k], v)
        invariant forall v :: v in varKill[i] <==> Killed(block[..k], v)
      {
        match block[k] {
          case Read(v) =>
            if v !in varKill[i] {
              ueVar := ueVar[i := ueVar[i] + {v}];
            }
          case Write(v) =>
            varKill := varKill[i := varKill[i] + {v}];
          case Other =>
        }
        forall v ensures (v in ueVar[i] <==> UpwardExposed(block[..k + 1], v))
                      && (v in varKill[i] <==> Killed(block[..k + 1], v))
        {
          UpwardExposedExtend(block, k, v);
          KilledExtend(block, k, v);
        }
        k := k + 1;
      }
      assert block[..k] == block;
      i := i + 1;
    }
  }
}
