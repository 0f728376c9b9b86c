/**
 * The abstract control-flow graph the liveness analysis runs on.
 *
 * Basic blocks are the indices 0..n-1 of the routine's block list, and the
 * successor edges of block b are the list succ[b] (a block may list the same
 * successor twice, as a conditional branch with equal targets does).  Each
 * instruction is reduced to what the analysis inspects: a load reads the
 * location named by its address operand, a store writes the location named
 * by its pointer operand, and every other opcode is ignored.  Locations are
 * compared by identity only, which a type parameter with equality stands for.
 */
module Cfg {

  datatype Instr<V> = Read(loc: V) | Write(loc: V) | Other

  /** Every successor edge names a block of the routine. */
  predicate WellFormed(succ: seq<seq<nat>>)
  {
    forall b, k :: 0 <= b < |succ| && 0 <= k < |succ[b]| ==> succ[b][k] < |succ|
  }
}
