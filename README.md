# Liveness analysis over a control-flow graph

This project models the backward liveness analysis of an LLVM function pass,
`Pass/Transforms/LivenessAnalysis/LivenessAnalysis.cpp`, and proves what the
pass computes. For each basic block of one routine the pass computes three
sets of memory locations:

- **UEVar**: the upward-exposed uses, meaning locations loaded in the block
  before any store to them in that block;
- **VarKill**: every location stored to anywhere in the block;
- **LiveOut**: the locations live on exit from the block. The pass iterates
  `LiveOut(b) = ⋃ over successors s of (UEVar(s) ∪ (LiveOut(s) − VarKill(s)))`
  until a whole sweep over the blocks changes nothing.

Modelling choices:

- Blocks are the indices `0..n-1` of the block list (`BBList`/`BBMap`).
- The successor edges of block `b` are the list `succ[b]`.
- Each instruction is `Read(loc)` (a load), `Write(loc)` (a store) or
  `Other`.
- Locations are a type parameter compared by identity. It stands for
  `Value *`.

Files, in the order the analysis runs:

- `cfg.dfy`: the instruction datatype and the well-formedness of the edges.
- `local_analysis.dfy`: `initialize` as a method with the source's two
  nested loops. It is specified by two declarative predicates: "read before
  any write" and "written somewhere". A backward, instruction-by-instruction
  transfer function `LiveBefore` shows that the summary `UEVar ∪ (out − VarKill)`
  is exact.
- `equations.dfy`: the liveness equations, closed and justified
  assignments, and `Step` and `Sweep`. `Step` is the net effect of visiting
  one block. `Sweep` is one pass over all blocks in index order, where each
  block sees the updates made before it (Gauss-Seidel order). The file also
  holds the lemmas about all of these.
- `solver.dfy`: `computeLiveOut` as a method that updates an `array<set<V>>`
  in place, and `Analyze`, which is `runOnFunction`'s `while (flag)` sweep
  loop. `Analyze` is proved to terminate. Its result is proved to be the
  least solution of the equations.
- `scenarios.dfy`: three small routines whose results follow from the
  contracts alone.

Where the source's own comment and its code disagree, the code is followed.
The comment at `LivenessAnalysis.cpp:63` says the union is with VarKill; the
code unions with UEVar, and so does the model.

Some facts the proofs establish about the source's behaviour:

- Inside one `computeLiveOut` call, `LiveOut[b]` grows while it is being read
  again for a self-loop. The net effect is still exactly
  `old LiveOut[b] ∪ ⋃ LiveIn_old(s)`, because `LiveOut[b] − VarKill[b]` is
  already in `LiveOut[b]`.
- Every `LiveOut` set stays inside the set of locations some block reads
  before writing. This set is finite. The sweep loop therefore terminates: the
  set of (block, location) pairs still missing from `LiveOut` shrinks on every
  sweep that sets `flag`, and a sweep that does not set it is the last.
- The result is contained in every assignment closed under the equations.
  Every solution is such an assignment, so any least solution is unique. A
  different block order would reach the same result.

## Model

| member | source | states |
|---|---|---|
| `LocalAnalysis.Initialize` | Pass/Transforms/LivenessAnalysis/LivenessAnalysis.cpp:30-50 | one set pair per block; `v ∈ UEVar[i]` iff block i loads v at a point where no earlier store wrote v; `v ∈ VarKill[i]` iff block i stores to v anywhere, whatever comes after |
| `LocalAnalysis.UpwardExposedExtend` | Pass/Transforms/LivenessAnalysis/LivenessAnalysis.cpp:36-43 | scanning one more instruction adds v to the upward-exposed set exactly when it is a load of v and v is not yet killed; a later store never removes an exposed use |
| `LocalAnalysis.KilledExtend` | Pass/Transforms/LivenessAnalysis/LivenessAnalysis.cpp:44-47 | scanning one more instruction adds v to the killed set exactly when it is a store to v |
| `LocalAnalysis.ConsCases` | Pass/Transforms/LivenessAnalysis/LivenessAnalysis.cpp:34-47 | splits upward exposure and killing at the first instruction of a block: a load of v exposes v, a store to v hides every later load of v |
| `LocalAnalysis.LiveBeforeSummary` | Pass/Transforms/LivenessAnalysis/LivenessAnalysis.cpp:34-47 | the block summary is exact: running the block backwards from any live-out set gives exactly the upward-exposed variables plus the live-out variables the block does not kill |
| `Equations.Step` | Pass/Transforms/LivenessAnalysis/LivenessAnalysis.cpp:52-71 | visiting block b only grows LiveOut[b] and leaves every other block's LiveOut unchanged |
| `Equations.InflowMembers` | Pass/Transforms/LivenessAnalysis/LivenessAnalysis.cpp:56-66 | v flows into a block iff v is in `UEVar(s) ∪ (LiveOut(s) − VarKill(s))` for one of its listed successors s |
| `Equations.InflowMonotone` | Pass/Transforms/LivenessAnalysis/LivenessAnalysis.cpp:56-66 | larger successor LiveOut sets never shrink what flows into a block, which is why reading freshly updated values is safe |
| `Equations.InflowWithin` | Pass/Transforms/LivenessAnalysis/LivenessAnalysis.cpp:56-66 | what flows in stays within any universe holding the successors' UEVar and LiveOut sets |
| `Equations.EmptyStart` | Pass/Transforms/LivenessAnalysis/LivenessAnalysis.cpp:95 | the all-empty LiveOut vector the pass starts from is justified, below every closed assignment and inside any universe |
| `Equations.StepBelowClosed` | Pass/Transforms/LivenessAnalysis/LivenessAnalysis.cpp:52-71 | visiting a block stays below any closed assignment that was already above |
| `Equations.StepBelowEveryClosed` | Pass/Transforms/LivenessAnalysis/LivenessAnalysis.cpp:52-71 | visiting a block keeps LiveOut below every closed assignment at once |
| `Equations.StepJustified` | Pass/Transforms/LivenessAnalysis/LivenessAnalysis.cpp:52-71 | visiting a block keeps every LiveOut member justified by some successor's LiveIn |
| `Equations.StepFixesSolution` | Pass/Transforms/LivenessAnalysis/LivenessAnalysis.cpp:52-71 | visiting any block of a solution changes nothing |
| `Equations.SweepGrows` | Pass/Transforms/LivenessAnalysis/LivenessAnalysis.cpp:104-112 | a sweep never removes a member from any LiveOut |
| `Equations.SweepJustified` | Pass/Transforms/LivenessAnalysis/LivenessAnalysis.cpp:104-112 | a sweep keeps every LiveOut member justified by a successor |
| `Equations.SweepBelowEveryClosed` | Pass/Transforms/LivenessAnalysis/LivenessAnalysis.cpp:104-112 | a sweep keeps LiveOut below every closed assignment |
| `Equations.SweepWithin` | Pass/Transforms/LivenessAnalysis/LivenessAnalysis.cpp:104-112 | a sweep never adds a location outside a universe that holds every UEVar and the current LiveOut sets |
| `Equations.SweepUnchangedClosed` | Pass/Transforms/LivenessAnalysis/LivenessAnalysis.cpp:103-111 | a sweep that changes no LiveOut leaves every block holding its whole inflow |
| `Equations.SweepFixesSolution` | Pass/Transforms/LivenessAnalysis/LivenessAnalysis.cpp:100-113 | one more sweep over a solution changes nothing (idempotence) |
| `Equations.LeastSolutionUnique` | Pass/Transforms/LivenessAnalysis/LivenessAnalysis.cpp:100-113 | two solutions that are both below every closed assignment are equal, so the result does not depend on the visiting order |
| `Solver.ComputeLiveOut` | Pass/Transforms/LivenessAnalysis/LivenessAnalysis.cpp:52-71 | updates LiveOut[b] in place, reading each successor's current LiveOut, with the net effect of one Step on the LiveOut before the call; LiveOut[b] only grows, no other block changes, and afterwards every successor's `UEVar ∪ (LiveOut − VarKill)` is inside LiveOut[b] |
| `Solver.LiveInMatchesBlockEntry` | Pass/Transforms/LivenessAnalysis/LivenessAnalysis.cpp:62-64 | the block-level `UEVar(s) ∪ (LiveOut(s) − VarKill(s))` equals the locations made live by running block s backwards from LiveOut(s) |
| `Solver.SweepBlocks` | Pass/Transforms/LivenessAnalysis/LivenessAnalysis.cpp:104-112 | one pass of the for loop updates LiveOut in place with the net effect of `Sweep` from block 0; the returned change flag is true iff some block's LiveOut differs from its value before the pass |
| `Solver.MissingShrinks` | Pass/Transforms/LivenessAnalysis/LivenessAnalysis.cpp:100-113 | a sweep that grows some LiveOut within the universe removes at least one (block, location) pair from the still-missing set (the termination measure) |
| `Solver.Analyze` | Pass/Transforms/LivenessAnalysis/LivenessAnalysis.cpp:81-113 | the sweep loop terminates; UEVar and VarKill are as above; LiveOut satisfies the liveness equations at every block; it is contained in every closed assignment and every solution (the least fixpoint); a block without successors has empty LiveOut; every LiveOut member is read before being written in some block; one more sweep changes nothing |
| `Scenarios.StraightLine` | Pass/Transforms/LivenessAnalysis/LivenessAnalysis.cpp:81-113 | for A → B with only B loading x: UEVar = [{}, {x}], VarKill = [{}, {}], LiveOut = [{x}, {}] |
| `Scenarios.WriteThenRead` | Pass/Transforms/LivenessAnalysis/LivenessAnalysis.cpp:39-46 | for one exit block storing then loading x: UEVar = [{}], VarKill = [{x}], LiveOut = [{}] |
| `Scenarios.Loop` | Pass/Transforms/LivenessAnalysis/LivenessAnalysis.cpp:100-113 | for A ⇄ B with B loading y and nothing storing it: LiveOut = [{y}, {y}] |

## Left out

- LLVM pass plumbing is not modelled: the `FunctionPass` subclass, `ID`, `RegisterPass` and the function-name filter (`F.getName() != func_name`). These belong to the host compiler.
- Extraction of the CFG from LLVM IR is not modelled: `successors(bb)`, `getOpcode`, `getOperand` and the construction of `BBList`/`BBMap`. The model takes block indices, successor lists and `Read`/`Write`/`Other` instructions as input. Whether an IR instruction counts as a load or a store is decided outside the model.
- `BBMap.at` cannot miss in the source, because every successor belongs to the function. The model states this as the `WellFormed` precondition on the successor lists rather than modelling an exception.
- Reporting is not modelled: the output file name, the `ofstream`, and printing with `errs()` and `getName()`. This is I/O only.
- The `std::set_difference`/`std::set_union` calls with `inserter` are modelled as mathematical set difference and union. The `std::equal` change test is modelled as set inequality.
- `computeLiveOut` receives `BBMap`, `BBList`, `UEVar` and `VarKill` by value, so the callee works on copies. The model passes immutable sequences, which has the same effect. Only `LiveOut` is shared and updated in place, as an array.
- Order-insensitivity is not shown by running the sweep in another order. The model fixes the source's index order. It proves that the result is the unique least solution, which any order that reaches a fixpoint of the equations must also give.
- The worst-case sweep count (blocks × locations) is not stated as a number. Termination is proved by a decreasing set of missing (block, location) pairs instead.
