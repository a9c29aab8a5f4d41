# Netlist compilation and evaluation, verified

This project models the hard logic of a hardware-simulation toolkit and proves, in Dafny 4.11, that
its fast forms compute what its simple forms compute.

`yosys/gen_statemachine.cpp` compiles a netlist into a cycle-based state machine in C. The plain form
evaluates every cell in dependency order, commits registers and memories, and copies the outputs. The
compiler then replaces that with faster forms: gated blocks that run only when dirty, part functions
that exchange wires through a struct, a fused clock edge that recomputes only the output cones, skipped
cones of dead outputs, and a clock-enable form of latch-based clock gates. Signals wider than 64 bits
run on an emitted wide-integer runtime. The project models a netlist language with a reference
semantics and proves each form against it, and then five smaller programs of the same repository.

## Layout

| files | subject |
|---|---|
| `Netlist`, `TopoSort`, `Resort`, `Clocking` | cells, registers and memories; the dependency order and its activity-guided re-sort; the clock edge |
| `OutCone`, `PruneLimit` | output cones, dead-output pruning, the fused edge; the 256-output limit |
| `CombSplit` | the clock function split into K parts |
| `Gated`, `GatedModel` | gated evaluation as functions and as the emitted class |
| `Storage`, `StorageRun` | designs held in machine words with bits above the width of a wire; the words compute what the design computes |
| `GatedCold`, `GatedJunk`, `GatedLimits` | from which register states and for which wirings gated evaluation on words is right |
| `ClockGate` | the latch + AND to clock-enable rewrite |
| `Bits`, `Limbs`, `BitField`, `WideArith`, `WideShift` | the wide-integer runtime, for 32- and 64-bit limbs |
| `WideSig`, `WideSigned`, `WideCell` | concatenations gathered and scattered through it; the widths at which signed operands are right; whole emitted cells |
| `Soa` | the strided helpers of the structure-of-arrays farm |
| `Dfs`, `ConeSlice`, `ConeEmit`, `ConeOutput`, `ConeExtract`, `ConeLimit` | the cone extractor and constant folder, and the gate kinds it is right for |
| `DemandEval` | push, memoised pull and compiled cone |
| `GateBench` | gates with cached aggregates against full re-evaluation |
| `SwitchOut` | the switch-level solve by union-find |
| `Utf8`, `Names` | the reversible escape of names |

Code that updates things in place is a method over arrays or a class, proved against a specification
function or relation; the theorems are lemmas about those. Cells of the netlist are arbitrary functions,
so every schedule theorem holds for all cell types at once.

## Hypotheses and findings

The code keeps the properties below under these hypotheses, which the contracts state. Where the code
does not guarantee one, a lemma shows what goes wrong and another gives the exact condition.

- Netlists have no aliases: the signal map and the redirect table are the identity.
- Gated evaluation has no async-reset registers. Its register shadows are zero statics, so a cold start
  is right for all designs with given wires, all layouts of their storage, all memories and all call
  sequences exactly when no register bit starts at 1 or no bit is combinational
  (`GatedCold.ColdStartExact`); `GatedCold.ShadowMismatch` shows, for any set register bit and any
  combinational bit, a design and three calls whose output is wrong.
- Gated evaluation declares nets private to one call without an initial value. A wire of at most 64 bits
  lives in one word; a store of a slice leaves the bits above its width alone, and a scalar operand that
  is the whole wire is the bare word. The storage form of a design (`Storage`) has those bits, one per
  wire, among its own. Over all cell functions on words and all stack contents, the first settle gives
  every driven bit its full-evaluation value exactly when no driving cell of the wiring reads an undriven
  bit of such a local, and none reads as a whole a narrow local that is only stored in slices
  (`GatedJunk.JunkReadsExact`). Under that condition every run of the words has the registers, memories
  and outputs of full evaluation (`StorageRun.StoredRunCorrect`, `GatedModel.RunWords`).
  `GatedLimits.JunkRead` shows the stack reaching an output through an undriven bit, and
  `GatedLimits.JunkAboveWidth` through the bits above a five-bit wire whose bits are all driven.
  Theorems about gated evaluation of a design hold of its storage form, which is a design.
- The activity-guided re-sort records one writer per wire. Over all activity profiles its order is a
  dependency order exactly when the edges from recorded writers to readers form a cycle, so that the old
  order is kept, or every driver of a bit that is read is an ancestor of its reader by such edges
  (`Resort.ResortExact`); so it is when no wire has two writers (`Resort.OneWriterSuffices`).
  `Resort.SlicesMisplaced` is a wire driven in two slices for which the loop places a reader before the
  driver it needs.
- Dead-output pruning is right for every design with `n` outputs exactly when `n <= 256`
  (`PruneLimit.PruningLimit`).
- The clock-gate rewrite is sound for a latch exactly when the matcher accepts its pins
  (`ClockGate.MatcherExact`). Outputs agree while the clock is low; an output agrees in both phases on all
  accepted circuits and runs exactly when its value depends neither on the latches nor on the clock level
  (`ClockGate.OutputExact`), so not when it is a latch or the clock (`ClockGate.LatchOutputWrong`).
- The single-word peephole equals the copy loop exactly when both fields stay in one word
  (`BitField.PeepholeExact`).
- A one-bit result of a wide cell is stored right exactly when the target wire is wide or has one bit.
  A narrow wire with more bits is assigned whole, so its other bits are lost; the many-bit store was
  repaired for this case, the one-bit store was not (`WideCell.PutBitExact`).
- Arithmetic, bitwise, shift and equality cells zero-extend their operands whatever the cell's
  signedness; only the orderings sign-extend. For signed operands the result is right for all values
  exactly when: no operand of an addition, subtraction or negation is narrower than the output, and
  likewise for a product, except that one bit times one bit is right at every width
  (`WideSigned.ArithSignedExact`); no operand a bitwise cell reads is narrower than the output
  (`WideSigned.BitwiseSignedExact`); a shifted operand is not narrower, or its extension is moved out
  (`WideSigned.ShiftSignedExact`); the operands of an equality have one width
  (`WideSigned.EqualSignedExact`). `WideSigned.SignedSumWrong` and `WideSigned.SignedEqualWrong` are
  operands for which the emitted result is wrong.
- A shift count is converted to a 32-bit `int`. The shift loops index outside the limbs exactly when the
  converted count is negative (`WideSigned.InBoundsExact`). For every count, the shift stays inside and is
  right for all operands exactly when the converted count is not negative, and is the count itself or
  leaves nothing as the count does (`WideSigned.ShiftCountExact`); `WideCell.EmitShift` requires that.
- The emitted multiplication uses a temporary of 128 limbs of 32 bits, or 64 of 64 bits, and checks
  nothing. It runs past the temporary exactly when the widest of its signals has more than 4096 bits
  (`WideCell.ScratchExact`); `WideArith.Wmul` requires the operands to fit.
- The cone extractor leaves a gate of a kind it does not know (XNOR among them) reading a folded constant
  that nothing defines. Over all benches that use one kind beside the known ones, every slice is
  self-contained exactly when that kind is known (`ConeLimit.KindSafeExact`). For each unknown kind,
  no slice of a certain bench of three nets is self-contained (`ConeLimit.UnluckyNever`). For a single
  bench it is enough that the gates the target depends on are known (`ConeExtract.Extract`).
- Reading back a text that no name is written as is said to return it as it is. It does exactly when no
  component of the text is the escape of one that is written so (`Names.UnnameExact`); `_a_040b. ` is a
  text in a nutmeg file for which it does not (`Names.NeverWritten`).
- Net names of a bench do not end in `__x` and are not `__const0` or `__const1`: the model keeps those
  added nets apart by construction.
- The compiled cone follows the second operand of a two-operand gate only when its recorded predecessor
  count is above one; the XOR gates the program builds record two.
- A pull stride is not 0 (the loop would not advance).

## Model

| member | source | states |
|---|---|---|
| Netlist.SweepSolves | yosys/gen_statemachine.cpp:3718-3781 | one in-order sweep over any dependency order solves all cell equations, also for wires driven slice by slice, and leaves undriven bits alone |
| Netlist.SolutionUnique | yosys/gen_statemachine.cpp:3718-3781 | that solution is the only one |
| Netlist.OrderIrrelevant | yosys/gen_statemachine.cpp:3718-3781 | any two dependency orders evaluate to the same values |
| Netlist.SweepMeans | yosys/gen_statemachine.cpp:3094-3145 | after the sweep a logic cell's output bit j is its function of the values it reads, and bit j of a read port is bit j of the word its address values spell, least significant first; what does not exist reads as 0 |
| Netlist.EvalMeans | yosys/gen_statemachine.cpp:3718-3781 | an undriven bit has the input's or the register's bit, and 0 on a combinational wire |
| Resort.Kahn | yosys/gen_statemachine.cpp:2478-2537 | the loop with its ready set and predecessor counts, most active ready cell first, gives the specified order, or the old one when some cell is never ready |
| Resort.PickLeast | yosys/gen_statemachine.cpp:2512-2524 | the chosen cell has the least key: no ready cell is more active, and none as active stands before it |
| Resort.BucketMeans | yosys/gen_statemachine.cpp:2512-2517 | the activity bucket is the number of binary digits |
| Resort.CompleteExact | yosys/gen_statemachine.cpp:2522-2537 | the new order is complete exactly when the recorded writers form no cycle, and then puts every cell after the recorded writers of the wires it reads |
| Resort.ResortedOrder | yosys/gen_statemachine.cpp:2478-2530 | a complete order is a dependency order when every driver of a bit read is an ancestor of its reader by recorded writers |
| Resort.ResortExact | yosys/gen_statemachine.cpp:2478-2537 | over all activity profiles the adopted order is a dependency order exactly when the recorded writers form a cycle or every driver of a bit read is such an ancestor |
| Resort.OneWriterSuffices | yosys/gen_statemachine.cpp:2482-2510 | it is when no wire has two writers |
| Resort.SlicesMisplaced | yosys/gen_statemachine.cpp:2492-2530 | for a wire driven in two slices and activities 0, 4, 4 the loop adopts an order in which a reader precedes its driver |
| Netlist.RunCell | yosys/gen_statemachine.cpp:3476-3508 | a cell computed into a temporary and scattered to its output bits in place is one simultaneous update |
| Netlist.RunCells | yosys/gen_statemachine.cpp:3779 | the emitted cell sequence in place is the sweep |
| TopoSort.Sort | yosys/gen_statemachine.cpp:2044-2089 | the depth-first sort emits every cell exactly once, and after all drivers of the bits it reads if and only if the bit-level dependencies are acyclic |
| TopoSort.OrderIsRank | yosys/gen_statemachine.cpp:2060-2089 | a dependency order witnesses that no cell depends on itself |
| TopoSort.Sorter.Visit | yosys/gen_statemachine.cpp:2061-2087 | a visit finishes the cell after every driver of every bit it reads |
| Clocking.CommitAnyOrder | yosys/gen_statemachine.cpp:3803-3853 | disjoint register slices committed one by one in any order equal one parallel update from pre-edge values |
| Clocking.CommitOne | yosys/gen_statemachine.cpp:3842-3851 | the in-place read-modify-write of one slice gives its bit q[k] the value of d[k] under its enable, and changes no other bit |
| Clocking.CommitRegisters | yosys/gen_statemachine.cpp:3799-3892 | the emitted register commits in place give every bit q[k] of an enabled slice the value of that slice's d[k] before the edge, and leave every other bit |
| Clocking.NextStateMeans | yosys/gen_statemachine.cpp:3842-3851 | the next state does so |
| Clocking.SortedWritesAscending | yosys/gen_statemachine.cpp:3918-3931 | the write ports come out in ascending priority within each memory |
| Clocking.MemoryPriority | yosys/gen_statemachine.cpp:3901-3982 | after the edge bit j of the word at the address a port's address values spell is the port's data bit j, for the highest-priority port whose enable bit j is set, else its old value |
| Clocking.WinnerUnique | yosys/gen_statemachine.cpp:3918-3931 | with distinct priorities that bit is unique |
| Clocking.MemoryFrame | yosys/gen_statemachine.cpp:3968-3981 | a memory no port writes is unchanged |
| Clocking.CommitMemories | yosys/gen_statemachine.cpp:3932-3982 | the emitted write-port sequence leaves every memory bit so, and no word changes its size; all ports read the pre-edge values |
| Clocking.WriteThenRead | yosys/gen_statemachine.cpp:3976-3981 | after the edge a read port of the same memory gives, at each address and bit, the data of the winning port, or the old bit where no port writes |
| Clocking.CommitFrame | yosys/gen_statemachine.cpp:3799-3984 | the commit depends only on data, enable and port signals |
| OutCone.ComputeFeeds | yosys/gen_statemachine.cpp:2979-3010 | the nested worklist loops compute the cone, its registers and the feed masks of the recursive walk |
| OutCone.AnalysisCloses | yosys/gen_statemachine.cpp:2955-3010 | up to 256 outputs every feed set is closed under predecessors |
| OutCone.DriverKept | yosys/gen_statemachine.cpp:2953-2954 | a predecessor of a cell that runs is shared or in the same bucket |
| OutCone.PrunedReady | yosys/gen_statemachine.cpp:3531-3553 | shared cells first and then the live buckets is still a dependency order |
| OutCone.PruningCorrect | yosys/gen_statemachine.cpp:3531-3553 | for every live mask each live output equals full evaluation |
| OutCone.FusedEdgeCorrect | yosys/gen_statemachine.cpp:4401-4419 | after the fused edge each live output is that of a full evaluation of the post-edge state, although only cone registers are refreshed and only cone cells rerun |
| OutCone.SmComb | yosys/gen_statemachine.cpp:4094-4109 | the emitted settle leaves in each live output the full-evaluation bits of its nets, and keeps the dead entries of the caller's struct |
| OutCone.EmitMeans | yosys/gen_statemachine.cpp:4094-4109 | an output copies its nets bit by bit, unless it is among the first 256 and its mask bit is clear |
| OutCone.SmClockOut | yosys/gen_statemachine.cpp:4401-4419 | the emitted fused edge in place leaves the next registers and memories and the post-edge outputs |
| PruneLimit.BeyondLimitWrong | yosys/gen_statemachine.cpp:2956-2957 | for every output count above 256 a design, mask and state whose live output is wrong |
| PruneLimit.PruningLimit | yosys/gen_statemachine.cpp:2955-3001 | pruning is right for all designs with n outputs exactly when n <= 256 |
| CombSplit.MakeSplit | yosys/gen_statemachine.cpp:4178-4187 | cut p is N*p/K, and the cuts are monotone, start at 0 and end at N, for every K > 0 |
| CombSplit.PartsPartition | yosys/gen_statemachine.cpp:4183-4187 | every cell runs in exactly one part |
| CombSplit.Split.PlanMeans | yosys/gen_statemachine.cpp:4196-4268 | a wire travels in the struct exactly when some part writes it and the commit reads it or a later part touches it; a part loads what it touches of earlier writers and stores the travelling wires it writes |
| CombSplit.Split.CrossRight | yosys/gen_statemachine.cpp:4302-4362 | after part p the exchange struct holds, for every wire still to be read, what the unsplit evaluation holds there |
| CombSplit.Split.SplitCommit | yosys/gen_statemachine.cpp:4364-4378 | the commit reads from the struct what it would read from the unsplit evaluation, whatever the struct held before |
| CombSplit.Split.SplitOutput | yosys/gen_statemachine.cpp:4274-4300 | an output copied in the last part that writes its wires is the pre-commit output |
| CombSplit.RunPart | yosys/gen_statemachine.cpp:4328-4363 | one emitted part: loads, its cells, the outputs it finalises, stores |
| CombSplit.SmClockSplit | yosys/gen_statemachine.cpp:4380-4391 | K parts and the commit give the next state and memories of the unsplit clock and the live pre-commit outputs |
| Gated.LocalMeans | yosys/gen_statemachine.cpp:2600-2624 | a wire is private to a call exactly when one block alone writes and reads it and neither the edge nor an output does |
| Gated.ComparedMeans | yosys/gen_statemachine.cpp:2600-2624 | a kept wire is compared exactly when two blocks write it or some block reads it |
| Gated.MarkMeans | yosys/gen_statemachine.cpp:3727-3773 | bit k of dirty word i of 64 stands for block 64 * i + k and is set for the readers of a changed net, except the block that changed it |
| Gated.MarkMemMeans | yosys/gen_statemachine.cpp:3948-3981 | it is set for the readers of a written memory |
| Gated.ChangeMarks | yosys/gen_statemachine.cpp:3761-3773 | a compared net that a block changes marks every later block reading it |
| Gated.RunBlockMid | yosys/gen_statemachine.cpp:3757-3774 | running a dirty block keeps the pass invariant: finished and clean blocks satisfy their cell equations |
| Gated.PassMid | yosys/gen_statemachine.cpp:3747-3776 | after the whole pass every block satisfies its equations |
| Gated.CompareKeeps | yosys/gen_statemachine.cpp:3727-3746 | blocks left clean by an input or register compare keep their equations |
| Gated.SettleCorrect | yosys/gen_statemachine.cpp:3722-3776 | a gated settle leaves every kept net of a design, or of its words, at its full-evaluation value, whatever uninitialised locals hold |
| Gated.EdgeKeeps | yosys/gen_statemachine.cpp:4017-4036 | register and memory dirtying after an edge keeps the invariant and synchronises the shadows |
| Gated.MemKeeps | yosys/gen_statemachine.cpp:3948-3981 | blocks not reading a written memory keep their equations |
| Gated.GatedStepCorrect | yosys/gen_statemachine.cpp:4094-4109 | every single call does what full evaluation of the design, or of its words, does and keeps the invariant |
| Gated.GatedRunCorrect | yosys/gen_statemachine.cpp:3718-3776 | over every sequence of settle, clock and fused-edge calls, registers, memories and outputs equal those of ungated evaluation |
| Gated.RefStepMeans | yosys/gen_statemachine.cpp:4094-4419 | what full evaluation is taken to do at each call: which state, memory and output bit gets which value |
| Gated.ColdStartMeans | yosys/gen_statemachine.cpp:2625-2661 | the statics start at zero, with one dirty bit for each block |
| Gated.ColdStartConsistent | yosys/gen_statemachine.cpp:2639-2661 | the zero statics start consistent when every register a cell reads resets to zero |
| Storage.StoredValid | yosys/gen_statemachine.cpp:3485-3508 | the storage form of a design is a design with the same dependency order, with padding as further bits |
| Storage.PaddedMeans | yosys/gen_statemachine.cpp:137-140 | a combinational wire has bits to spare exactly when it is narrower than 64 bits and does not fill a 32-bit word |
| Storage.WholeMeans | yosys/gen_statemachine.cpp:346-372 | a wire is read (stored) whole exactly when its bits stand in a row and in order in a scalar operand (in the outputs) |
| Storage.StoredPlan | yosys/gen_statemachine.cpp:3697-3708 | padding moves no wire between locals and statics |
| Storage.StoredReadsDriven | yosys/gen_statemachine.cpp:3697-3708 | a wiring that reads no undriven bit of a local and no sliced narrow local as a whole reads no undriven bit of a word |
| StorageRun.StoredEval | yosys/gen_statemachine.cpp:346-372 | full evaluation of the words is full evaluation of the design, with the padding clear |
| StorageRun.StoredSettleCorrect | yosys/gen_statemachine.cpp:3697-3776 | a gated settle of the words leaves every kept bit of the design at its full-evaluation value, whatever locals hold above and below their width |
| StorageRun.StoredRunCorrect | yosys/gen_statemachine.cpp:3697-3776 | over every sequence of calls the gated code on words has the registers, memories and outputs of full evaluation of the design |
| StorageRun.StoredColdStart | yosys/gen_statemachine.cpp:2639-2661 | on words the zero statics start consistent for a safe wiring whose read registers reset to zero |
| GatedModel.RunWords | yosys/gen_statemachine.cpp:4094-4419 | the emitted class, started cold on the words of a design, ends any sequence of calls with the registers, memories and outputs of full evaluation of the design |
| GatedModel.SkipWord | yosys/gen_statemachine.cpp:3748-3755 | skipping a whole dirty word that is zero at entry skips only clean blocks |
| GatedModel.Model.CompareWires | yosys/gen_statemachine.cpp:3728-3746 | the emitted compare loop latches the changed inputs and marks their readers |
| GatedModel.Model.Propagate | yosys/gen_statemachine.cpp:3761-3773 | the emitted boundary compares of a block are one simultaneous propagation |
| GatedModel.Model.PassWords | yosys/gen_statemachine.cpp:3751-3776 | the emitted pass with its word and bit tests is the block-by-block pass |
| GatedModel.Model.SmComb | yosys/gen_statemachine.cpp:4095-4102 | the emitted gated settle is the specified step |
| GatedModel.Model.SmClock | yosys/gen_statemachine.cpp:4393-4399 | the emitted gated clock is the specified step |
| GatedModel.Model.SmClockOut | yosys/gen_statemachine.cpp:4401-4419 | the emitted fused edge with its dirtying is the specified step |
| GatedModel.Model.Run | yosys/gen_statemachine.cpp:4094-4419 | any sequence of calls of the class ends in the state of full evaluation |
| GatedCold.ShadowMismatch | yosys/gen_statemachine.cpp:2641-2650 | for every register bit that starts at 1 and every combinational bit, a design, also on words, in which the register loads 0 unnoticed and the output stays 1 |
| GatedCold.ColdStartExact | yosys/gen_statemachine.cpp:2639-2661 | for given wires and register state, gated runs on words equal reference runs for all designs, storage layouts, memories and calls exactly when no register bit starts at 1 or no bit is combinational |
| GatedJunk.ColdPass | yosys/gen_statemachine.cpp:3747-3776 | with every block marked the gated pass is one sweep of the whole order |
| GatedJunk.JunkReadsExact | yosys/gen_statemachine.cpp:3697-3708 | for every wiring, over all cell functions on words and all stack contents, the first settle is right on every driven bit exactly when no driving cell reads an undriven bit of an uninitialised local or, as a whole, a narrow one stored only in slices |
| GatedLimits.JunkRead | yosys/gen_statemachine.cpp:3697-3708 | an undriven bit of an uninitialised local reaches the output |
| GatedLimits.JunkAboveWidth | yosys/gen_statemachine.cpp:3503-3505 | a five-bit local driven completely in two slices and reduced as a whole: the stack above its width reaches the output |
| ClockGate.MatchedOpensLow | yosys/gen_statemachine.cpp:967-983 | the accepted pin polarities are exactly the latches open while the clock is low |
| ClockGate.BooleanLaws | yosys/gen_statemachine.cpp:762-781 | NOT, AND and OR obey De Morgan, idempotence, commutativity and the constant laws |
| ClockGate.AtomsMean | yosys/gen_statemachine.cpp:762-781 | inputs, registers, latches, constants and the clock read as themselves |
| ClockGate.FlopMeans | yosys/gen_statemachine.cpp:762-781 | in both circuits a rising clock loads exactly the flops that are ungated or whose enable cone is 1, each with its D value of that moment |
| ClockGate.ConnectMeans | yosys/gen_statemachine.cpp:1126-1131 | while the clock is low, connecting Q to D changes no value |
| ClockGate.HighFreezes | yosys/gen_statemachine.cpp:767-773 | latches hold through the high phase |
| ClockGate.StepRelated | yosys/gen_statemachine.cpp:1102-1151 | every input change and clock edge keeps the gated and the rewritten circuit related |
| ClockGate.RewriteCorrect | yosys/gen_statemachine.cpp:762-781 | over every run the rewritten flops hold what the gated ones hold, every exported gated clock has the same waveform in both phases, and every output agrees while the clock is low |
| ClockGate.OutputExact | yosys/gen_statemachine.cpp:1126-1131 | an output agrees in both phases, over all accepted circuits and runs from power-on, exactly when its value depends neither on the latches nor on the clock level |
| ClockGate.PlainOutputs | yosys/gen_statemachine.cpp:1126-1131 | an output that mentions neither agrees in both phases |
| ClockGate.LatchOutputWrong | yosys/gen_statemachine.cpp:1126-1131 | an output that is a latch or the clock does not |
| ClockGate.PowerOnRelated | yosys/gen_statemachine.cpp:1135-1142 | hold registers that take the latch's initial value start related |
| ClockGate.OpenHighWrong | yosys/gen_statemachine.cpp:771-775 | a latch open in the high phase gives a run on which the rewrite differs |
| ClockGate.MatcherExact | yosys/gen_statemachine.cpp:964-983 | the rewrite is sound for a latch exactly when the matcher accepts it |
| BitField.Chunk | yosys/gen_statemachine.cpp:231-234 | each turn moves at least one bit and leaves neither limb |
| BitField.CopyBitsAt | yosys/gen_statemachine.cpp:231-250 | the limb-to-limb copy sets exactly bits [doff, doff+w) from the source at any pair of offsets and changes no other bit |
| BitField.ScalarBitsAt | yosys/gen_statemachine.cpp:235-245 | the scalar-source copy does the same, reading zeros past bit 63 |
| BitField.WcopyBits | yosys/gen_statemachine.cpp:224-250 | the in-place loop, ORing or replacing, terminates and is that copy |
| BitField.WscalarBits | yosys/gen_statemachine.cpp:235-245 | the in-place scalar loop is that copy |
| BitField.FoldNeedsGuard | yosys/prove_worbits_peephole.c:44-48 | for every shape outside the guard some data make the folded statement differ |
| BitField.PeepholeExact | yosys/prove_worbits_peephole.c:31-48 | folded statement and loop agree on all data exactly when both fields stay in one word |
| WideArith.AddCarry | yosys/gen_statemachine.cpp:209-211 | the double-width carry of an addition never overflows and the carry stays 0 or 1 |
| WideArith.MulCarry | yosys/gen_statemachine.cpp:212 | a partial product plus digit plus carry never overflows the double word |
| WideArith.Wadd | yosys/gen_statemachine.cpp:209 | the in-place sum is the sum of the numbers mod the range of n limbs, also when the destination is an operand |
| WideArith.Wsub | yosys/gen_statemachine.cpp:210 | the difference mod the range |
| WideArith.Wneg | yosys/gen_statemachine.cpp:211 | the two's complement mod the range |
| WideArith.MulRow | yosys/gen_statemachine.cpp:212 | a row adds digit times multiplicand, with the carry it drops accounted for |
| WideArith.Wmul | yosys/gen_statemachine.cpp:212 | the truncated schoolbook product is the product mod the range |
| WideShift.ShlValue | yosys/gen_statemachine.cpp:213 | shifting left by s multiplies by 2^s mod the range |
| WideShift.ShrValue | yosys/gen_statemachine.cpp:214 | shifting right by s divides by 2^s |
| WideShift.Wshl | yosys/gen_statemachine.cpp:213 | the top-down loop is that shift for every s, also in place |
| WideShift.Wshr | yosys/gen_statemachine.cpp:214 | the bottom-up loop is that shift for every s, also in place |
| WideShift.Wslice64Num | yosys/gen_statemachine.cpp:221-275 | both extraction forms give (V / 2^off) mod 2^w |
| WideShift.Wult | yosys/gen_statemachine.cpp:216 | true exactly when the first number is smaller |
| WideShift.Wslt | yosys/gen_statemachine.cpp:217 | true exactly when the first two's-complement number is smaller |
| WideShift.Weq | yosys/gen_statemachine.cpp:215 | true exactly when the numbers are equal |
| WideShift.WredOr | yosys/gen_statemachine.cpp:218 | true exactly when the number is not zero |
| WideShift.WredXor | yosys/gen_statemachine.cpp:219 | XOR of limbs and the halving cascade give the parity of all bits |
| WideShift.WredAnd | yosys/gen_statemachine.cpp:220 | true exactly when all width bits are set, whatever the top limb holds above them |
| WideSig.GatherStepBit | yosys/gen_statemachine.cpp:468-521 | each emitted gather statement, folded or called, adds exactly its piece's bits |
| WideSig.Materialize | yosys/gen_statemachine.cpp:454-558 | the gathered limbs are the signal's bits, zero- or sign-extended, for wires, slices and constants of any offset |
| WideSig.SigExprBits | yosys/gen_statemachine.cpp:306-400 | the shift-and-or expression is the signal, zero-extended to a word |
| WideSig.SigMeans | yosys/gen_statemachine.cpp:306-400 | a concatenation holds its pieces from the lowest bit on, each with the bits of its constant or of its wire from the offset on |
| WideSig.WireBitMeans | yosys/gen_statemachine.cpp:454-558 | bit k of a wide wire is at place k mod l of limb k / l |
| WideSig.WordIsLimbs | yosys/gen_statemachine.cpp:306-558 | up to 64 bits, the expression and the limb form are the same number |
| WideSig.ScatterPieceBit | yosys/gen_statemachine.cpp:600-616 | storing one slice changes exactly its bits of the wire |
| WideSig.ScatterPieceOk | yosys/gen_statemachine.cpp:606-613 | a narrow wire stays zero above its width |
| WideSig.PutVal | yosys/gen_statemachine.cpp:593-619 | the emitted stores, in place, give each target bit the value of the last slice covering it |
| WideSig.GatherScattered | yosys/gen_statemachine.cpp:454-619 | scattering over disjoint slices and gathering the same slices returns the value |
| WideSig.ScatterFrame | yosys/gen_statemachine.cpp:593-619 | scattering leaves every bit outside the slices alone |
| WideCell.LowBits | yosys/gen_statemachine.cpp:627-635 | a result right modulo the limbs' range has the right low bits for the output width |
| WideCell.EmitArith | yosys/gen_statemachine.cpp:627-648 | an emitted add, subtract, multiply or negate leaves the low bits of the exact unsigned result in its output slices, those of the signed result at the safe widths, and changes nothing else |
| WideSigned.ArithSignedExact | yosys/gen_statemachine.cpp:627-648 | zero-extended operands give the signed result for all values exactly when no operand is narrower than the output, or one bit is multiplied by one bit |
| WideSigned.ExactMeans | yosys/gen_statemachine.cpp:627-648 | the exact operations are integer addition, subtraction, multiplication and negation |
| WideSigned.BitsMean | yosys/gen_statemachine.cpp:627-648 | AND and XOR are carry and sum of a half adder, OR is what both make up, XNOR and NOT are complements |
| WideSigned.SignedSumWrong | yosys/gen_statemachine.cpp:630 | a one-bit -1 plus a two-bit 0 is stored as 1 in two bits where 3 is due |
| WideSigned.BitwiseSignedExact | yosys/gen_statemachine.cpp:627-648 | bitwise cells are right for signed operands exactly when no operand they read is narrower than the output |
| WideSigned.ShiftedBits | yosys/gen_statemachine.cpp:649-654 | the emitted product or quotient by 2^s is, bit by bit, the moved operand with zeros shifted in |
| WideSigned.ShiftSignedExact | yosys/gen_statemachine.cpp:649-654 | shifts are right for a signed operand exactly when it is not narrower than the output or its extension is moved out |
| WideSigned.IntCountMeans | yosys/gen_statemachine.cpp:651 | the conversion keeps a count modulo 2^32, in the range of a 32-bit int |
| WideSigned.InBoundsExact | yosys/gen_statemachine.cpp:213-214 | the shift loops read inside their limbs exactly when the `int` count is not negative |
| WideSigned.ShiftCountExact | yosys/gen_statemachine.cpp:649-654 | for every count, the emitted shift stays inside the limbs and is right for all operands exactly when the count converted to int is not negative, and equals the count or leaves nothing |
| WideSigned.EqualSignedExact | yosys/gen_statemachine.cpp:695-705 | equality of zero-extended operands is that of the signed numbers exactly when the operands have one width |
| WideSigned.SignedEqualWrong | yosys/gen_statemachine.cpp:695-705 | -1 in one bit and 1 in two bits are reported equal |
| WideCell.ScratchExact | yosys/gen_statemachine.cpp:212-265 | a multiplication indexes past its temporary exactly when its widest signal has more than 4096 bits |
| WideCell.EmitBitwise | yosys/gen_statemachine.cpp:627-648 | every output bit of a bitwise cell is the operation on the zero-extended operand bits |
| WideCell.EmitShift | yosys/gen_statemachine.cpp:649-654 | for every such count s, converted to int, an emitted shift leaves the low bits of the unsigned product or quotient by 2^s |
| WideCell.EmitCompare | yosys/gen_statemachine.cpp:706-717 | signed and unsigned comparisons of operands of different widths compare the signals' own numbers |
| WideCell.EmitEqual | yosys/gen_statemachine.cpp:695-705 | equality of the signals' unsigned numbers |
| WideCell.ExtendSigned | yosys/gen_statemachine.cpp:541-557 | sign extension keeps the two's-complement number |
| WideCell.PutBitExact | yosys/gen_statemachine.cpp:620-623 | a one-bit store is right exactly when the target is wide or one bit long |
| Soa.CopyBits2 | yosys/make_soa_model.py:157-172 | the strided copies act on the instance's gathered limbs as the plain ones and touch no other address |
| Soa.ScalarBits2 | yosys/make_soa_model.py:162-178 | so do the strided scalar copies |
| Soa.Copy2 | yosys/make_soa_model.py:153-154 | the strided limb copy copies the lane |
| Soa.LaneMeans | yosys/make_soa_model.py:2-9 | limb i of instance g is the buffer's at i * stride + g |
| Soa.RedOr2 | yosys/make_soa_model.py:155-156 | true exactly when the instance's number is not zero |
| Soa.Wslice642Num | yosys/make_soa_model.py:148-152 | the strided extraction gives (V / 2^off) mod 2^w of the instance's own number |
| Soa.OtherLanes | yosys/make_soa_model.py:148-178 | a change confined to one lane leaves every other instance's limbs |
| Soa.HelperIsPutLane | yosys/make_soa_model.py:153-178 | what a helper leaves behind is its lane's new limbs put back |
| Soa.FarmIsolated | yosys/make_soa_model.py:2-9 | after any interleaving of calls every instance holds what it would hold alone |
| ConeSlice.BackCone | yosys/cone_slice.py:35-49 | the worklist finds the least set closed under gate arguments, split into gates and undriven nets |
| ConeSlice.FullMeans | yosys/cone_slice.py:79-137 | in the full bench OR is true iff some argument is, AND iff all are, NOR and NAND the opposite, XOR iff an odd number are, NOT and BUFF follow the argument |
| Dfs.Visit | yosys/cone_slice.py:51-62 | on an acyclic graph the recursion lists each node once and after all its arguments |
| ConeSlice.XorRight | yosys/cone_slice.py:116-134 | constants folded into parity and equal arguments cancelled in pairs leave the XOR's value |
| ConeSlice.SimplifyRight | yosys/cone_slice.py:79-137 | every folded gate computes what the gate computes on its resolved arguments |
| ConeSlice.ResolveRight | yosys/cone_slice.py:73-77 | following aliases keeps the value |
| ConeSlice.FoldPass | yosys/cone_slice.py:66-137 | the pass over the order fills the tables of the specification |
| ConeSlice.FoldSound | yosys/cone_slice.py:66-137 | constants, aliases and surviving gates hold in every solution of the bench |
| ConeEmit.FoldTidy | yosys/cone_slice.py:66-137 | every gate lands in one table, aliases end at surviving nets, and surviving gates read surviving nets below them |
| ConeEmit.DriversPlaced | yosys/cone_slice.py:139-155 | with the output driver and constant sources added, every argument is undriven, a gate of lower rank, or a constant read by an unknown gate |
| ConeOutput.Mark | yosys/cone_slice.py:157-167 | marks exactly what the target needs and declares every undriven net it reads |
| ConeOutput.SliceRight | yosys/cone_slice.py:178-185 | a self-contained slice computes the target's bit of the full bench for every assignment and every meaning of the unknown gates |
| ConeExtract.Extract | yosys/cone_slice.py:32-185 | end to end: refused only for an unknown target; same target bit, so what the target's kind makes of its arguments in the full bench, and constant where an always-true (false) argument forces an OR or NOR (AND or NAND); each gate reads declared inputs or earlier gates if the gates the target depends on are known; a known gate reads a constant only if the output is constant |
| ConeExtract.ConstOutput | yosys/cone_slice.py:144-146 | an output that folds to a constant is that constant under every assignment |
| ConeLimit.UnluckyNever | yosys/cone_slice.py:135-137 | for every unknown kind a three-net bench none of whose slices is self-contained |
| ConeLimit.UnluckySliced | yosys/cone_slice.py:32-185 | the extractor does write a slice of that bench |
| ConeLimit.KindSafeExact | yosys/cone_slice.py:135-137 | over all benches that use a kind beside the known ones, all slices are self-contained exactly when the kind is known |
| DemandEval.RunPush | bfit/prototypes/demand_eval.c:66-84 | the forward sweep gives the output of every cycle, with one evaluation per gate and cycle |
| DemandEval.LeafMeans | bfit/prototypes/demand_eval.c:66-84 | an input has its stimulus; a register its driver's last value, 0 in the first cycle |
| DemandEval.BinMeans | bfit/prototypes/demand_eval.c:57-64 | a two-operand gate is the XOR of its operands, or the first plus one in a byte |
| DemandEval.SumMeans | bfit/prototypes/demand_eval.c:57-64 | a sum gate is the sum of its operands in a byte |
| DemandEval.XorObserved | bfit/prototypes/demand_eval.c:66-84 | on two inputs and their XOR a push run observes the XOR of the stimuli |
| DemandEval.Pull.Value | bfit/prototypes/demand_eval.c:88-101 | the memoised recursion terminates with the reference value and adds to the memo the cell and what it needs, nothing else |
| DemandEval.RunPull | bfit/prototypes/demand_eval.c:102-106 | every observed cycle has the reference value; the evaluation count is the size of the least closed set of cells holding the observations |
| DemandEval.BuildCone | bfit/prototypes/demand_eval.c:113-125 | the explicit stack stays within its buffer and finds the least closed set, listed in index order |
| DemandEval.EvalSame | bfit/prototypes/demand_eval.c:120 | a gate's value depends only on the operands the cone follows |
| DemandEval.FollowsMeans | bfit/prototypes/demand_eval.c:113-123 | the cone follows a register's driver, a sum's operands, and of a two-operand gate the second only when two are recorded |
| DemandEval.RunCone | bfit/prototypes/demand_eval.c:126-142 | sweeping the cone alone gives the output of every cycle |
| DemandEval.StrideGap | bfit/prototypes/demand_eval.c:104 | between two observed cycles no cycle is on the stride |
| GateBench.CacheRight | yosys/gate_bench.c:31-41 | count and parity determine what re-evaluating all inputs gives, for every kind and fan-in |
| GateBench.EvalMeans | yosys/gate_bench.c:75-100 | AND is 1 iff all inputs are, OR iff some is, NAND and NOR the opposite, XOR the parity of the inputs that are 1 |
| GateBench.CachedGate.Absorb | yosys/gate_bench.c:44-57 | one input change keeps count, parity and output right |
| GateBench.CachedGate.InputUpdated | yosys/gate_bench.c:44-62 | on any chain the cached update is the update of the specification and keeps every cache right |
| GateBench.TradGate.Evaluate | yosys/gate_bench.c:75-100 | the loop over all inputs is the gate's function |
| GateBench.TradGate.InputUpdated | yosys/gate_bench.c:102-111 | the re-evaluating update is the same update |
| GateBench.RunCached | yosys/gate_bench.c:44-62 | after any sequence of input changes anywhere in a chain every count, parity and output is what re-evaluating the stored inputs gives, and the state is that of re-evaluating updates |
| GateBench.RunTrad | yosys/gate_bench.c:102-111 | the re-evaluating chain does the same updates |
| GateBench.BothRun | yosys/gate_bench.c:44-111 | after the same changes the two chains are in the same state |
| GateBench.AppendUpdate | yosys/gate_bench.c:44-62 | a change behind the first gates leaves those alone |
| GateBench.RunSettles | yosys/gate_bench.c:44-62 | after any sequence of changes of free inputs every output is the evaluation of its inputs and every driven input its driver's output |
| GateBench.UpdateKeeps | yosys/gate_bench.c:44-62 | a change touches its own input and driven inputs only |
| SwitchOut.Halve | bfit/bfit.py:563-567 | pointing a node at its grandparent changes no root |
| SwitchOut.UnionFind.Find | bfit/bfit.py:563-568 | the halving loop terminates at the root and changes no node's root |
| SwitchOut.UnionFind.Union | bfit/bfit.py:574 | linking two roots merges their trees and nothing else |
| SwitchOut.MergeOn | bfit/bfit.py:569-574 | after the transistor loop two nodes share a root exactly when ON channels connect them |
| SwitchOut.Sweep | bfit/bfit.py:561-584 | a sweep stops on contention exactly when the rails are connected, and otherwise gives each unknown node connected to a rail the rail's value |
| SwitchOut.SwitchOut | bfit/bfit.py:554-585 | the solve starts from the given inputs with the rails at 1 and 0 and nothing else; the result is that of at most eight sweeps, ended by contention or no change |
| SwitchOut.InverterSolves | bfit/bfit.py:554-585 | an n-channel pull-down and a p-channel pull-up with one gate solve to the complement of their input, for all distinct nodes |
| SwitchOut.TraceBacked | bfit/bfit.py:578-582 | values are only added, and every added value has an ON path to its rail |
| SwitchOut.OutputBacked | bfit/bfit.py:585 | a returned 1 (0) has an ON path to the high (low) rail |
| SwitchOut.StopIsLeast | bfit/bfit.py:583-584 | a stop on no change is the least valuation closed under the rails |
| SwitchOut.OrderIrrelevant | bfit/bfit.py:569-574 | the result does not depend on the order or repetition of the transistors |
| Utf8.DecodeEncode | vamos/names.py:75-97 | decoding an encoding returns the string, lone surrogates included |
| Utf8.EncodeMeans | vamos/names.py:75 | each code point in turn is spelt by the fewest lead and continuation bytes whose payload it is |
| Utf8.EncodeDecode | vamos/names.py:96-100 | what decodes is the encoding of what it decodes to, and is not shorter |
| Names.EscapeName | vamos/names.py:70-77 | the byte loop leaves a plain name, and writes any other as an underscore and its encoding's bytes: a letter or digit itself, any other byte an underscore and three octal digits of it, highest first |
| Names.EscapeMeans | vamos/names.py:70-77 | so does the specification |
| Names.SpellsUnique | vamos/names.py:75-77 | bytes have one such spelling |
| Names.DecodeLoop | vamos/names.py:80-100 | the indexed loop, with the form check, decodes a form to a name exactly when the form reads as an underscore and the bytes of the name's encoding |
| Names.ParseExact | vamos/names.py:85-95 | a form's body parses to bytes exactly when each letter or digit is its byte and each underscore is followed by three octal digits of its byte |
| Names.EscapeRoundTrip | vamos/names.py:113-122 | unescaping an escaped name returns it, for every string |
| Names.EscapeInjective | vamos/names.py:70-77 | different names have different escapes |
| Names.UnescapeExact | vamos/names.py:113-122 | unescaping succeeds on the image of escaping and nowhere else |
| Names.EscapedExact | vamos/names.py:103-110 | the escaped forms are exactly what escaping writes for the names it changes |
| Names.EscapeSafe | vamos/names.py:70-77 | escapes hold only letters, digits and underscore |
| Names.DecodeShort | vamos/names.py:191-200 | decoding shortens, so the recursive component test ends |
| Names.ComponentRoundTrip | vamos/names.py:191-238 | one component there and back, also when it only looks escaped |
| Names.WrittenRoundTrip | vamos/names.py:203-238 | reading a written name back gives the name, for every name and use |
| Names.WrittenInjective | vamos/names.py:203-211 | different names are written differently |
| Names.WrittenHoldable | vamos/names.py:203-211 | no written name holds white space or a comma in a nutmeg file, or a slash in a file name |
| Names.WrittenMeans | vamos/names.py:203-211 | a component is written escaped exactly when its format cannot hold a character of it or it is the escape of one so written; dots and colons stay |
| Names.Examples | vamos/names.py:70-77 | `b.c` escapes to `_b_056c`, and `a/b` is written `_a_057b` as a file name |
| Names.ReadBack | vamos/names.py:227-238 | the component loop is that inverse |
| Names.UnnameExact | vamos/names.py:227-238 | a text is read back as itself exactly when no component of it is the escape of one that is written so |
| Names.NeverWritten | vamos/names.py:227-228 | `_a_040b. ` is never written to a nutmeg file and does not come back as it is |

## Left out

- Async-reset overrides, multi-clock masks, late clock groups and derived resets: they depend on delta cycles of another program.
- Signal aliasing (signal map, redirect table), FSM specialisation, activity census, coverage, line directives and all printing: library or output.
- Calling the reset function again in the middle of a run: the statics of gated evaluation are not reset by it.
- The test-enable OR form of the clock gate, enable-cone size limits and reclocked memory ports: the first assumes a quasi-static input, the others add no new argument.
- Memory addresses beyond a memory: modelled as reads of zeros and ignored writes; the emitted code does not check them.
- Memory write cells in the block numbering of gated evaluation: the model numbers combinational cells only.
- Wide part-selects by a signed amount, multiplexers and reductions as cells: single calls of helpers proved here.
- The profile file of the activity-guided re-sort: activities are any numbers.
- The bits above a narrow wire's width are one bit per wire that says whether any is set; what a cell computes from set ones is arbitrary.
- The casts of the 32-bit word carrier option: only its word size is modelled.
- Limb arrays of wires at the level of whole cells are values; in-place update is proved for the runtime helpers, the stores and the temporaries.
- Text rewriting of the structure-of-arrays script, file reading and writing of the cone extractor, and choice of its constant source (any support net here, the first by name there).
- The forward evaluator of the Python prototype counts registers as evaluations; the model counts gates as the C program does.
- Gate recognition, netlist parsing and tuning around the switch-level solve.
- Message unescaping inside engine texts and results-file error handlers.
- WideCell.EmitArith: for signed operands narrower than the output it promises the unsigned result, as the emitted code computes; `WideSigned.ArithSignedExact` says when that is also the signed one.
- WideCell.EmitBitwise: operands are zero-extended, as the emitted code does; `WideSigned.BitwiseSignedExact` says when that is right for signed ones.
- WideCell.EmitShift: operands are zero-extended, as the emitted code does; `WideSigned.ShiftSignedExact` says when that is right for signed ones.
- WideCell.EmitEqual: operands are zero-extended, as the emitted code does; `WideSigned.EqualSignedExact` says when that is right for signed ones.
