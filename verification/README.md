# IVM: two interpreters, one meaning

IVM executes EVM bytecode in two ways. **Baseline** checks gas and stack before every instruction.
**Advanced** first compiles the bytecode into an instruction table cut into basic blocks, charges the
base cost of a whole block and checks its stack needs once, on entry, and repairs the amount of gas left
for the few instructions that can observe it. This project models both interpreters, the compiler between
them and the execution state they share, and proves that a message has the same observable result in both
under two sufficient conditions, one on the cost of blocks and one on jump positions. It shows with whole
messages that neither can be dropped. A third limit, on the 32-bit sums over the stack heights of a block, lies
outside the model of the result: it is stated exactly, as a size of the code.

## The main results

1. **Refinement** (`Refinement.AdvancedRefinesBaseline`). For every revision, message and host, and for every
   value of the uninitialised bytes in Baseline's code buffer, both interpreters fail, or both complete with
   the same status, gas left and output after the same requests to the host. This is proved for all code that
   meets two conditions, and all code of legal size does: no block costs more than 2^32-1, unless the message gas
   is below that (`CodeStructure.CostsFit`), and every JUMPDEST has a 31-bit position and table index, so that
   signed 32-bit integers hold them (`TableStructure.Indexable`). Without the second condition, for all code of
   at most 2^32 bytes, the results still agree unless Advanced ends with a bad jump destination
   (`Refinement.AdvancedSimulatesBaseline`). `Limits.CostLimitIsReal` and `JumpLimits.IndexLimitIsReal` give whole
   messages on which the interpreters differ without the first or the second condition.
2. **Safety of Advanced** (`ReachableStates.UndefinedOnlyOffers`). For all code of at most 2^32 bytes and any gas, no
   run uses the table, the jump targets, the push constants or the unchecked stack out of bounds. The only
   undefined behaviour is that a CREATE may offer negative gas to the host, where blocks cost more than 2^32-1
   (`Limits.UnfundedCreateIsReal`).
3. **Termination.** Baseline ends for all code and gas. Advanced ends for all code of at most 2^32 bytes and any gas
   (`Advanced.StepProgress`, `TableStructure.ShortCodeAddressable`), and this bound is exact: one byte more, and the
   jump tables wrap around so that a message never ends (`JumpLimits.WrapLimitIsReal`).
4. **Lockstep over whole runs** (`ReachableStates.EveryStateMatches`). For all code of at most 2^32 bytes whose block
   costs fit, every state that Advanced reaches stands for a state that Baseline reaches: the same before a block,
   and inside a block the same with the base cost of the rest of the block less gas. GAS, SSTORE, calls and
   creations are run on exactly Baseline's state (`ReachableStates.ObserversSeeBaseline`).
5. **The loops compute the machines** (`Interpreters.RunBaseline`, `RunAdvanced`, `CrossCheck`). The imperative
   loops over a mutable stack array, a mutable memory buffer and a 64-bit gas counter compute exactly the
   results that result 1 relates, also on a state that another message has used before. No value that the
   counter takes on the way leaves 64 bits. The loop of Baseline is covered for all code, that of Advanced
   for all code of at most 2^32 bytes whose block costs fit.
6. **The compiler** (`Analysis.Analyze`, `TableStructure.JumpsAgreeExactly`). For all code the one-pass analysis
   builds the table that the structural definition of basic blocks prescribes. Its jump tables accept exactly the
   valid jump destinations if and only if the code is indexable.
7. **Every instruction obeys one law** (`Baseline.DispatchLawful`, `Advanced.OpStepLawful`, built on
   `InstructionLaws.OrdinaryLawful`): gas never rises, memory is paid for, the stack changes by its table value
   and only within the declared items, and static mode is kept. The bound on memory and static mode over whole
   runs follow from this law for all code, and so does the stack bound of Baseline.

8. **What each instruction does** (`CallMeaning`, `HostMeaning`, `MemoryMeaning`, `StackMeaning`, `StepMeaning`,
   `ResultMeaning`, `TraitsMeaning`). Both machines run the same shared instructions, so the refinement alone would
   hold for wrong ones too. Each is therefore stated a second time without the functions that define it: when it
   succeeds, what it pushes, writes and asks, every field of the messages it sends, and its gas in numbers. A message
   ends, in both machines, with the gas and the output that the state at its last instruction determines
   (`ResultMeaning.ReturnMeaning`, `EveryResult`, `AdvancedReturnMeaning`).

In results 2 to 5, "at most 2^32 bytes" stands for the weaker condition that is actually required: every JUMPDEST
has a position below 2^32 (`TableStructure.Addressable`), which indexable code of any size meets too.

## How the model is laid out

* `Words`, `Arithmetic`: 256-bit words as naturals below 2^256, 64-bit limbs, shifts and bit operations.
* `InstructionTraits`: the gas and stack tables. `Machine`: message, host, state, outcome, observation.
* `MemoryExpansion`, `Instructions`: what each instruction means on state values. `InstructionLaws`: the
  law that each of them obeys.
* `CodeStructure`: instruction boundaries and basic blocks, independent of either interpreter.
* `Baseline`; `Analysis`, `TableStructure`, `Advanced`: the two machines and the compiler.
* `Simulation`, `Refinement`, `ReachableStates`: the proof that the second refines the first, for results and for
  all states on the way. `Limits`, `JumpLimits`: messages beyond the limits of the implementation. `RunLaws`, `MemoryLaws`,
  `CallLaws`, `WordLaws`: properties of runs, memory, calls and word arithmetic.
* `TraitsMeaning`, `StackMeaning`, `MemoryMeaning`, `HostMeaning`, `CallMeaning`, `StepMeaning`, `ResultMeaning`: what
  the tables, the instructions, a step of Baseline and the result of a message are, said independently of their
  definitions.
* `Storage`, `ExecutionState`, `Interpreters`: the mutable stack and memory, the instructions that update the
  state in place, and the two loops, each method tied to the meaning on values.

A host is a deterministic state machine: each answer is a function of all the requests made before. It is only
assumed (`Machine.HonestHost`) to return between zero and the gas of the message, and to copy no more code
bytes than were asked for.

The repository's README calls IVM "gas free" (README.md:97), but the code charges gas; the model follows the
code. `lib/ivmone/analysis.hpp:24` says that the cost of a block cannot overflow, which holds for code of at
most 0x6000 bytes; the analysis clamps the cost for longer code. CHANGELOG.md:144-148 places the resulting problem
at gas limits above 2^32-1; in the code it starts at 2^32-1, the gas of the message in `Limits.CostLimitIsReal`. Two
limits are not documented. Jump tables hold 32-bit positions and indexes: `TableStructure.JumpsAgreeExactly` says for
which code jumps are right. The stack numbers of a block are summed up in 32-bit integers: `Limits.SummariesInRange`
says up to which size of the code they cannot overflow, and `Limits.SummaryLimitIsReal` that this size is exact.

## Model

| member | source | states |
|---|---|---|
| InstructionTraits.TableBounds | lib/ivmone/instruction_traits.hpp:35-346 | In every revision a base cost is undefined or between 0 and 32000, at most 17 items are needed, no instruction raises the stack by more than one item, and what remains is never negative |
| InstructionTraits.FlowCosts | lib/ivmone/instruction_traits.hpp:35-160 | JUMPDEST costs 1, JUMP 8, JUMPI 10 and STOP nothing in every revision, the facts termination rests on |
| MemoryExpansion.GrowMemoryExact | lib/ivmone/instructions.hpp:41-57 | Growth succeeds if and only if the gas covers the price of the new words, three per word and the difference of the squares over 512; exactly that is spent, the contents are kept and followed by zeros up to the smallest whole number of words |
| MemoryExpansion.CheckMemorySmall | lib/ivmone/instructions.hpp:60-73 | If the check passes, the range lies within the memory, for every 256-bit offset |
| MemoryExpansion.CheckMemory | lib/ivmone/instructions.hpp:76-88 | If the check passes, the range lies within the memory unless it is empty, for every 256-bit offset and size |
| InstructionLaws.OrdinaryLawful | lib/ivmone/instructions.hpp:95-693 | Every instruction that neither ends the execution nor depends on the code position leaves gas non-negative and not larger, pays for the memory it adds, changes the stack by exactly its table value and only within its declared items, and in static mode makes only harmless requests |
| InstructionLaws.HaltingFrugal | lib/ivmone/instructions.hpp:812-860 | RETURN, REVERT and SELFDESTRUCT obey the gas, memory and static-mode parts of that law |
| InstructionLaws.SstoreLawful | lib/ivmone/instructions.hpp:648-693 | SSTORE obeys the law for every revision and storage status, and never reaches the host in static mode |
| InstructionLaws.CallLawful | lib/ivmone/instructions_calls.cpp:51-97 | A call obeys the law; one that moves value costs at least 6700 net in spite of the stipend |
| InstructionLaws.CreateLawful | lib/ivmone/instructions_calls.cpp:106-162 | A creation obeys the law and never happens in static mode |
| InstructionLaws.FundedOffers | lib/ivmone/instructions_calls.cpp:65-97 | With gas left, SSTORE, calls and creations never offer negative gas to the host |
| InstructionLaws.UnfundedFails | lib/ivmone/instructions.cpp:36-49 | With negative gas they fail, all but a CREATE, which either offers negative gas or is refused by depth or balance and then takes nothing |
| InstructionLaws.OfferedGasBound | lib/ivmone/instructions_calls.cpp:65-72 | The gas offered is never negative and, from Tangerine Whistle on, leaves the caller a 64th |
| InstructionLaws.GasBlindTranslates | lib/ivmone/instructions.cpp:13-29 | An instruction that does not observe gas gives the same result when any amount of gas is held back from it, less that amount, or fails when less than that is left |
| CodeStructure.BoundaryEnd | lib/ivmone/baseline.cpp:24-35 | Every instruction boundary lies within the code or is the end of the last instruction, and the next boundary follows it |
| CodeStructure.SummaryMeaning | lib/ivmone/analysis.cpp:65-72 | The running summary of a block equals the sum of its base costs, and its two stack numbers decide exactly whether a stack of a given height underflows or overflows anywhere in the block |
| CodeStructure.ClampDecision | lib/ivmone/analysis.cpp:13-17 | The clamped cost is covered exactly by gas that covers the cost or lies between 2^32-1 and the cost |
| CodeStructure.BlockCheckExact | lib/ivmone/instructions.cpp:167-182 | BEGINBLOCK passes if and only if the stack fits all through the block and the gas covers its base cost or lies between 2^32-1 and that cost |
| CodeStructure.InstructionCheckMeaning | lib/ivmone/baseline.cpp:50-71 | The trimmed check, which tests either overflow or underflow but never both, decides both bounds exactly |
| CodeStructure.ChecksAlongBlock | lib/ivmone/baseline.cpp:50-71 | All checks along a block pass if and only if its instructions are defined, its base cost is covered and the stack fits |
| CodeStructure.BlockCheckEqualsInstructionChecks | lib/ivmone/instructions.cpp:167-182 | The one check of BEGINBLOCK and the checks of all instructions in the block agree if and only if the gas is not between 2^32-1 and a larger cost of an otherwise executable block |
| CodeStructure.ClampMisleads | lib/ivmone/analysis.cpp:13-40 | A concrete block that BEGINBLOCK admits although its checks do not all pass |
| CodeStructure.LegalCodeFits | lib/ivmone/limits.hpp:7-17 | No block of code within the legal size reaches the clamp |
| Baseline.Analyze | lib/ivmone/baseline.cpp:16-46 | The bitmap marks exactly the JUMPDEST bytes at instruction boundaries, and the buffer holds the code with STOP right behind it and behind the last immediate |
| Baseline.NoBoundaryInside | lib/ivmone/baseline.cpp:25-33 | No instruction starts inside the immediate of another |
| Baseline.InstructionTables | lib/ivmone/baseline_instruction_table.cpp:12-33 | The tables of all revisions hold the cost, the items needed and a flag that is set exactly for instructions that raise the stack |
| Baseline.CheckRequirementsMeaning | lib/ivmone/baseline.cpp:50-71 | The check passes exactly if the instruction is defined, affordable and keeps the stack within 0 to 1024, and then charges exactly the base cost |
| Baseline.FetchSafe | lib/ivmone/baseline.cpp:35-45 | A fetch at a boundary and the immediates of a PUSH stay inside the buffer, and at the end of the code STOP is fetched |
| Baseline.PositionalLawful | lib/ivmone/instructions.hpp:695-755 | PUSH, PC, JUMP and JUMPI arrive at a boundary, change only the stack, by its table value and within the declared items |
| Baseline.DispatchLawful | lib/ivmone/baseline.cpp:166-329 | The law of all instructions: whatever Baseline dispatches, if it goes on then at a boundary, with the stack changed by its table value and only within the declared items, no gain of gas, memory paid for and static mode kept |
| Baseline.StepProgress | lib/ivmone/baseline.cpp:154-330 | A whole step that continues obeys that law, charges at least the base cost, and spends gas or moves forward |
| Analysis.OpTables | lib/ivmone/instructions.cpp:316-346 | The op tables of all revisions; an undefined instruction costs nothing and asks nothing of the stack |
| Analysis.BitOrDisjoint | lib/ivmone/analysis.cpp:106-110 | Setting bits below a multiple of 2^n is an addition |
| Analysis.InsertByte | lib/ivmone/analysis.cpp:104-111 | One round of the shift loop extends the big-endian value of the immediate by one byte |
| Analysis.ReadSmallPush | lib/ivmone/analysis.cpp:99-113 | The 64-bit shift loop computes the big-endian value of the immediate, missing bytes read as zero, and stops at its end or at the end of the code |
| Analysis.LeLoadReversed | lib/ivmone/analysis.cpp:121-134 | Bytes stored in reverse order have, read little-endian, the big-endian value |
| Analysis.ReadLargePush | lib/ivmone/analysis.cpp:115-138 | The reversed byte store computes the same value for the larger immediates |
| Analysis.DecodeArgument | lib/ivmone/analysis.cpp:87-154 | The argument of an entry is the immediate, the index of the constant, the base cost of the block so far or the position, by kind of instruction |
| Analysis.SideTablesStep | lib/ivmone/analysis.cpp:74-83 | Each instruction adds its own share to the constants and the jump tables, and nothing is lost or reordered |
| Analysis.FinishedInside | lib/ivmone/analysis.cpp:63-83 | Adding an instruction inside a block keeps the table that the pass will end with |
| Analysis.FinishedAtEnd | lib/ivmone/analysis.cpp:156-165 | Closing a block and opening the next keeps the table that the pass will end with |
| Analysis.LargePushesBound | lib/ivmone/analysis.cpp:52-54 | The constants never outgrow the storage reserved for them |
| Analysis.Analyze | lib/ivmone/analysis.cpp:42-181 | The one-pass algorithm computes the table, constants and jump tables that the block structure of the code prescribes, and stays within the reserved storage |
| TableStructure.AtInstrStep | lib/ivmone/analysis.cpp:63-166 | From the entry of an instruction the table continues with the entry of the next one, or with the BEGINBLOCK of the next block where this one ends; a PUSH entry names its own constant |
| TableStructure.AtCodeEnd | lib/ivmone/analysis.cpp:168-173 | Behind the last instruction stands STOP, the last entry |
| TableStructure.TableShape | lib/ivmone/analysis.cpp:56-175 | The table starts with BEGINBLOCK, each terminator but the last entry is followed by BEGINBLOCK, the last entry is STOP, and the length is at most twice the code size plus two |
| TableStructure.LowerBoundFinds | lib/ivmone/analysis.hpp:136-144 | Halving an ascending sequence finds the first element that is not smaller |
| TableStructure.ShortCodeAddressable | lib/ivmone/analysis.cpp:78-80 | In code of at most 2^32 bytes every jump destination has a position below 2^32 |
| TableStructure.IndexableAddressable | lib/ivmone/analysis.cpp:78-80 | So it has in indexable code of any size |
| TableStructure.JumpTables | lib/ivmone/analysis.cpp:74-81 | Where every JUMPDEST has a position below 2^32, each stored pair that is not negative names a JUMPDEST instruction and the BEGINBLOCK of its block; in indexable code all JUMPDEST instructions are stored so, in ascending order |
| TableStructure.RefusedDestination | lib/ivmone/instructions.cpp:55-57 | In code that is not indexable there is a valid destination that Advanced refuses |
| TableStructure.JumpsAgreeExactly | lib/ivmone/analysis.cpp:78-80 | For code of any 64-bit size, Advanced accepts exactly the valid destinations if and only if every JUMPDEST has a 32-bit position and table index |
| TableStructure.SmallCodeIndexable | lib/ivmone/analysis.cpp:78-80 | Code of up to 2^30 bytes always meets that condition |
| TableStructure.JumpAgreement | lib/ivmone/instructions.cpp:51-60 | Where every JUMPDEST has a position below 2^32, the search succeeds only for valid destinations and leads to the BEGINBLOCK of the block there; in indexable code it succeeds for all of them; valid are exactly the destinations of Baseline's bitmap |
| Advanced.CorrectedStepLawful | lib/ivmone/instructions.cpp:125-155 | An instruction run with the pre-charge given back obeys the law of all instructions on the gas that Advanced holds |
| Advanced.OpStepLawful | lib/ivmone/instructions.cpp:13-165 | The law of all instructions as the table executes them, for any table: if the execution goes on then with the next entry, or where the jump tables lead if the jump is taken, with the stack changed by its table value and only within the declared items, no gain of gas, memory paid for and static mode kept |
| Advanced.SummaryCost | lib/ivmone/instructions.cpp:167-182 | BEGINBLOCK charges the clamped base cost of the block, and at least 1 where a JUMPDEST stands |
| Advanced.AnalysisSound | lib/ivmone/analysis.cpp:156-165 | In the analysed table of code whose JUMPDEST positions are below 2^32, every pair that a jump can use leads to a block that charges gas |
| Advanced.StepProgress | lib/ivmone/execution.cpp:15-17 | In such a table each step spends gas, moves forward, jumps to a block that will charge, or ends the run, so the loop ends |
| Simulation.RefusedStep | lib/ivmone/baseline.cpp:162-164 | Baseline fails at an instruction whose own requirements are not met |
| Simulation.BaselineFailsInBlock | docs/efficient_gas_calculation_algorithm.md:137-144 | Early failure is safe: where gas or stack do not last for the rest of the block, Baseline fails as well before it leaves the block |
| Simulation.GasBlindMatches | lib/ivmone/instructions.cpp:13-29 | With the rest of the block paid for in advance, an instruction that does not observe gas does the same in both machines |
| Simulation.GasAwareMatches | lib/ivmone/instructions.cpp:36-49 | SSTORE, GAS, calls and creations are shown exactly the gas of Baseline, and the pre-charge is restored behind them |
| Simulation.PushImmediatesAgree | lib/ivmone/instructions.hpp:745-755 | For every complete PUSH the constant of the table is the value that Baseline loads from the buffer |
| Simulation.InstructionMatches | lib/ivmone/analysis.cpp:140-149 | The gas invariant: before each instruction of a block Advanced holds Baseline's gas less the base cost still to come, and every instruction keeps it or both fail |
| Simulation.HaltingSteps | lib/ivmone/instructions.cpp:105-123 | STOP, RETURN, REVERT, INVALID and SELFDESTRUCT end both machines in the same way |
| Simulation.JumpSteps | lib/ivmone/instructions.cpp:51-77 | A jump is taken to the same place, refused or passed by both machines alike, but that Advanced may refuse what Baseline takes in code that is not indexable |
| Refinement.TruncatedPush | lib/ivmone/analysis.cpp:124-134 | Behind a PUSH that the code cuts short both machines stop with the same result |
| Refinement.BlockEntry | lib/ivmone/instructions.cpp:167-182 | BEGINBLOCK takes the clamped base cost of the block and goes on if that is covered and the stack fits, and fails otherwise, for every cost and gas |
| Refinement.SimulateBlock | lib/ivmone/execution.cpp:15-17 | From the start of any block, in the same state, Advanced refines Baseline: the same observation, or a bad jump destination in code that is not indexable, where block costs fit the message gas |
| Refinement.BaselineNeverStuck | lib/ivmone/baseline.cpp:140-343 | No Baseline run has undefined behaviour |
| Refinement.AdvancedSimulatesBaseline | lib/ivmone/execution.cpp:11-24 | Where block costs fit the message gas and JUMPDEST positions are below 2^32, both interpreters end alike in status, gas left, output and the requests of a completed run, or Advanced ends with a bad jump destination in code that is not indexable; Advanced never has undefined behaviour |
| Refinement.AdvancedRefinesBaseline | test/fuzzer/fuzzer.cpp:333-387 | For indexable code whose block costs fit the message gas, both interpreters end alike, without exception |
| Refinement.LegalCodeRefines | lib/ivmone/limits.hpp:7-8 | For code of legal size the refinement holds with any gas |
| RunLaws.BaselineRunEndsWell | lib/ivmone/baseline.cpp:332-337 | A Baseline run leaves no more gas than it had, and no gas and no output if it fails |
| RunLaws.AdvancedRunEndsWell | lib/ivmone/execution.cpp:19-23 | The same for every Advanced run through a table from which jumps lead to charging blocks only |
| RunLaws.BaselineStatesWithinMeans | lib/ivmone/baseline.cpp:154-330 | Every reachable Baseline state has at most 1024 stack items, memory in whole words, and gas left plus the price of its memory within the message gas |
| RunLaws.AdvancedStatesWithinMeans | lib/ivmone/execution.cpp:15-17 | In every state that Advanced reaches, for all code, memory comes in whole words and gas left plus its price is within the message gas; where it ends, it ends well; the stack bound is the matter of UndefinedOnlyOffers |
| RunLaws.AdvancedRunReached | lib/ivmone/execution.cpp:11-24 | Where JUMPDEST positions are below 2^32 the steps lead to the result of the run |
| ReachableStates.StatesStanding | lib/ivmone/execution.cpp:15-17 | Where JUMPDEST positions are below 2^32 every reached state stands at the BEGINBLOCK of a block, or at the entry of an instruction with a stack that fits to the end of the block, for any gas and block cost |
| ReachableStates.UndefinedOnlyOffers | lib/ivmone/execution_state.hpp:47-63 | No step from such a state uses the table, a constant or the unchecked stack out of bounds, or lacks its argument: the only undefined behaviour is a CREATE that offers negative gas to the host |
| ReachableStates.StuckOnlyOffers | lib/ivmone/execution.cpp:11-24 | A run of Advanced has undefined behaviour only if it comes to a CREATE that offers negative gas, for any gas and block cost where JUMPDEST positions are below 2^32 |
| ReachableStates.StatesInRange | lib/ivmone/instructions.cpp:36-49 | At every such state the block cost is a 32-bit number, and the gas with the pre-charge given back, plus the price of the memory, is within the message gas |
| ReachableStates.EveryStateMatches | lib/ivmone/analysis.cpp:140-149 | The gas invariant over whole runs: every state that Advanced reaches stands for one that Baseline reaches in no more steps, with the base cost of the rest of the block less gas, where block costs fit the message gas and JUMPDEST positions are below 2^32 |
| ReachableStates.ObserversSeeBaseline | lib/ivmone/instructions.cpp:85-155 | In every such run GAS, SSTORE, calls and creations are run on exactly the state that Baseline runs them on |
| Limits.CostLimitIsReal | CHANGELOG.md:144-148 | Messages beyond the cost limit that Advanced completes while Baseline runs out of gas, on every host |
| Limits.UnfundedCreateIsReal | lib/ivmone/instructions_calls.cpp:138-154 | A message beyond the cost limit in which Advanced offers negative gas to the host |
| JumpLimits.IndexLimitIsReal | lib/ivmone/instructions.cpp:51-60 | Messages with a jump to position 2^31 that Baseline completes while Advanced ends with a bad jump destination |
| JumpLimits.WrapLimitIsReal | lib/ivmone/analysis.cpp:78-80 | Messages with code of 2^32 + 1 bytes in which Advanced comes back to the same state for ever while Baseline fails |
| Limits.SummariesInRange | lib/ivmone/analysis.cpp:19-25 | In code of up to 357913939 bytes no stack number of any block leaves 32 bits at any instruction, and no cost 64 bits |
| Limits.SummaryLimitIsReal | lib/ivmone/analysis.cpp:68-70 | One byte more is too much: a block of calls ended by SWAP16 needs more stack items than 32 bits hold |
| RunLaws.StaticModeHarmless | lib/ivmone/instructions_calls.cpp:37-56 | With the static flag set, no run of either interpreter, failed ones included, writes storage, emits a log, destroys itself, creates or moves value by CALL, and all nested messages are static; in Advanced after any number of steps of any code |
| RunLaws.CutShort | lib/ivmone/baseline.cpp:35-40 | A PUSH cut short by the end of the code is followed by STOP, and the result does not show what it pushed |
| RunLaws.PaddingIndependent | lib/ivmone/baseline.cpp:35-45 | The Baseline result is the same for all values of the uninitialised bytes |
| MemoryLaws.GrowthTelescopes | lib/ivmone/instructions.hpp:41-57 | For every sequence of accesses the gas spent on growth is the price of the final memory less that of the first, and growth appends zeros |
| MemoryLaws.GrowthPathIndependent | lib/ivmone/instructions.hpp:41-88 | Sequences of accesses that end with the same size cost the same |
| MemoryLaws.CapSoundExactly | lib/ivmone/instructions.hpp:22-88 | The 32-bit cap rejects nothing that the uncapped price would allow if and only if gas left plus the price of the memory is below the price of 2^27 words |
| MemoryLaws.CapNeverNoticed | lib/ivmone/instructions.hpp:22-88 | A message with less gas than that never notices the cap: not at any state that Baseline or Advanced reaches or passes through inside an instruction, nor, where JUMPDEST positions are below 2^32, with the pre-charge given back |
| MemoryExpansion.GrowthInRange | lib/ivmone/instructions.hpp:46-50 | No cost computed in a growth to a size that the cap allows reaches 2^48, so 64-bit arithmetic is exact |
| MemoryLaws.CopyPaddedMeaning | lib/ivmone/instructions.hpp:359-422 | CALLDATACOPY and CODECOPY write exactly the zero-extended slice of their source and nothing else |
| MemoryLaws.StoreThenLoad | lib/ivmone/instructions.hpp:592-613 | MLOAD behind MSTORE at the same index finds the stored word, at no further cost |
| CallLaws.CallSplitAccounting | lib/ivmone/instructions_calls.cpp:65-97 | The host is called if and only if the depth is below 1024 and the balance covers the value; then the caller ends with what it kept plus what the callee returned, and else with everything and the stipend; a 64th is kept from Tangerine Whistle on, and nothing leaves the 64-bit range |
| CallLaws.CallHostAccounting | lib/ivmone/instructions_calls.cpp:88-97 | The gas used, the output and the success flag are those of the host's answer |
| CallLaws.CallKeepsShare | lib/ivmone/instructions_calls.cpp:69-70 | Over a whole call the caller keeps at least a 64th of the gas held at the split (EIP-150) |
| CallLaws.CreateSplitAccounting | lib/ivmone/instructions_calls.cpp:131-161 | The host is called if and only if the depth is below 1024 and the balance covers the endowment; then it gets all gas, or all but a 64th, and the caller gets back exactly what was not used |
| WordLaws.SarIsFloorDivision | lib/ivmone/instructions.hpp:266-276 | SAR is the floor of the signed value divided by 2^y for every shift count (EIP-145) |
| WordLaws.SignExtendIsTwosComplement | lib/ivmone/instructions.hpp:171-184 | SIGNEXTEND reads the low bytes as a two's-complement number, or leaves the word as it is |
| WordLaws.ByteIsDigit | lib/ivmone/instructions.hpp:241-254 | BYTE, computed from 64-bit limbs, is the base-256 digit counted from the top, and zero past the end |
| TraitsMeaning.GasTable | lib/ivmone/instruction_traits.hpp:35-162 | The base cost of every opcode number in every revision is its Frontier price, or the last of the changes that the revisions make to it |
| TraitsMeaning.StackTable | lib/ivmone/instruction_traits.hpp:187-346 | The items needed and the change of height, by opcode number |
| MemoryExpansion.PriceExact | lib/ivmone/instructions.hpp:48-49 | The price of w words is 3w plus the rounded-down quotient of the square of w by 512 |
| MemoryMeaning.CheckMemoryMeaning | lib/ivmone/instructions.hpp:60-88 | A range can be used if and only if its offset and size are below 2^32, unless it is empty, and the gas covers its growth, given in numbers from word counts; then exactly that is spent and the memory is extended with zeros |
| MemoryMeaning.MloadMeaning | lib/ivmone/instructions.hpp:592-601 | MLOAD pushes the word whose digits are the 32 bytes at the index, zero-extended, the first as the highest, for the price of the growth |
| MemoryMeaning.MstoreMeaning | lib/ivmone/instructions.hpp:603-613 | MSTORE writes the 32 digits of the second item from the index on, the highest first, and no other byte |
| MemoryMeaning.Mstore8Meaning | lib/ivmone/instructions.hpp:615-625 | MSTORE8 writes the lowest digit of the second item at the index and no other byte |
| MemoryMeaning.KeccakMeaning | lib/ivmone/instructions.hpp:279-298 | KECCAK256 pushes the hash of the zero-extended range, for the growth and 6 per word |
| MemoryMeaning.ExpMeaning | lib/ivmone/instructions.hpp:155-169 | EXP pushes the power modulo 2^256; an exponent of n bytes costs 10n, from Spurious Dragon on 50n |
| MemoryMeaning.CopyMeaning | lib/ivmone/instructions.hpp:359-422 | CALLDATACOPY and CODECOPY succeed exactly if the range and the gas allow it, copy the zero-extended slice of their own source, and cost the growth and 3 per word |
| MemoryMeaning.ReturnDataCopyMeaning | lib/ivmone/instructions.hpp:488-515 | RETURNDATACOPY succeeds only where the return data hold the range, and copies it |
| MemoryMeaning.ExtCodeCopyMeaning | lib/ivmone/instructions.hpp:449-481 | EXTCODECOPY copies the zero-extended answer of the host, asks nothing for an empty range, and costs 2500 more for a cold account |
| MemoryMeaning.AddressWidth | lib/ivmone/instructions_calls.cpp:13 | An address is made of the low 20 bytes of a word |
| HostMeaning.AccountReadMeaning | lib/ivmone/instructions.hpp:305-318 | BALANCE, EXTCODESIZE and EXTCODEHASH push the answer of the host about the low 160 bits of the operand, behind the access request from Berlin on, with 2500 for a cold account |
| HostMeaning.SloadMeaning | lib/ivmone/instructions.hpp:627-646 | SLOAD pushes the slot of the executing account; a cold slot costs 2000 more |
| HostMeaning.BlockHashMeaning | lib/ivmone/instructions.hpp:533-543 | BLOCKHASH asks about exactly the last 256 blocks and else pushes zero; SELFBALANCE asks for the own balance |
| HostMeaning.SstoreMeaning | lib/ivmone/instructions.hpp:648-693 | SSTORE sets the slot named by the top to the value below it, announced before from Berlin on; it succeeds exactly outside static mode, with more than 2300 gas from Istanbul on, and if the gas covers the price of the revision and the storage status, given in numbers |
| HostMeaning.LogMeaning | lib/ivmone/instructions.hpp:774-802 | LOGn emits the zero-extended range with the n items below its bounds as topics, from the top down, for the growth and 8 per byte, exactly outside static mode |
| HostMeaning.SelfDestructMeaning | lib/ivmone/instructions.hpp:831-860 | SELFDESTRUCT names the account and the beneficiary to the host after the questions of its revision; it costs 2600 for a cold beneficiary and 25000 for one to create, and fails exactly in static mode or without that gas |
| CallMeaning.CallMeaning | lib/ivmone/instructions_calls.cpp:9-98 | The four calls fail exactly for a forbidden range, a value sent by CALL in static mode, or missing gas, given in numbers; they reach the host if and only if the depth is below 1024 and the balance covers the value. Every field of the message is stated by opcode and operand position, and so are gas, stack, memory, return data and requests afterwards |
| CallMeaning.CreateMeaning | lib/ivmone/instructions_calls.cpp:106-162 | Creations fail exactly in static mode, for a forbidden range or missing gas; they reach the host if and only if the depth is below 1024 and the balance covers the endowment. Every field of the message is stated, and the whole state afterwards |
| StackMeaning.ModularMeaning | lib/ivmone/instructions.hpp:95-109 | ADD, SUB and MUL are right modulo 2^256; SUB takes the second item from the top |
| StackMeaning.DivisionMeaning | lib/ivmone/instructions.hpp:111-130 | DIV and MOD give quotient and remainder of the top by the second item, zero for a zero divisor |
| StackMeaning.SignedDivisionMeaning | lib/ivmone/instructions.hpp:118-137 | SDIV rounds toward zero, SMOD has the sign of the dividend, and together they make up the dividend, but for the least number by -1 |
| StackMeaning.TernaryMeaning | lib/ivmone/instructions.hpp:139-153 | ADDMOD and MULMOD are congruent to the full sum and product modulo the third item |
| StackMeaning.ComparisonMeaning | lib/ivmone/instructions.hpp:186-214 | LT, GT, SLT, SGT and EQ compare the top with the second item |
| StackMeaning.BitwiseMeaning | lib/ivmone/instructions.hpp:221-239 | Each bit of AND, OR and XOR follows from the two bits at its place, and NOT is the complement |
| StackMeaning.UnaryMeaning | lib/ivmone/instructions.hpp:335-352 | CALLDATALOAD pushes the word whose digits are 32 bytes of the zero-extended input; ISZERO tells zero |
| StackMeaning.ShiftMeaning | lib/ivmone/instructions.hpp:256-264 | SHL and SHR multiply and divide the second item by 2 to the top, and leave nothing from 256 on |
| StackMeaning.SarMeaning | lib/ivmone/instructions.hpp:266-276 | SAR divides the signed second item by 2 to the top, rounding down |
| StackMeaning.SignExtendMeaning | lib/ivmone/instructions.hpp:171-184 | SIGNEXTEND extends the second item from the byte that the top names |
| StackMeaning.ByteMeaning | lib/ivmone/instructions.hpp:241-254 | BYTE selects the digit of the second item that the top names, counted from the highest |
| StackMeaning.DupMeaning | lib/ivmone/instructions.hpp:755-762 | DUPn pushes the n-th item from the top, POP drops the top, and nothing else changes |
| StackMeaning.SwapMeaning | lib/ivmone/instructions.hpp:764-771 | SWAPn exchanges the top with the item n below it, and every other item stays in its place |
| StackMeaning.ContextMeaning | lib/ivmone/instructions.hpp:300-357 | Each context instruction, by opcode number, pushes its own value of the message, the transaction or the state |
| StepMeaning.CheckMeaning | lib/ivmone/baseline.cpp:50-71 | The check admits an instruction exactly if the published tables say that it is defined, affordable and keeps the stack within 0 to 1024, and then charges its price |
| StepMeaning.RefusedMeaning | lib/ivmone/baseline.cpp:162-164 | An instruction that is not admitted ends the run with a failure and asks nothing |
| StepMeaning.PushMeaning | lib/ivmone/instructions.hpp:745-753 | PUSHn pushes the number that the n bytes behind it spell, for 3 gas, and goes on behind them |
| StepMeaning.JumpMeaning | lib/ivmone/instructions.hpp:696-726 | JUMP lands at the top exactly if that is a valid destination, JUMPI does so exactly if the second item is not zero, and PC pushes the position |
| StepMeaning.GasMeaning | lib/ivmone/instructions.hpp:733-736 | GAS pushes the gas left behind its own price, for every gas that 64 bits hold without sign |
| StepMeaning.OrdinaryStepMeaning | lib/ivmone/baseline.cpp:99-138 | Every other instruction runs on the state that has paid its price and goes on behind its opcode, or fails the run |
| ResultMeaning.InitialMeaning | lib/ivmone/execution_state.hpp:174-182 | Both machines start with the gas of the message, an empty stack and an empty memory |
| ResultMeaning.ReturnMeaning | lib/ivmone/baseline.cpp:332-337 | A message that arrives at STOP, RETURN or REVERT ends with the gas of that state less the growth of its memory, none of the three having a base cost, and with the zero-extended bytes that the operands name; it reverts exactly at REVERT, and fails if a check does not pass |
| ResultMeaning.SelfDestructResult | lib/ivmone/instructions.hpp:831-860 | The same for SELFDESTRUCT, with its base cost and its charges in numbers |
| ResultMeaning.EveryResult | lib/ivmone/baseline.cpp:154-330 | Every message arrives at a last instruction; unless it fails, that is one of these four |
| ResultMeaning.AdvancedResultMeaning | lib/ivmone/execution.cpp:19-23 | Where Advanced refines Baseline, a message that succeeds or reverts has the same status, gas left, output and requests in Advanced, and else fails |
| ResultMeaning.AdvancedReturnMeaning | lib/ivmone/execution.cpp:19-23 | So the result of Advanced is determined in the same way by the state in which Baseline arrives at STOP, RETURN or REVERT |
| Storage.Stack.At | lib/ivmone/execution_state.hpp:48-57 | The item at a position from the top |
| Storage.Stack.Put | lib/ivmone/execution_state.hpp:48-51 | Replaces one item and no other |
| Storage.Stack.Push | lib/ivmone/execution_state.hpp:59-60 | Appends the item and keeps the others |
| Storage.Stack.Pop | lib/ivmone/execution_state.hpp:62-63 | Returns the top item and keeps the others |
| Storage.Stack.Clear | lib/ivmone/execution_state.hpp:65-67 | Leaves no items, whatever the storage still holds |
| Storage.GrownCapacity | lib/ivmone/execution_state.hpp:125-136 | The new capacity holds the new size and is a whole number of pages |
| Storage.Memory.Reallocate | lib/ivmone/execution_state.hpp:90-95 | A larger allocation holds the same contents |
| Storage.Memory.Grow | lib/ivmone/execution_state.hpp:115-139 | Growing appends zeros, whatever bytes a used allocation holds, with the documented capacity and in whole pages |
| Storage.Memory.Clear | lib/ivmone/execution_state.hpp:141-142 | Clearing empties the contents and keeps the allocation |
| ExecutionState.Execution.constructor | lib/ivmone/execution_state.hpp:174-182 | A new state is worth the initial state of the message |
| ExecutionState.Execution.Reset | lib/ivmone/execution_state.hpp:184-200 | A reset state is worth exactly as much as a new one, over stale stack items, memory bytes and capacity |
| ExecutionState.Execution.GrowMemory | lib/ivmone/instructions.hpp:41-57 | In place, growth has its meaning on values, and succeeds for exactly the price in numbers |
| ExecutionState.Execution.CheckMemory | lib/ivmone/instructions.hpp:76-88 | In place, the check of an operand-sized range has its meaning on values |
| ExecutionState.Execution.CallDataWord | lib/ivmone/instructions.hpp:335-352 | The copy loop yields the zero-extended 32 bytes of the input, read big-endian |
| ExecutionState.Execution.Mload | lib/ivmone/instructions.hpp:592-601 | The in-place MLOAD reaches the meaning on values, status included |
| ExecutionState.Execution.Mstore | lib/ivmone/instructions.hpp:603-613 | The in-place MSTORE reaches the meaning on values, status included |
| ExecutionState.Execution.Mstore8 | lib/ivmone/instructions.hpp:615-625 | The in-place MSTORE8 reaches the meaning on values, status included |
| ExecutionState.Execution.Keccak256 | lib/ivmone/instructions.hpp:279-298 | The in-place KECCAK256 reaches the meaning on values, status included |
| ExecutionState.Execution.Exp | lib/ivmone/instructions.hpp:155-169 | The in-place EXP charges per significant byte of the exponent and pushes the power modulo 2^256 |
| ExecutionState.Execution.CopyPadded | lib/ivmone/instructions.hpp:359-422 | The in-place CALLDATACOPY and CODECOPY reach the meaning on values, status included |
| ExecutionState.Execution.ReturnDataCopy | lib/ivmone/instructions.hpp:488-515 | The in-place RETURNDATACOPY refuses a range past the return data and otherwise copies it |
| ExecutionState.Execution.ExtCodeCopy | lib/ivmone/instructions.hpp:449-481 | The in-place EXTCODECOPY asks for at most the size, and clears what the host did not supply |
| ExecutionState.Execution.AccountRead | lib/ivmone/instructions.hpp:305-318 | BALANCE, EXTCODESIZE and EXTCODEHASH in place: the access charge before the question |
| ExecutionState.Execution.Sload | lib/ivmone/instructions.hpp:627-646 | SLOAD in place, with the cold access charge from Berlin on |
| ExecutionState.Execution.BlockHash | lib/ivmone/instructions.hpp:533-543 | BLOCKHASH in place asks only for the 256 blocks before the current one |
| ExecutionState.Execution.StackOnly | lib/ivmone/instructions.hpp:757-771 | POP, DUP and SWAP in place move exactly the items the instruction names |
| ExecutionState.Execution.LogEvent | lib/ivmone/instructions.hpp:774-802 | LOG in place sends the topics in the order of the stack, with the data of the paid range |
| ExecutionState.Execution.PopTopics | lib/ivmone/instructions.hpp:795-797 | The loop pops the topics from the top down |
| ExecutionState.Execution.Sstore | lib/ivmone/instructions.hpp:648-693 | SSTORE in place reaches the meaning on values, whose slot, value and price `HostMeaning.SstoreMeaning` gives, with the requests in the same order |
| ExecutionState.Execution.PopCallArgs | lib/ivmone/instructions_calls.cpp:12-21 | The operands of the four calls, popped in source order |
| ExecutionState.Execution.CallCharges | lib/ivmone/instructions_calls.cpp:23-63 | Access, memory, value and account charges in place, with the failure of each; a call that moves value pays at least 9000 |
| ExecutionState.Execution.OfferGas | lib/ivmone/instructions_calls.cpp:65-72 | The gas offered to the callee, computed in place |
| ExecutionState.Execution.CallSplit | lib/ivmone/instructions_calls.cpp:65-98 | The split of the gas in place, the refusals by depth and balance, and the call; the stipend never takes the counter beyond 64 bits |
| ExecutionState.Execution.Call | lib/ivmone/instructions_calls.cpp:9-98 | The whole call in place reaches the meaning on values, whose condition, message and price `CallMeaning.CallMeaning` gives, status included |
| ExecutionState.Execution.CreateCharges | lib/ivmone/instructions_calls.cpp:112-129 | The operands and the memory and salt charges of a creation in place |
| ExecutionState.Execution.Create | lib/ivmone/instructions_calls.cpp:106-162 | The whole creation in place reaches the meaning on values, whose condition, message and price `CallMeaning.CreateMeaning` gives, status included |
| ExecutionState.Execution.Return | lib/ivmone/instructions.hpp:812-824 | The output window lies in the memory and holds the requested bytes; on failure it stays empty |
| ExecutionState.Execution.SelfDestruct | lib/ivmone/instructions.hpp:831-860 | SELFDESTRUCT in place, with the charges of each revision before the request |
| Interpreters.CheckRequirements | lib/ivmone/baseline.cpp:50-71 | The check in place, read from the table of the revision |
| Interpreters.Invoke | lib/ivmone/baseline.cpp:99-138 | Executing one instruction in place does one step of the Baseline machine |
| Interpreters.ExecuteBaseline | lib/ivmone/baseline.cpp:140-343 | The loop ends and computes the Baseline result of the state it is given, with the gas counter within 64 bits |
| Interpreters.BeginBlock | lib/ivmone/instructions.cpp:167-182 | BEGINBLOCK in place |
| Interpreters.Jump | lib/ivmone/instructions.cpp:51-60 | JUMP in place goes to the entry that the search finds, or fails |
| Interpreters.ExecuteJump | lib/ivmone/instructions.cpp:51-77 | JUMP and JUMPI of the table in place |
| Interpreters.ExecutePush | lib/ivmone/instructions.cpp:79-103 | PUSH, PC and GAS of the table in place, with the gas of the whole block given back for GAS |
| Interpreters.Corrected | lib/ivmone/instructions.cpp:36-49 | The pre-charge is undone and redone around SSTORE, calls and creations, within 64 bits |
| Interpreters.ExecuteAdvanced | lib/ivmone/execution.cpp:11-24 | Where block costs fit the message gas and JUMPDEST positions are below 2^32, the loop ends and computes the Advanced result, with every table and stack access in bounds and the gas counter within 64 bits |
| Interpreters.MakeOutput | lib/ivmone/baseline.cpp:332-337 | The result has the status, the requests and exactly the bytes of the output window, and the gas left for success and revert alike, none otherwise; `ResultMeaning.ReturnMeaning` says what that gas is |
| Interpreters.RunBaseline | lib/ivmone/baseline.cpp:354-361 | Analysis and loop give the Baseline result for every possible padding |
| Interpreters.RunAdvanced | lib/ivmone/execution.cpp:26-32 | For the same code, analysis, reset and loop over any used state give the Advanced result of a new one |
| Interpreters.CrossCheck | test/fuzzer/fuzzer.cpp:333-387 | For the same code, running a message in both interpreters gives equal observations, whatever the reused state holds, but for a bad jump destination in code that is not indexable |

## Left out

- Refinement.AdvancedRefinesBaseline: is stated under two sufficient conditions, on the cost of blocks (`CodeStructure.CostsFit`) and on jump positions (`TableStructure.Indexable`). `Limits.CostLimitIsReal` and `JumpLimits.IndexLimitIsReal` show that it fails without either. Beyond the cost limit it does not say for each run whether the interpreters agree: that depends on whether the run enters such a block, and how it goes on there with the gas that was not charged.
- Interpreters.RunAdvanced: like ExecuteAdvanced and CrossCheck asks that block costs fit the message gas, since beyond that the gas counter may be negative while an instruction is run, up to the CREATE of `Limits.UnfundedCreateIsReal`. Safety and termination beyond it are proved on state values.
- Advanced.Execute: the result of an Advanced run is defined where every JUMPDEST has a position below 2^32. Beyond that the run need not end (`JumpLimits.WrapLimitIsReal`), and what holds of all code is stated of its first n steps. The search in jump tables that are not sorted, which code of more than 2^31 bytes can have, is modelled as the halving that finds or misses an entry there; C++ leaves it open.
- The failure code a failing run reports, and what it asked the host before it failed: the interpreters differ there by design (docs/efficient_gas_calculation_algorithm.md:137-144), so `Observe` keeps only that both failed.
- Analysis.Analyze: sums up the stack numbers of a block in unbounded integers; the 32-bit fields of the code overflow in blocks of some codes of more than 357913939 bytes (`Limits.SummariesInRange`, `Limits.SummaryLimitIsReal`), where the behaviour of C++ is undefined. The clamps and the conversions to 32 bits in the jump tables are modelled for all code.
- Interpreters.RunBaseline: like RunAdvanced and CrossCheck takes a message gas of at least -2^63 + 2^32 - 1, so that the first charge to a negative gas does not leave 64 bits. Gas is unbounded on state values; the gas counter of the mutable state is a 64-bit integer.
- The library code for 256-bit arithmetic and for Keccak: words are naturals modulo 2^256 and the hash is an arbitrary function.
- What the host does with a request (balances, storage status, access lists): any deterministic host with bounded gas and bounded copies.
- Negative block numbers and timestamps.
- Instruction arguments as a union, push constants by pointer, and unused union members: an argument is a datatype and a constant is an index.
- Allocation failure and byte order of the platform.
- The base cost of the current block as a field of the state: it is a variable of the Advanced loop, since no shared instruction reads it.
- `std::lower_bound` itself: it is modelled as halving.
- The jump bitmap and the padded buffer are built as arrays, then passed to the loop as sequences, since the loop never writes them.
- Tracing, the VM object with its options, and the choice between interpreters.
