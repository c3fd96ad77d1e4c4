# The ARMv5 emulator: a verified model of its instruction semantics

The repository emulates the ARMv5 instruction set of the ARM Architecture Reference Manual, called the manual below. This project models everything one step of the
emulator does: the memory area, the registers, the fetch, the dispatch, data processing with flags,
single, halfword and multiple transfers, branches, the software interrupt that ends a simulation, and
the reset after a failed fetch.

Each source file has a module. Its operations appear twice: as *functions* on `State`, the value of the
whole processor and memory at one moment, which say what an instruction means; and as *methods* on the
mutable objects `Memory`, `Registers` and `ArmCore`, which work as the C code does (read-modify-write of
single CPSR bits, bit tests on signs, loops over the register list, writes of single bytes in the byte
order of the host) and are proved to have exactly the effect of the functions. The laws are then proved
about the functions, so they hold of the methods.

| file | content |
|---|---|
| Bits.dfy, Shifts.dfy | words, wrap-around, single bits, bitwise operators, shifts (util.h, util.c) |
| Memory.dfy | the memory area (memory.c) |
| Core.dfy | registers, CPSR, fetch, conditions (registers.c, arm_core.c, util.c) |
| DataProcessing.dfy, FlagLaws.dfy | data processing, and what its flags mean |
| ShifterOperand.dfy, Mirror.dfy | its second operand and the shifter's carry, against the manual |
| LoadStore.dfy, TransferLaws.dfy | transfers, and the laws of single ones |
| BlockTransfer.dfy, Refinement.dfy, Encodings.dfy, Stack.dfy | the laws of multiple transfers |
| Instruction.dfy, RunInvariants.dfy | branches, dispatch, step, and what every run keeps |
| Addition.dfy | multi-word addition with ADCS, down to the program in memory |
| Manual.dfy | what the manual means by each instruction, independent of the code |
| DataAgreement.dfy, TransferAgreement.dfy, Agreement.dfy | exactly when an instruction, and a step, does what the manual means |
| Departures.dfy | exactly when the operations that depart from the manual still agree with it |
| Countdown.dfy | total correctness of Examples/example1.s |

## Main results

- **Agreement.** For every covered instruction in every state, from data processing to branches: the state
  after it is the one that the manual means if and only if `Right`, a test on the instruction, the registers
  and the memory (`InstructionAgrees`, `SkippedAgrees`). `StepExecutes`, `StepResets` and `FirstStep` say
  which word a step hands to it.
- **Multiple transfers.** In all four modes, for every list and base: which word each register goes to,
  what stays, and the status (`StoreMultiple`, `LoadMultipleEffect`, `BlockEnds`). A store followed by
  the matching load restores the base always, and the listed registers if and only if each register
  whose word is refused by the memory equals the one before it in the list, or 0 if it is the first
  (`BlockTransfer.StoreThenLoad`).
- **Refinement.** In all four modes a multiple store equals the sequence of single stores with the same
  indexing, as states, and a multiple load the single loads if and only if no accepted word other than 0
  is followed in the block by a refused one: a refused read keeps the previous word in LDM and gives 0 in
  LDR. The words of every such program are spelled out (`EveryListRefined`).
- **Stack.** Every run of pushes and pops, with anything in between that keeps the stack, refines an
  abstract stack; well-nested frames restore their registers to any depth.
- **Flags.** Exact meaning of CMN; for each of the flags that ADCS, SBCS, ADDS, RSBS, CMP and SUBS leave,
  and for every condition that follows a CMP, the exact operands on which it is right.
- **Operands.** The second operand of data processing is the one the manual defines if and only if
  OperandRight, a test on the instruction, the register and C. The hard case is LSR, which the code takes
  for LSL: right exactly for the words that in base 4^n repeat one digit which fits both ends.
- **Addition.** A chain of ADCS of any length is the exact sum if and only if no word of the second
  operand is 0xFFFFFFFF where the exact addition carries into it; the same for the unrolled program
  that adds two numbers in memory, whose words are spelled out (`AdditionApplies`).
- **Runs.** From creation on, every state is in user mode with the control bits of the reset CPSR;
  every instruction keeps the rest of the configuration. From any state, a run of instruction words
  changes T only if one of them loads r15, and memory only if one of them stores.
- **Example1.s.** From any r0 >= 1 and any load address, the loop ends after exactly 4 * r0 + 1 steps
  with r0 = 0.

## Where the code differs from the ARM manual

The model follows the code. The differences that a lemma characterises exactly:

- the V flag of CMP and SUBS, and their C flag for a zero operand: `Compare`, `UnsignedOrder`, `SignedOrder`;
- the C and V flags of ADCS when the carry meets 0xFFFFFFFF or 0x7FFFFFFF: `AddWithCarry`;
- the V flag of SBCS with C clear, all four flags of SBCS with C set: `SubtractWithBorrow`, `SubtractWithCarry`;
- all four flags of ADDS: `AddFlags`;
- RSB, which computes Rn minus the operand although its comment says the opposite
  (arm_data_processing.c:236), and its N, C and V flags: `ReverseSubtract`;
- RSC, which is called with the number of rd in place of val_1 and the other way round, and its flags:
  `ReverseSubtractWithCarry`, `ReverseCarryFlags`;
- the C flag of the logical operations and moves, which ignores the carry of the shifter: `LogicalCarry`;
- the operand of data processing: the shift type is masked with 2, so that LSR is taken for LSL and ROR for
  ASR, a count of 0 never stands for 32 or RRX, and immediates are rotated over eight bits:
  `OperandDecoded`, `ImmediateRotation`;
- scaled offsets other than LSL and ROR: `ScaledOffsets`;
- the register offset of halfword transfers, cut to eight bits, and the base of post-indexed ones, also when
  the condition fails: `HalfPreIndexed`, `HalfPostIndexed`, `ConditionFails`;
- LDRB and LDRH on a big-endian host: `StoreByteThenLoad`, `StoreHalfThenLoad`;
- comparisons without S, which are other instructions in the manual and set the flags here: `DataExecuted`;
- lists with r15, which the code does not count and STM does not store, and a base in the list of an STM
  with write-back, which is stored after it has moved: `UncountedPc`, `PcNotStored`, `ListedBaseStored`;
- LDM of r15, and the status of the closing check of LDM: `LoadedPc`, `LoadMultipleEffect`;
- forward branches: `BranchTargets`.

## Model

| member | source | states |
|---|---|---|
| Bits.FieldIs | arm_data_processing.c:302-322 | a field is a shift right and a mask: a quotient and a remainder by powers of two |
| Bits.PutBitIsSum | arm_data_processing.c:30-48 | or-ing 1<<i, and-ing its complement: the weight of one bit is added or removed |
| Bits.PutGet | arm_data_processing.c:30-48 | writing a bit of a word changes that bit and no other |
| Bits.BitwiseGet | arm_data_processing.c:50-102 | &, \| and ^ act on each bit separately |
| Bits.NotGet | arm_data_processing.c:97-116 | ~ flips every bit of a word |
| Shifts.ArithmeticShift | arm_data_processing.c:332-334 | asr by 1 to 31 is the signed value divided by 2^n, rounded down |
| Shifts.RotateRight | arm_load_store.c:72-77 | ror by 1 to 31 brings the low n bits back at the top |
| DataProcessing.UpdateZN | arm_data_processing.c:30-48 | Z and N describe the result, nothing else changes |
| DataProcessing.Cmp | arm_data_processing.c:176-202 | Z and N of the difference; V by the addition rule; C set iff no borrow and val2 is not 0, where c differs from that |
| DataProcessing.Cmn | arm_data_processing.c:204-232 | the sign tests are signed overflow of the sum, the unsigned comparison is its carry |
| DataProcessing.Tst | arm_data_processing.c:164-174 | Z and N of the conjunction, C cleared, V kept |
| DataProcessing.Teq | arm_data_processing.c:147-161 | Z and N of the exclusive or, C cleared, V kept |
| DataProcessing.ArmAdd | arm_data_processing.c:86-93 | the sum, with the flags of a comparison |
| DataProcessing.ArmAdc | arm_data_processing.c:134-145 | the three-operand sum, with the flags of val1 and val2 + C |
| DataProcessing.ArmSbc | arm_data_processing.c:124-132 | the difference less the borrow, with the flags of a comparison with val2 + 1 + C |
| DataProcessing.ArmRsb | arm_data_processing.c:234-265 | rd gets val_1 - val_2; C and V come from the operands in the other order |
| DataProcessing.ArmRsc | arm_data_processing.c:267-292 | rd gets val_2 - val_1 less the borrow; V is always cleared |
| DataProcessing.DecodeOperand | arm_data_processing.c:301-341 | the operands, with LSL and ASR only; rejects bits 25, 7, 4 = 0, 1, 1 |
| DataProcessing.ExecuteOperation | arm_data_processing.c:354-408 | each of the sixteen opcodes has the effect of Execute, in particular the order of flag and register writes does not matter |
| DataProcessing.DataProcessingShift | arm_data_processing.c:345-411 | the whole handler has the effect and status of DataStep |
| DataAgreement.OperandsDecoded | arm_data_processing.c:294-341 | the first operand is Rn; the second is the immediate rotated over eight bits, or Rm shifted by LSL or ASR |
| DataAgreement.DataExecuted | arm_data_processing.c:345-411 | all sixteen operations with and without S, whole states: the state is the one meant for these operands iff DataRight |
| DataAgreement.DataAgrees | arm_data_processing.c:294-411 | the same with the operand of the manual, where OperandRight |
| DataAgreement.PlainOperation | arm_data_processing.c:345-411 | without S, RSB and RSC apart, only rd changes, and it gets the result |
| DataAgreement.PlainKeepsFlags | arm_data_processing.c:50-145 | without S only a comparison changes CPSR |
| DataAgreement.RejectedWords | arm_data_processing.c:320-324 | a word with bits 7..4 = 1001, 1101 or 1111, as a multiplication, changes nothing |
| FlagLaws.CompareNegative | arm_data_processing.c:204-232 | after CMN: C is the carry of the 33-bit sum, V signed overflow, N = V iff the signed sum over the integers is >= 0 |
| FlagLaws.Conditions | arm_data_processing.c:204-232 | after CMN each of the sixteen conditions decides what it should about the unsigned and the signed sum over the integers |
| FlagLaws.AddWithCarry | arm_data_processing.c:134-145 | after ADCS: Z and N of the three-operand sum; C right iff not (C in and val2 = 0xFFFFFFFF); V right iff not (C in and val2 = 0x7FFFFFFF) |
| FlagLaws.AddWithCarryFails | arm_data_processing.c:134-145 | with a carry in, 1 + 0xFFFFFFFF clears C and 0 + 0x7FFFFFFF clears V |
| FlagLaws.Compare | arm_data_processing.c:68-75 | after CMP or SUBS: Z iff equal, C iff val1 >= val2 and val2 is not 0, V right iff the difference has the sign of val1 |
| FlagLaws.UnsignedOrder | arm_data_processing.c:176-199 | after CMP: HS and LO decide the unsigned order iff val2 is not 0, HI and LS iff val2 is not 0 or val1 is 0; EQ and NE always |
| FlagLaws.UnsignedOrderFails | arm_data_processing.c:193-199 | CMP with 0 fails HS for every operand, and HI for 1 |
| FlagLaws.SignedOrder | arm_data_processing.c:176-191 | after CMP: GE and LT decide the signed order iff SignedCompareWorks, a test on the operands; GT and LE iff that holds or the operands are equal |
| FlagLaws.SignedOrderFails | arm_data_processing.c:186-191 | CMP of 1 with 2 passes GE |
| FlagLaws.FlagsDescribeDestination | arm_data_processing.c:345-411 | for the S forms of AND, EOR, SUB, RSB, ADC, ORR, MOV, BIC, MVN and SBC with C clear, Z and N describe the value left in rd; no other register changes |
| FlagLaws.SubtractWithBorrow | arm_data_processing.c:124-132 | SBCS with C clear: Z, N and C of the three-operand difference; V right iff BorrowVRight, a test on the operands |
| FlagLaws.SubtractWithBorrowFails | arm_data_processing.c:124-132 | SBCS of 1 from 1 with C clear sets V |
| FlagLaws.SubtractWithCarry | arm_data_processing.c:124-132 | SBCS with C set: for each of Z, N, C and V the operands on which it is right for val1 - val2 |
| FlagLaws.SubtractWithCarryFails | arm_data_processing.c:124-132 | SBCS of 1 from 1 with C set gets all four flags wrong |
| FlagLaws.LogicalResults | arm_data_processing.c:50-122 | AND, EOR, ORR, BIC and MVN bit by bit |
| FlagLaws.FlagsKeepOthers | arm_data_processing.c:30-292 | no operation, RSC included, changes a CPSR bit other than N, Z, C, V |
| Shifts.ShiftsAgree | arm_data_processing.c:325-337 | for counts 1 to 31 the shifts of the code are LSL, ASR and ROR of the manual |
| Mirror.MeetIffRepeats | arm_data_processing.c:305-331 | a shift right by n of a number of w bits is its shift left by n iff in base 4^n it repeats one digit that fits |
| ShifterOperand.RightTakenForLeft | arm_data_processing.c:305-327 | LSR by 1 to 31, taken for LSL, is right iff the register repeats such a digit |
| ShifterOperand.OperandDecoded | arm_data_processing.c:294-341 | for every instruction whose shift counts C defines: the operand decoded is the manual's iff OperandRight |
| ShifterOperand.OperandDecodedFails | arm_data_processing.c:305-327 | 2 with LSR 1 is 4, not 1 |
| ShifterOperand.LogicalCarry | arm_data_processing.c:50-174 | after the S forms of AND, EOR, TST, TEQ and BIC, C is the manual's shifter carry out iff that is 0; after ORR, MOV and MVN iff it is the C found; V kept |
| ShifterOperand.UnshiftedCarry | arm_data_processing.c:294-300 | the carry out of an unshifted operand is C |
| ShifterOperand.LogicalCarryFails | arm_data_processing.c:164-174 | TST of an unrotated immediate clears a C that should stay set |
| LoadStore.ArmLoadStore | arm_load_store.c:29-127 | the handler has the effect of SingleStep: its repeated tests of the condition agree despite the write-backs between them |
| TransferAgreement.IndexDecoded | arm_load_store.c:42-80 | the offset: twelve bits, LSL, or a rotation for every other type, and 0 or 1 for a count of 0 |
| TransferAgreement.SingleExecuted | arm_load_store.c:29-127 | LDR, LDRB, STR, STRB with every addressing, whole states: the state meant for that offset iff a byte loaded is not swapped by the host |
| TransferAgreement.SingleAgrees | arm_load_store.c:29-127 | the same with the offset of the manual, where the code has it |
| TransferAgreement.OffsetAddressing | arm_load_store.c:84-125 | with P and without W the base stays: LDR and STR for every offset and direction |
| LoadStore.ScaledIndex | arm_load_store.c:42-80 | the switch with its fall-through: LSL, or ROR/RRX for every other shift type |
| LoadStore.CountListed | arm_load_store.c:135-139 | the count loop gives the length of the list |
| LoadStore.LoadLoop | arm_load_store.c:168-175 | the loop loads the listed registers in ascending order and leaves the address past the block |
| LoadStore.StoreLoop | arm_load_store.c:185-191 | the loop stores the listed registers in ascending order and leaves the address past the block |
| LoadStore.ModeBounds | arm_load_store.c:140-164 | start, end and moved base in the four modes, modulo 2^32 |
| LoadStore.BlockForms | arm_load_store.c:140-164 | the four modes as one formula for the first and one for the last address |
| LoadStore.BlockEnds | arm_load_store.c:181-194 | for every base, length and mode the address after n words, less 4, is the end address; 4 more is not |
| LoadStore.ArmLoadStoreMultiple | arm_load_store.c:129-196 | effect and status: 0 for every store that passes, 1 for every load that passes |
| TransferAgreement.MultipleExecuted | arm_load_store.c:129-196 | LDM and STM of every list without r15, every mode, with and without W, whole states: the state meant iff, in a load, QuietEdge |
| LoadStore.ArmLoadStoreHalf | arm_load_store.c:198-238 | effect and status of the halfword handler |
| TransferAgreement.HalfExecuted | arm_load_store.c:198-238 | LDRH and STRH with every addressing, whole states: the state meant for the offset that the code takes iff a halfword loaded is not swapped by the host |
| TransferAgreement.HalfAgrees | arm_load_store.c:198-238 | the same with the offset of the manual: with post-indexing iff, also, PostIndexRight |
| BlockTransfer.ListedExactly | arm_load_store.c:137-170 | the list holds exactly the registers whose bit is set, ascending |
| BlockTransfer.SlotsDisjoint | arm_load_store.c:168-189 | different words of a block do not overlap, also across 2^32 |
| BlockTransfer.StoreMultiple | arm_load_store.c:129-194 | STM, every mode, list and base, with and without W: the k-th register is at the k-th word counted from the fields of the instruction, no other byte changes, a base moves only with W, status 0 |
| BlockTransfer.LoadMultipleEffect | arm_load_store.c:129-182 | LDM likewise: each register gets its word (a refused read repeats the register before), unlisted registers stay but for a base with W, r15 and T as the code has them, status 1 |
| BlockTransfer.SameBlock | arm_load_store.c:140-164 | opposite modes with write-back meet on the same block and move the base back |
| BlockTransfer.StoreThenLoad | arm_load_store.c:129-196 | for the four matching pairs: the base is restored, and the listed registers iff Restorable |
| BlockTransfer.StoreThenLoadFails | arm_load_store.c:129-196 | past the end of memory a listed register that is not 0 is lost |
| Refinement.SinglesMoveBlock | arm_load_store.c:29-127 | the single transfers, ascending for IA and IB and descending for DA and DB, move the block of the multiple one and leave the base where it does |
| Refinement.StoreMultipleRefines | arm_load_store.c:29-196 | STM rn! in each of the four modes = the single stores with the same indexing, whole states; with pre-indexing in the user bank |
| Refinement.LoadMultipleRefines | arm_load_store.c:29-182 | LDM rn! in each of the four modes = the single loads iff no accepted non-zero word of the block is followed by a refused one, whole states |
| Refinement.LoadsDiffer | arm_load_store.c:169-175 | they differ for every LDMIA of two or more registers from the last word of any memory, if that word is not 0 |
| Encodings.MultipleExists | arm_load_store.c:129-139 | for every set of registers below r15 and every mode there is a word listing exactly that set |
| Encodings.SingleExists | arm_load_store.c:30-46 | the single transfers of the refinement exist for all registers, and always pass |
| Encodings.EveryListRefined | arm_load_store.c:29-196 | for every register set, mode and state, with the words spelled out: the multiple store equals the single stores, the multiple load the single loads iff QuietEdge |
| Encodings.AdcsExists | arm_data_processing.c:302-322 | ADCS of any three registers has a word, and it always passes |
| Encodings.LimbCodeExists | arm_instruction.c:37-56 | the four words of one round of the addition program exist for every allocation of separate registers |
| Encodings.AdditionApplies | arm_instruction.c:37-56 | the addition theorem with its words spelled out, for numbers apart or in place in a memory that holds the result |
| Stack.StoresPush | arm_load_store.c:158-191 | storing registers just below a stack pushes their values |
| Stack.PushKeeps | arm_load_store.c:158-191 | STMDB rn! puts the registers on top of the abstract stack |
| Stack.PopDelivers | arm_load_store.c:140-175 | LDMIA rn! delivers the top entries, lowest register first, and leaves the rest |
| Stack.RunRefines | arm_load_store.c:129-196 | every run refines the abstract stack: the word at rn + 4i is the i-th entry |
| Stack.DataIsOther | arm_data_processing.c:345-411 | data processing may stand between pushes and pops if its destination is not rn, or it only compares; RSC apart |
| Stack.LoadIsOther | arm_load_store.c:84-110 | so may a load that neither loads rn nor writes it back |
| Stack.StoreIsOther | arm_load_store.c:111-127 | so may a word store that does not write rn back and whose address is no entry of the stack |
| Stack.FramesRestore | arm_load_store.c:129-196 | well-nested frames give back their registers, the pointer and the stack, to any depth |
| Departures.ReverseSubtract | arm_data_processing.c:234-265 | RSB against the promised val2 - val1: the result and N right iff the operands are equal or 2^31 apart, Z always, C iff val1 is not 0, V iff ReverseVRight, a test on the operands |
| Departures.AddFlags | arm_data_processing.c:86-93 | ADDS: for each of Z, N, C and V the operands on which it is right for the sum |
| Departures.ReverseAndAddFail | arm_data_processing.c:86-93 | RSB of 1 from 0 gives 1; ADDS of 1 and 1 sets Z and C |
| Departures.ReverseSubtractWithCarry | arm_data_processing.c:267-378 | RSC leaves the promised state iff val1 is the number rd, or nothing changes and nothing was to change |
| Departures.ReverseSubtractWithCarryFails | arm_data_processing.c:378-378 | RSC of 16 from 100 writes no register |
| Departures.ReverseCarryFlags | arm_data_processing.c:267-292 | RSCS: for each of Z, N, C and V the operands on which it is right |
| Departures.ImmediateRotation | arm_data_processing.c:294-300 | a rotated immediate (field 1 to 4) is the manual's iff its eight bits are 0 |
| Departures.ImmediateRotationFails | arm_data_processing.c:294-300 | 1 rotated by 2 is 64, not 0x40000000 |
| Departures.ScaledOffsets | arm_load_store.c:47-80 | the scaled register offset is the manual's iff IndexRight, a test on the register, the shift and C |
| Departures.ScaledOffsetsFail | arm_load_store.c:47-80 | 3 with LSR 1 is 0x80000001, not 1 |
| Departures.HalfPreIndexed | arm_load_store.c:208-217 | the address of a halfword transfer without post-indexing is the one meant iff the offset is below 256 |
| Departures.HalfPreIndexedFails | arm_load_store.c:208-217 | a register offset of 256 counts as 0 |
| Departures.HalfPostIndexed | arm_load_store.c:208-223 | the base is the one meant iff, without W, the low four bits are the offset up, or with the offset down add up to 0 or 2^32, and with W iff the offset is 0; it stays unless it is loaded |
| Departures.HalfPostIndexedFails | arm_load_store.c:215-220 | LDRH rd,[rn],#16 leaves rn where it was |
| Departures.UncountedPc | arm_load_store.c:135-164 | a list with r15: the block begins where it should iff the base moves up; a base written back is wrong |
| Departures.PcNotStored | arm_load_store.c:183-191 | STM leaves the word where r15 belongs as it was |
| Departures.ListedBaseStored | arm_load_store.c:140-191 | STM with write-back stores a listed base after moving it, never as it was |
| Departures.LoadedPc | arm_load_store.c:176-180 | LDM of r15 gives the word without its low bit iff the word is 0 |
| Departures.LoadedPcFails | arm_load_store.c:176-180 | LDM of r15 from a word 0x8000 jumps to 1 |
| TransferLaws.StoreThenLoad | arm_load_store.c:84-125 | STR pre-indexed, LDR post-indexed the other way: rn restored for every offset; the word delivered iff it exists in memory or was 0 |
| TransferLaws.StoreThenLoadFails | arm_load_store.c:84-125 | past the end of memory 1 is lost |
| TransferLaws.StoreByteThenLoad | arm_load_store.c:84-122 | STRB and LDRB of one address, any addressing: the low byte comes back zero-extended iff it is 0, or the address is in memory and the host little-endian; no other byte changes |
| TransferLaws.StoreByteThenLoadFails | arm_load_store.c:101-122 | on a big-endian host 1 does not come back |
| TransferLaws.StoreHalfThenLoad | arm_load_store.c:198-236 | the same for STRH and LDRH, with an even address |
| TransferLaws.StoreHalfThenLoadFails | arm_load_store.c:225-236 | on a big-endian host a halfword 1 does not come back |
| Instruction.DispatchWord | arm_instruction.c:37-71 | dispatch on bits 27..25; always 0 once the word is fetched, unless the simulation exits |
| Instruction.ArmStep | arm_instruction.c:31-80 | one step: fetch, dispatch, reset after a failed fetch |
| Agreement.InstructionAgrees | arm_instruction.c:37-71 | every covered instruction whose condition passes, whole states: the emulator does what the manual means iff Right |
| Agreement.SkippedAgrees | arm_instruction.c:37-71 | when the condition fails: right but for post-indexed halfword transfers that move their base |
| Agreement.InterruptsIgnored | arm_instruction.c:56-71 | coprocessor instructions and software interrupts leave the state |
| Agreement.StepExecutes | arm_instruction.c:31-80 | the word at the program counter is executed while that reads 8 more; the simulation ends exactly at the interrupt 0x123456 |
| Agreement.StepResets | arm_instruction.c:73-80 | any other step resets CPSR and the program counter and changes nothing else |
| Agreement.FirstStep | arm_instruction.c:73-80 | the first step executes the word at address 0, with all registers 0 |
| RunInvariants.DispatchKeeps | arm_instruction.c:31-71 | every word in every state: only the flags and T of CPSR change, T only in a load of r15, memory only in a store; mode, SPSR and memory size never |
| RunInvariants.ConditionFails | arm_load_store.c:215-223 | a failing condition changes nothing; a post-indexed halfword transfer moves its base by its low four bits, and changes nothing iff those are 0 and its base is not r15 |
| RunInvariants.ConditionFailsMoves | arm_load_store.c:215-223 | a halfword transfer with condition EQ and Z clear moves its base by 4 |
| RunInvariants.DecoderRejects | arm_data_processing.c:309-324 | of the words dispatched to data processing with bit 25 clear, the decoder rejects exactly bits 7..4 = 1001, 1101, 1111; the halfword handler rejects none of its own |
| RunInvariants.ProgramKeeps | arm_instruction.c:37-71 | any words from any state: control bits, mode, SPSR and memory size stay, T differs only if some word loads r15, memory only if some word stores |
| RunInvariants.RunKeeps | arm_instruction.c:73-80 | every run from a created processor: user mode, control bits of 0x1D3, memory size, a cycle per step |
| RunInvariants.CreateAndStep | arm_instruction.c:73-80 | the source's code, create and step at most n times: k steps, all n unless the simulation exits, end in the state of k steps of the model, which is configured and, unless it exits, has counted them |
| Addition.ChainConserves | arm_data_processing.c:134-145 | words, carry out and loss of an ADCS chain add up to the sum of the operands and the carry in |
| Addition.ChainExact | arm_data_processing.c:134-145 | the chain is exact iff Lossless |
| Addition.ChainLoses | arm_data_processing.c:141-141 | 1 + 0xFFFFFFFF with a carry in loses the carry out |
| Addition.ProgramIsChain | arm_instruction.c:37-56 | the unrolled LDR, LDR, ADCS, STR program computes the chain in memory and changes no other word, in place or apart |
| Addition.AdditionProgram | arm_instruction.c:37-56 | the numbers in memory are added exactly iff Lossless |
| Countdown.ExampleWords | Examples/example1.s:3-13 | the words of the example are instructions of the kinds the proof uses |
| Countdown.CodeFits | Examples/example1.s:1-14 | the six words can be placed in any large enough memory, so the theorems below apply to some state |
| Countdown.LoopTerminates | Examples/example1.s:9-13 | from any r0 >= 1 and load address: 4 * r0 steps without exit, then exit with r0 = 0 |
| Countdown.ProgramTerminates | Examples/example1.s:7-13 | from main with n in place of 5: step 4n + 2 ends the simulation with r0 = 0 |

## Support files

These files are modelled in full too.

- util.h:32-36, the bit macros: `Bits.GetBitIsShift` (get_bit is a shift and a mask), `Bits.PutCommutes`, `Bits.BitsDecide`.
- util.c:25-32, asr and ror: `Shifts.ArithmeticShift`, `Shifts.RotateRight`; util.c:44-95, ConditionPassed: `Core.ConditionPassed`; `FlagLaws.Conditions` gives the meaning of all sixteen, `FlagLaws.ConditionPairs` that each of 0 to 13 has its negation beside it.
- memory.c:50-98, the six accesses: the methods of `MemoryArea.Memory` read and write in the byte order of the memory, whatever the byte order of the host, and refuse addresses outside or unaligned. `MemoryArea.LoadStoredWord`, `LoadOtherWord`, `StoreWordFrame` and `LoadStoredHalf` are the read-over-write laws; `WordOfBytes`, `WordOfHalves`, `HalfOfBytes` and `StoredBytes` relate the widths, `AcceptedInside` says which accesses are accepted.
- registers.c:34-105, the cells and the mode: `Core.Registers`.
- arm_core.c:38-49 and 73-190, creation, register reads (r15 reads 4 more than its cell, bit 1 cleared: `Agreement.ReadsPc`), fetch (the program counter moves on even if the read fails): `Core.ArmCore`.
- arm_branch_other.c:29-38, branches: `Instruction.ArmBranch` and `Instruction.SignExtended`; `TransferLaws.BranchTargets` proves that a branch goes where the manual says iff its offset is negative, `TransferLaws.ForwardBranchMisses` gives the smallest input that fails.
- arm_branch_other.c:40-48, the software interrupt: `Instruction.CoprocessorOthersSwi`; arm_exception.c:33-40, the reset: `Instruction.ArmException`.

## Left out

- The status register transfer (arm_data_processing.c:413-461): never reached from the dispatch, and it reads uninitialised variables.
- Shift counts outside 0..31 are undefined in C: the model lets `Host` give any word for them, the laws hold for every choice (`OperandDecoded` and `ImmediateRotation`, which speak of the value, ask for defined counts), but not for an emulator that crashes there. `~0 << n` (util.c:27, util.h:36, arm_branch_other.c:33) and `1 << 31` (arm_data_processing.c:42-45) on int are undefined in C too: the model takes the two's-complement word that compilers give.
- In `Manual`, a refused memory access reads 0 and stores nothing; the manual has data aborts, and rotates a word loaded from an unaligned address. Conditions 15 (unconditional instructions), multiplications, coprocessors, supervisor calls and the user-bank forms of LDM and STM are not compared: the code ignores them, or bit 22.
- A memory whose size is not a multiple of 4: the source would read and write past its buffer; the simulator creates 0x20000 bytes.
- The GDB server, interrupts sent over sockets, tracing and printing: input and output. The GDB server may also change registers and memory between steps.
- `exit(0)` is the outcome `Exited` of a step; the status 2 or 3 of a software interrupt is dropped by the dispatch, as in the source.
- Lists with the base register and write-back in `StoreThenLoad`, `Refinement` and `Stack`: the manual calls them unpredictable; `StoreMultiple` and `LoadMultipleEffect` cover them.
- SPSR and the banked registers of other modes: the source has one bank and never leaves user mode (`RunInvariants.RunKeeps`).
- Examples/insertion_sort.c: its inner loop never decreases j, so it is not a sort.
