/**
 One instruction, one step: exactly when the emulator does what the manual means, from the fetch to the
 new state.
 */
module Agreement {
  import opened Bits
  import opened Core
  import opened DataAgreement
  import opened DataProcessing
  import opened Departures
  import opened Instruction
  import opened LoadStore
  import opened Manual
  import opened MemoryArea
  import opened RunInvariants
  import opened ShifterOperand
  import opened Shifts
  import opened TransferAgreement

  // ----- Instructions -----

  /** The state that the manual means an instruction to leave. */
  function Meant(s: State, ins: Word): State {
    var operand := ManualOperand(s, ins);
    if !ConditionPassed(Cpsr(s), ins) then s
    else if IsDataProcessing(ins) then
      MeantData(s, GetBits(ins, 24, 21), SetsFlags(ins), GetBits(ins, 15, 12), Reg(s, GetBits(ins, 19, 16)),
        Wrap(operand.value), operand.carry)
    else
      match GetBits(ins, 27, 25)
      case 0 => MeantHalf(s, ins, ManualHalfOffset(s, ins))
      case 2 => MeantSingle(s, ins, MeantIndex(s, ins))
      case 3 => MeantSingle(s, ins, MeantIndex(s, ins))
      case 4 => MeantMultiple(s, ins)
      case 5 => MeantBranch(s, ins)
      case _ => s
  }

  /**
   The instructions compared: those that the manual defines, except for operands, offsets and lists that
   the code decodes otherwise (ShifterOperand and Departures say when), coprocessors and interrupts.
   */
  predicate Covered(s: State, ins: Word) {
    var kind, rd, rn := GetBits(ins, 27, 25), GetBits(ins, 15, 12), GetBits(ins, 19, 16);
    var before, write := GetBit(ins, 24) == 1, GetBit(ins, 21) == 1;
    && s.mode == USR && kind < 6
    && (IsDataProcessing(ins) ==>
          && Decodable(ins) && CountsDefined(s, ins) && OperandRight(s, ins)
          && (if IsCompare(GetBits(ins, 24, 21)) then GetBit(ins, 20) == 1 else GetBit(ins, 20) == 1 ==> rd != 15))
    && (IsHalf(ins) ==> if before then ManualHalfOffset(s, ins) < 0x100 else !write && rd != rn)
    && (kind == 3 ==> GetBit(ins, 4) == 0)
    && (kind in {2, 3} ==> OffsetRight(s, ins) && !(GetBit(ins, 20) == 1 && GetBit(ins, 22) == 1 && rd == 15))
    && (kind == 4 ==> GetBit(ins, 15) == 0 && GetBit(ins, 22) == 0 && (write ==> rn !in Listed(ins)))
  }

  /** When a covered instruction whose condition passes is right. */
  ghost predicate Right(host: Host, s: State, ins: Word) {
    if IsDataProcessing(ins) then
      DataRight(s, GetBits(ins, 24, 21), SetsFlags(ins), GetBits(ins, 15, 12), Reg(s, GetBits(ins, 19, 16)),
        Wrap(ManualOperand(s, ins).value), ManualOperand(s, ins).carry)
    else
      match GetBits(ins, 27, 25)
      case 0 =>
        && HalfLoadRight(host, s, ins, ManualHalfOffset(s, ins))
        && (GetBit(ins, 24) == 0 ==> PostIndexRight(s, ins))
      case 2 => SingleRight(host, s, ins, MeantIndex(s, ins))
      case 3 => SingleRight(host, s, ins, MeantIndex(s, ins))
      case 4 => MultipleRight(s, ins)
      case 5 => GetBit(ins, 23) == 1
      case _ => true
  }

  lemma DataInstruction(host: Host, s: State, ins: Word)
    requires IsDataProcessing(ins) && Covered(s, ins) && ConditionPassed(Cpsr(s), ins)
    ensures Dispatch(host, s, ins) == Meant(s, ins) <==> Right(host, s, ins)
  {
    OperandsDecoded(host, s, ins);
    OperandDecoded(host, s, ins);
    var b: Word, operand := CodeOperand(s, ins), ManualOperand(s, ins);
    assert Wrap(operand.value) == b && operand == Shifted(b, operand.carry);
    DataAgrees(host, s, ins, b, operand.carry);
  }

  lemma HalfInstruction(host: Host, s: State, ins: Word)
    requires IsHalf(ins) && Covered(s, ins) && ConditionPassed(Cpsr(s), ins)
    ensures Dispatch(host, s, ins) == Meant(s, ins) <==> Right(host, s, ins)
  {
    HalfAgrees(host, s, ins);
  }

  lemma TransferInstruction(host: Host, s: State, ins: Word)
    requires GetBits(ins, 27, 25) in {2, 3, 4, 5} && Covered(s, ins) && ConditionPassed(Cpsr(s), ins)
    ensures Dispatch(host, s, ins) == Meant(s, ins) <==> Right(host, s, ins)
  {
    match GetBits(ins, 27, 25) {
      case 4 => MultipleExecuted(host, s, ins);
      case 5 => BranchExecuted(host, s, ins);
      case _ => SingleAgrees(host, s, ins);
    }
  }

  /**
   Every covered instruction in every state whose condition passes: the emulator leaves the state that the
   manual means if and only if Right, a test on the instruction, the registers and the memory.
   */
  lemma InstructionAgrees(host: Host, s: State, ins: Word)
    requires Covered(s, ins) && ConditionPassed(Cpsr(s), ins)
    ensures Dispatch(host, s, ins) == Meant(s, ins) <==> Right(host, s, ins)
  {
    if IsDataProcessing(ins) {
      DataInstruction(host, s, ins);
    } else if IsHalf(ins) {
      HalfInstruction(host, s, ins);
    } else {
      TransferInstruction(host, s, ins);
    }
  }

  /**
   When the condition fails nothing is meant to change: right but for post-indexed halfword transfers.
   Condition 15, the unconditional instructions of the manual, always fails.
   */
  lemma SkippedAgrees(host: Host, s: State, ins: Word)
    requires !ConditionPassed(Cpsr(s), ins)
    ensures GetBits(ins, 31, 28) != 14
    ensures Dispatch(host, s, ins) == Meant(s, ins) <==>
      (IsHalf(ins) && GetBit(ins, 24) == 0 ==> GetBits(ins, 19, 16) != 15 && GetBits(ins, 3, 0) == 0)
  {
    ConditionFails(host, s, ins);
  }

  /** Coprocessor instructions and software interrupts change nothing. */
  lemma InterruptsIgnored(host: Host, s: State, ins: Word)
    requires GetBits(ins, 27, 25) in {6, 7}
    ensures Dispatch(host, s, ins) == s
  {
  }

  // ----- Steps -----

  /** The program counter reads as its cell plus 4, rounded down to an even number of halfwords. */
  lemma ReadsPc(s: State)
    ensures var x := Add(s.cells[15], 4);
      Reg(s, 15) == if x % 4 >= 2 then x - 2 else x
  {
    var x := Add(s.cells[15], 4);
    PutBitIsSum(x, 1, 0);
    assert Pow2(1) == 2;
    assert GetBit(x, 1) == GetBit(x / 2, 0) == x / 2 % 2;
    HalfBit(x);
  }

  lemma HalfBit(x: nat)
    ensures x / 2 % 2 == if x % 4 >= 2 then 1 else 0
  {
    var q, r := x / 4, x % 4;
    DivUnique(x, 2, 2 * q + r / 2, r % 2);
    DivUnique(2 * q + r / 2, 2, q, r / 2);
  }

  /** The address of the instruction that a step fetches: bit 1 of the program counter is ignored. */
  function Fetching(s: State): Word {
    var pc := s.cells[15];
    if pc % 4 >= 2 then pc - 2 else pc
  }

  lemma SameRemainder(pc: Word)
    ensures Add(pc, 4) % 4 == pc % 4
  {
    AddValue(pc, 4);
    var q, r := pc / 4, pc % 4;
    DivUnique(pc + 4, 4, q + 1, r);
    DivUnique(pc + 4 - BASE, 4, q + 1 - 0x4000_0000, r);
  }

  lemma FetchedFrom(s: State)
    ensures FetchAddress(s) == Fetching(s)
  {
    var pc, x := s.cells[15], Add(s.cells[15], 4);
    SameRemainder(pc);
    ReadsPc(s);
    AddValue(pc, 4);
    if x % 4 >= 2 {
      SubValue(x - 2, 4);
    } else {
      SubValue(x, 4);
    }
  }

  /** The state in which a fetched instruction is executed. */
  function Fetched(s: State): State {
    s.(cells := s.cells[15 := Add(Fetching(s), 4)], cycles := Add(s.cycles, 1))
  }

  /** While an instruction at a multiple of 4 is executed, the program counter reads its address plus 8. */
  lemma FetchedState(s: State)
    ensures AfterFetch(s) == Fetched(s)
    ensures Fetching(s) % 4 == 0 ==> Reg(Fetched(s), 15) == Add(Fetching(s), 8)
  {
    var a: int := Fetching(s);
    FetchedFrom(s);
    if a % 4 == 0 {
      ReadsPc(Fetched(s));
      WrapInner(a + 4, 4);
      SameRemainder(a);
      SameRemainder(Add(a, 4));
    }
  }

  /**
   A step whose address is a multiple of 4 in memory: the word there is executed while the counter reads
   8 more; the simulation ends exactly at the interrupt 0x123456, whatever its condition; every other word
   returns 0.
   */
  lemma StepExecutes(host: Host, s: State)
    requires Fetching(s) % 4 == 0 && Fetching(s) < |s.mem|
    ensures var ins := MemWord(s, Fetching(s), 0);
      && Step(host, s).0 == Dispatch(host, Fetched(s), ins)
      && Reg(Fetched(s), 15) == Add(Fetching(s), 8)
      && Step(host, s).1 ==
           if ins / 0x100_0000 % 16 == 15 && ins % 0x100_0000 == 0x12_3456 then Exited else Returned(0)
  {
    var ins := MemWord(s, Fetching(s), 0);
    FetchedFrom(s);
    FetchedState(s);
    TopBits(ins);
    assert Step(host, s).0 == Dispatch(host, AfterFetch(s), ins);
  }

  /** The first step after creation executes the word at address 0, all registers being 0 but the counter. */
  lemma FirstStep(host: Host, mem: seq<Byte>, big: bool)
    requires |mem| % 4 == 0 && |mem| > 0
    ensures var s := Created(mem, big);
      && Step(host, s).0 == Dispatch(host, Fetched(s), LoadWord(mem, big, 0, 0))
      && Fetched(s).cells == seq(18, i => if i == 15 then 4 else if i == 16 then 0x1D3 else 0)
  {
    StepExecutes(host, Created(mem, big));
  }

  lemma TopBits(ins: Word)
    ensures GetBits(ins, 27, 25) == 7 && GetBit(ins, 24) == 1 <==> ins / 0x100_0000 % 16 == 15
  {
    Pow2Table();
    FieldIs(ins, 27, 25, 0x200_0000, 8);
    BitIs(ins, 24, 0x100_0000);
    var q := ins / 0x100_0000;
    DivUnique(ins, 0x200_0000, q / 2, q % 2 * 0x100_0000 + ins % 0x100_0000);
    LowBits4(q);
  }

  lemma LowBits4(q: nat)
    ensures q / 2 % 8 == 7 && q % 2 == 1 <==> q % 16 == 15
  {
    var h, r := q / 16, q % 16;
    DivUnique(q, 2, 8 * h + r / 2, r % 2);
    DivUnique(8 * h + r / 2, 8, h, r / 2);
  }

  /** Any other step resets CPSR and, in user mode, the program counter; nothing else changes. */
  lemma StepResets(host: Host, s: State)
    requires Fetching(s) % 4 != 0 || Fetching(s) >= |s.mem|
    ensures var pc := if s.mode == USR then 0 else Add(Fetching(s), 4);
      Step(host, s) == (s.(cells := s.cells[15 := pc][16 := 0x1D3], cycles := Add(s.cycles, 1)), Returned(1))
  {
    FetchedFrom(s);
    var next := Add(Fetching(s), 4);
    assert s.cells[15 := next][16 := 0x1D3][15 := 0] == s.cells[15 := 0][16 := 0x1D3];
  }
}
