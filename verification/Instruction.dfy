/**
 Branches, dispatch and the step (arm_branch_other.c, arm_exception.c, arm_instruction.c).
 */
module Instruction {
  import opened Bits
  import opened Core
  import opened MemoryArea
  import opened DataProcessing
  import opened LoadStore

  // ----- Branches and software interrupts -----

  /**
   The byte offset of a branch. A backward one is sign-extended from bit 23. For a forward one the
   source means to clear the bits above the offset, but its mask is -1 shifted right, which is
   still -1: the condition and opcode bits stay in.
   */
  function BranchOffset(ins: Word): Word {
    if GetBit(ins, 23) == 1 then Wrap(4 * (ins % 0x80_0000 + 0xFF80_0000)) else Wrap(4 * ins)
  }

  function BranchStep(s: State, ins: Word): State {
    if !ConditionPassed(Cpsr(s), ins) then s
    else
      var s1 := if GetBit(ins, 24) == 1 then WithReg(s, 14, Sub(Reg(s, 15), 4)) else s;
      WithReg(s1, 15, Add(Reg(s, 15), BranchOffset(ins)))
  }

  /** The software interrupt that ends the simulation. */
  predicate IsExit(ins: Word) {
    GetBit(ins, 24) == 1 && ins % 0x100_0000 == 0x12_3456
  }

  // ----- Dispatch and step -----

  datatype Outcome = Returned(status: int) | Exited

  /** One instruction word handed to the dispatch, whose callers' statuses are all dropped. */
  function Dispatch(host: Host, s: State, ins: Word): State {
    match GetBits(ins, 27, 25)
    case 0 => if GetBits(ins, 7, 4) == 11 then HalfStep(host, s, ins).0 else DataStep(host, s, ins).0
    case 1 => DataStep(host, s, ins).0
    case 2 => SingleStep(host, s, ins)
    case 3 => SingleStep(host, s, ins)
    case 4 => MultipleStep(s, ins).0
    case 5 => BranchStep(s, ins)
    case _ => s
  }

  function Reset(s: State): State {
    WithUsr(WithCpsr(s, 0x1D3), 15, 0)
  }

  /** arm_step: a fetch that fails resets the processor. */
  function Step(host: Host, s: State): (State, Outcome) {
    var address := FetchAddress(s);
    if !WordOk(s.mem, address) then (Reset(AfterFetch(s)), Returned(1))
    else
      var ins := MemWord(s, address, 0);
      (Dispatch(host, AfterFetch(s), ins),
       if GetBits(ins, 27, 25) == 7 && IsExit(ins) then Exited else Returned(0))
  }

  /** One step, and whether it ended the simulation. */
  function Advance(host: Host): State -> (State, bool) {
    (s: State) => (Step(host, s).0, Step(host, s).1.Exited?)
  }

  /** n steps, of the emulator when advance is Advance(host); a run that has ended stands still. */
  function Iterate(advance: State -> (State, bool), s: State, n: nat): (State, bool)
    decreases n
  {
    if n == 0 then (s, false)
    else
      var (t, done) := Iterate(advance, s, n - 1);
      if done then (t, true) else advance(t)
  }

  lemma {:induction false} IterateAppend(advance: State -> (State, bool), s: State, m: nat, k: nat)
    requires !Iterate(advance, s, m).1
    ensures Iterate(advance, s, m + k) == Iterate(advance, Iterate(advance, s, m).0, k)
    decreases k
  {
    if k == 0 {
    } else {
      IterateAppend(advance, s, m, k - 1);
    }
  }

  /** A sequence of instruction words handed to the dispatch. */
  function Run(host: Host, s: State, program: seq<Word>): State
    decreases |program|
  {
    if program == [] then s
    else Dispatch(host, Run(host, s, program[..|program| - 1]), program[|program| - 1])
  }

  // ----- The source's code -----

  /** `ins | ~0<<23` replaces the bits from 23 up by ones. */
  lemma SignExtended(ins: Word)
    ensures BitwiseWord(Or, ins, 0xFF80_0000) == ins % 0x80_0000 + 0xFF80_0000
  {
    Pow2Table();
    OrAbove(ins, 0xFF80_0000, ins / 0x80_0000, ins % 0x80_0000, 511, 23);
    assert Pow2(9) == 512;
    OrOnes(ins / 0x80_0000, 9);
  }

  method ArmBranch(p: ArmCore, ins: Word) returns (status: int)
    requires p.Valid()
    modifies p.reg.data
    ensures p.Now() == BranchStep(old(p.Now()), ins) && status == 0
  {
    var link := GetBit(ins, 24);
    var cpsr := p.ReadCpsr();
    if ConditionPassed(cpsr, ins) {
      if link == 1 {
        var pc := p.ReadRegister(15);
        p.WriteRegister(14, Sub(pc, 4));
      }
      var val := if GetBit(ins, 23) == 1 then BitwiseWord(Or, ins, 0xFF80_0000) else ins;
      SignExtended(ins);
      val := Wrap(4 * val);
      var pc := p.ReadRegister(15);
      p.WriteRegister(15, Add(pc, val));
    }
    return 0;
  }

  method CoprocessorOthersSwi(ins: Word) returns (outcome: Outcome)
    ensures outcome.Exited? <==> IsExit(ins)
    ensures outcome.Returned? ==> outcome.status == if GetBit(ins, 24) == 1 then 3 else 2
  {
    if GetBit(ins, 24) == 1 {
      if ins % 0x100_0000 == 0x12_3456 {
        return Exited;
      }
      return Returned(3);
    }
    return Returned(2);
  }

  method ArmException(p: ArmCore, exception: int)
    requires p.Valid()
    modifies p.reg.data
    ensures p.Now() == if exception == 1 then Reset(old(p.Now())) else old(p.Now())
  {
    if exception == 1 {
      p.WriteCpsr(0x1D3);
      p.WriteUsrRegister(15, 0);
    }
  }

  method DispatchWord(p: ArmCore, ins: Word) returns (outcome: Outcome)
    requires p.Valid()
    modifies p.reg.data, p.mem.data
    ensures p.Now() == Dispatch(p.host, old(p.Now()), ins)
    ensures outcome == if GetBits(ins, 27, 25) == 7 && IsExit(ins) then Exited else Returned(0)
  {
    match GetBits(ins, 27, 25) {
      case 0 =>
        if GetBits(ins, 7, 4) == 11 {
          var _ := ArmLoadStoreHalf(p, ins);
        } else {
          var _ := DataProcessingShift(p, ins);
        }
      case 1 => var _ := DataProcessingShift(p, ins);
      case 2 => var _ := ArmLoadStore(p, ins);
      case 3 => var _ := ArmLoadStore(p, ins);
      case 4 => var _ := ArmLoadStoreMultiple(p, ins);
      case 5 => var _ := ArmBranch(p, ins);
      case 6 =>
      case _ =>
        var o := CoprocessorOthersSwi(ins);
        if o.Exited? {
          return Exited;
        }
    }
    return Returned(0);
  }

  method ExecuteInstruction(p: ArmCore) returns (outcome: Outcome)
    requires p.Valid()
    modifies p, p.reg.data, p.mem.data
    ensures var s := old(p.Now());
      var address := FetchAddress(s);
      if WordOk(s.mem, address)
      then p.Now() == Step(p.host, s).0 && outcome == Step(p.host, s).1
      else p.Now() == AfterFetch(s) && outcome == Returned(1)
  {
    var status, ins := p.Fetch(0);
    if status != 0 {
      return Returned(1);
    }
    outcome := DispatchWord(p, ins);
  }

  method ArmStep(p: ArmCore) returns (outcome: Outcome)
    requires p.Valid()
    modifies p, p.reg.data, p.mem.data
    ensures (p.Now(), outcome) == Step(p.host, old(p.Now()))
  {
    outcome := ExecuteInstruction(p);
    if outcome.Returned? && outcome.status != 0 {
      ArmException(p, outcome.status);
    }
  }
}
