/**
 Examples/example1.s run by the emulator, step by step: a subroutine decrements r0 and a loop calls
 it until Z is set. Total correctness from every start value and every load address.
 */
module Countdown {
  import opened Bits
  import opened Core
  import opened MemoryArea
  import opened DataProcessing
  import opened LoadStore
  import opened Instruction
  import opened FlagLaws

  // ----- The instructions -----

  /** subs r0, r0, #1 */
  ghost predicate IsSubs(w: Word) {
    && GetBits(w, 31, 28) == 14 && GetBits(w, 27, 25) == 1 && GetBit(w, 25) == 1
    && GetBits(w, 24, 21) == 2 && GetBit(w, 20) == 1
    && GetBits(w, 19, 16) == 0 && GetBits(w, 15, 12) == 0 && GetBits(w, 11, 8) == 0 && w % 0x100 == 1
  }

  /** mov pc, lr */
  ghost predicate IsReturn(w: Word) {
    && GetBits(w, 31, 28) == 14 && GetBits(w, 27, 25) == 0 && GetBits(w, 7, 4) == 0 && GetBit(w, 25) == 0
    && GetBit(w, 4) == 0 && GetBit(w, 6) == 0 && GetBits(w, 11, 7) == 0
    && GetBits(w, 24, 21) == 13 && GetBit(w, 20) == 0 && GetBits(w, 15, 12) == 15 && GetBits(w, 3, 0) == 14
  }

  /** mov r0, #n for a small n */
  ghost predicate IsMoveToR0(w: Word, n: Byte) {
    && GetBits(w, 31, 28) == 14 && GetBits(w, 27, 25) == 1 && GetBit(w, 25) == 1
    && GetBits(w, 24, 21) == 13 && GetBit(w, 20) == 0
    && GetBits(w, 15, 12) == 0 && GetBits(w, 11, 8) == 0 && w % 0x100 == n
  }

  /** A branch backwards over `back` bytes from the word after it, taken under the given condition. */
  ghost predicate IsBranch(w: Word, cond: nat, link: Bit, back: Word) {
    && GetBits(w, 31, 28) == cond && GetBits(w, 27, 25) == 5 && GetBit(w, 24) == link
    && Add(BranchOffset(w), 4) == Sub(0, back)
  }

  /** The six words of the example: decr, its return, main, the call, the loop branch, the exit. */
  ghost predicate IsExample(code: seq<Word>, n: Byte) {
    && |code| == 6
    && IsSubs(code[0]) && IsReturn(code[1]) && IsMoveToR0(code[2], n)
    && IsBranch(code[3], 14, 1, 16) && IsBranch(code[4], 1, 0, 8)
    && GetBits(code[5], 27, 25) == 7 && IsExit(code[5])
  }

  lemma SubsFields(w: Word)
    requires w / 0x1000_0000 % 0x10 == 14 && w / 0x200_0000 % 8 == 1 && w / 0x20_0000 % 0x10 == 2
    requires w / 0x1_0000 % 0x10 == 0 && w / 0x1000 % 0x10 == 0 && w / 0x100 % 0x10 == 0
    requires w / 0x200_0000 % 2 == 1 && w / 0x10_0000 % 2 == 1
    requires w % 0x100 == 1
    ensures IsSubs(w)
  {
    Pow2Table();
    FieldIs(w, 31, 28, 0x1000_0000, 0x10);
    FieldIs(w, 27, 25, 0x200_0000, 8);
    FieldIs(w, 24, 21, 0x20_0000, 0x10);
    FieldIs(w, 19, 16, 0x1_0000, 0x10);
    FieldIs(w, 15, 12, 0x1000, 0x10);
    FieldIs(w, 11, 8, 0x100, 0x10);
    BitIs(w, 25, 0x200_0000);
    BitIs(w, 20, 0x10_0000);
  }

  lemma MoveFields(w: Word)
    requires w / 0x1000_0000 % 0x10 == 14 && w / 0x200_0000 % 8 == 1 && w / 0x20_0000 % 0x10 == 13
    requires w / 0x1000 % 0x10 == 0
    requires w / 0x100 % 0x10 == 0 && w / 0x200_0000 % 2 == 1 && w / 0x10_0000 % 2 == 0 && w % 0x100 == 5
    ensures IsMoveToR0(w, 5)
  {
    Pow2Table();
    FieldIs(w, 31, 28, 0x1000_0000, 0x10);
    FieldIs(w, 27, 25, 0x200_0000, 8);
    FieldIs(w, 24, 21, 0x20_0000, 0x10);
    FieldIs(w, 15, 12, 0x1000, 0x10);
    FieldIs(w, 11, 8, 0x100, 0x10);
    BitIs(w, 25, 0x200_0000);
    BitIs(w, 20, 0x10_0000);
  }

  lemma ReturnFields(w: Word)
    requires w / 0x1000_0000 % 0x10 == 14 && w / 0x200_0000 % 8 == 0 && w / 0x20_0000 % 0x10 == 13
    requires w / 0x1000 % 0x10 == 15
    requires w / 0x80 % 0x20 == 0 && w / 0x10 % 0x10 == 0 && w / 1 % 0x10 == 14 && w / 0x200_0000 % 2 == 0
    requires w / 0x10_0000 % 2 == 0 && w / 0x40 % 2 == 0 && w / 0x10 % 2 == 0
    ensures IsReturn(w)
  {
    Pow2Table();
    FieldIs(w, 31, 28, 0x1000_0000, 0x10);
    FieldIs(w, 27, 25, 0x200_0000, 8);
    FieldIs(w, 24, 21, 0x20_0000, 0x10);
    FieldIs(w, 15, 12, 0x1000, 0x10);
    FieldIs(w, 11, 7, 0x80, 0x20);
    FieldIs(w, 7, 4, 0x10, 0x10);
    FieldIs(w, 3, 0, 1, 0x10);
    BitIs(w, 25, 0x200_0000);
    BitIs(w, 20, 0x10_0000);
    BitIs(w, 6, 0x40);
    BitIs(w, 4, 0x10);
  }

  lemma BranchFields(w: Word)
    requires w / 0x200_0000 % 8 == 5 && w / 0x80_0000 % 2 == 1
    ensures GetBits(w, 27, 25) == 5 && BranchOffset(w) == Wrap(4 * (w % 0x80_0000 + 0xFF80_0000))
  {
    Pow2Table();
    FieldIs(w, 27, 25, 0x200_0000, 8);
    BitIs(w, 23, 0x80_0000);
  }

  lemma BranchBits(w: Word)
    ensures GetBits(w, 31, 28) == w / 0x1000_0000 % 0x10 && GetBit(w, 24) == w / 0x100_0000 % 2
  {
    Pow2Table();
    FieldIs(w, 31, 28, 0x1000_0000, 0x10);
    BitIs(w, 24, 0x100_0000);
  }

  lemma SubsWord(w: Word)
    requires w == 0xE250_0001
    ensures IsSubs(w)
  {
    assert w / 0x1000_0000 == 14 && w / 0x200_0000 == 0x71 && w / 0x20_0000 == 0x712;
    assert w / 0x10_0000 == 0xE25 && w / 0x1_0000 == 0xE250 && w / 0x1000 == 0xE_2500 && w / 0x100 == 0xE2_5000;
    SubsFields(w);
  }

  lemma ReturnWord(w: Word)
    requires w == 0xE1A0_F00E
    ensures IsReturn(w)
  {
    assert w / 0x1000_0000 == 14 && w / 0x200_0000 == 0x70 && w / 0x20_0000 == 0x70D && w / 0x10_0000 == 0xE1A;
    assert w / 0x1000 == 0xE_1A0F && w / 0x80 == 0x1C3_41E0 && w / 0x40 == 0x386_83C0 && w / 0x10 == 0xE1A_0F00;
    ReturnFields(w);
  }

  lemma MoveWord(w: Word)
    requires w == 0xE3A0_0005
    ensures IsMoveToR0(w, 5)
  {
    MoveFields(w);
  }

  lemma CallWord(w: Word)
    requires w == 0xEBFF_FFFB
    ensures IsBranch(w, 14, 1, 16)
  {
    BranchFields(w);
    BranchBits(w);
    WrapUnique(4 * 0xFFFF_FFFB, 0xFFFF_FFEC, 3);
    SubValue(0, 16);
  }

  lemma LoopWord(w: Word)
    requires w == 0x1AFF_FFFD
    ensures IsBranch(w, 1, 0, 8)
  {
    BranchFields(w);
    BranchBits(w);
    WrapUnique(4 * 0xFFFF_FFFD, 0xFFFF_FFF4, 3);
    SubValue(0, 8);
  }

  lemma ExitWord(w: Word)
    requires w == 0xEF12_3456
    ensures GetBits(w, 27, 25) == 7 && IsExit(w)
  {
    Pow2Table();
    FieldIs(w, 27, 25, 0x200_0000, 8);
    BitIs(w, 24, 0x100_0000);
  }

  /** The words that the assembler makes of Examples/example1.s. */
  lemma ExampleWords(code: seq<Word>)
    requires code == [0xE250_0001, 0xE1A0_F00E, 0xE3A0_0005, 0xEBFF_FFFB, 0x1AFF_FFFD, 0xEF12_3456]
    ensures IsExample(code, 5)
  {
    SubsWord(code[0]);
    ReturnWord(code[1]);
    MoveWord(code[2]);
    CallWord(code[3]);
    LoopWord(code[4]);
    ExitWord(code[5]);
  }

  // ----- What they do, once fetched -----

  lemma SubsEffect(host: Host, u: State, w: Word)
    requires IsSubs(w)
    ensures var t := DataStep(host, u, w).0;
      && t == WithCpsr(WithReg(u, 0, Sub(u.cells[0], 1)), Flags(2, Cpsr(u), u.cells[0], 1))
      && (Flag(Cpsr(t), Z) <==> u.cells[0] == 1)
  {
    assert Decode(host, u, w) == Operands(u.cells[0], 1);
    Compare(Cpsr(u), u.cells[0], 1);
  }

  lemma MoveEffect(host: Host, u: State, w: Word, n: Byte)
    requires IsMoveToR0(w, n)
    ensures DataStep(host, u, w).0 == WithReg(u, 0, n)
  {
    assert Decode(host, u, w).val2 == n;
  }

  lemma ReturnEffect(host: Host, u: State, w: Word)
    requires IsReturn(w)
    ensures DataStep(host, u, w).0 == WithReg(u, 15, u.cells[14])
  {
    assert Shl(host, u.cells[14], 0) == u.cells[14];
    assert Decode(host, u, w).val2 == u.cells[14];
  }

  lemma BranchEffect(u: State, w: Word, cond: nat, link: Bit, back: Word, next: Word)
    requires IsBranch(w, cond, link, back) && cond in {1, 14} && Reg(u, 15) == next + 4 && next >= back
    ensures BranchStep(u, w) ==
      if cond == 1 && Flag(Cpsr(u), Z) then u
      else WithReg(if link == 1 then WithReg(u, 14, next) else u, 15, next - back)
  {
    BranchTarget(BranchOffset(w), back, next);
    SubValue(next + 4, 4);
  }

  lemma BranchTarget(offset: Word, back: Word, next: Word)
    requires Add(offset, 4) == Sub(0, back) && next >= back && next + 4 < BASE
    ensures Add(next + 4, offset) == next - back
  {
    AddValue(offset, 4);
    SubValue(0, back);
    AddValue(next + 4, offset);
  }

  // ----- One step of each -----

  /** A multiple of 4 has bit 1 clear. */
  lemma AlignedPc(x: Word)
    requires x % 4 == 0
    ensures ClrBit(x, 1) == x
  {
    assert GetBit(x, 1) == GetBit(x / 2, 0) == 0;
    PutBitSame(x, 1);
  }

  lemma Fetched(s: State, pc: Word)
    requires s.cells[15] == pc && pc % 4 == 0 && pc + 8 < BASE
    ensures FetchAddress(s) == pc
    ensures AfterFetch(s).cells == s.cells[15 := pc + 4]
    ensures Reg(AfterFetch(s), 15) == pc + 8
  {
    AlignedPc(pc + 4);
    AlignedPc(pc + 8);
  }

  /** The code is in memory from address d on. */
  ghost predicate Holds(s: State, d: Word, code: seq<Word>) {
    && d % 4 == 0 && d + 4 * |code| <= |s.mem| && d + 4 * |code| + 8 < BASE
    && forall i :: 0 <= i < |code| ==> MemWord(s, Slot(d, i), 0) == code[i]
  }

  /** Any code fits into any large enough memory: the assumption of the theorems can be met. */
  lemma {:induction false} CodeFits(s: State, d: Word, code: seq<Word>) returns (t: State)
    requires d % 4 == 0 && d + 4 * |code| <= |s.mem| && d + 4 * |code| + 8 < BASE
    ensures Holds(t, d, code) && t.cells == s.cells && |t.mem| == |s.mem| && t.bigEndian == s.bigEndian
    decreases |code|
  {
    if code == [] {
      t := s;
    } else {
      var m := |code| - 1;
      var u := CodeFits(s, d, code[..m]);
      t := PutWord(u, Slot(d, m), code[m]);
      assert Slot(d, m) == d + 4 * m;
      LoadStoredWord(u.mem, u.bigEndian, Slot(d, m), code[m], 0);
      forall i | 0 <= i < m
        ensures MemWord(t, Slot(d, i), 0) == code[i]
      {
        assert Slot(d, i) == d + 4 * i && code[i] == code[..m][i];
        LoadOtherWord(u.mem, u.bigEndian, Slot(d, m), code[m], Slot(d, i), 0);
      }
    }
  }

  lemma FetchedAt(s: State, d: Word, code: seq<Word>, i: nat)
    requires Holds(s, d, code) && i < |code| && s.cells[15] == d + 4 * i
    ensures FetchAddress(s) == d + 4 * i && WordOk(s.mem, FetchAddress(s)) && MemWord(s, FetchAddress(s), 0) == code[i]
    ensures AfterFetch(s).cells == s.cells[15 := d + 4 * i + 4] && Reg(AfterFetch(s), 15) == d + 4 * i + 8
    ensures AfterFetch(s).mem == s.mem && AfterFetch(s).bigEndian == s.bigEndian
  {
    assert MemWord(s, Slot(d, i), 0) == code[i];
    WrapUnique(d + 4 * i, d + 4 * i, 0);
    Fetched(s, d + 4 * i);
  }

  /** A step at the i-th word of the code: that word is dispatched. */
  lemma StepAt(host: Host, s: State, d: Word, code: seq<Word>, i: nat)
    requires Holds(s, d, code) && i < |code| && s.cells[15] == d + 4 * i
    ensures Step(host, s).0 == Dispatch(host, AfterFetch(s), code[i])
    ensures Step(host, s).1 == if GetBits(code[i], 27, 25) == 7 && IsExit(code[i]) then Exited else Returned(0)
  {
    FetchedAt(s, d, code, i);
  }

  /** What a step of the program changes: r0, r14, r15 and the flags. */
  ghost predicate Became(s: State, t: State, r0: Word, r14: Word, pc: Word) {
    t.mem == s.mem && t.bigEndian == s.bigEndian && t.cells[0] == r0 && t.cells[14] == r14 && t.cells[15] == pc
  }

  lemma StepSubs(host: Host, s: State, d: Word, code: seq<Word>, n: Byte)
    requires Holds(s, d, code) && IsExample(code, n) && s.cells[15] == d
    ensures var (t, o) := Step(host, s);
      && o == Returned(0) && Became(s, t, Sub(s.cells[0], 1), s.cells[14], d + 4)
      && (Flag(Cpsr(t), Z) <==> s.cells[0] == 1)
  {
    StepAt(host, s, d, code, 0);
    FetchedAt(s, d, code, 0);
    SubsEffect(host, AfterFetch(s), code[0]);
  }

  lemma StepReturn(host: Host, s: State, d: Word, code: seq<Word>, n: Byte)
    requires Holds(s, d, code) && IsExample(code, n) && s.cells[15] == d + 4
    ensures var (t, o) := Step(host, s);
      o == Returned(0) && Became(s, t, s.cells[0], s.cells[14], s.cells[14]) && Cpsr(t) == Cpsr(s)
  {
    StepAt(host, s, d, code, 1);
    FetchedAt(s, d, code, 1);
    ReturnEffect(host, AfterFetch(s), code[1]);
  }

  lemma StepMove(host: Host, s: State, d: Word, code: seq<Word>, n: Byte)
    requires Holds(s, d, code) && IsExample(code, n) && s.cells[15] == d + 8
    ensures var (t, o) := Step(host, s);
      o == Returned(0) && Became(s, t, n, s.cells[14], d + 12)
  {
    StepAt(host, s, d, code, 2);
    FetchedAt(s, d, code, 2);
    MoveEffect(host, AfterFetch(s), code[2], n);
  }

  /** A branch once fetched, away from the step that fetches it. */
  lemma BranchMoves(s: State, t: State, d: Word, code: seq<Word>, i: nat, cond: nat, link: Bit, back: Word)
    requires Holds(s, d, code) && i < |code| && s.cells[15] == d + 4 * i
    requires IsBranch(code[i], cond, link, back) && back <= d + 4 * i + 4
    requires cond == 14 || (cond == 1 && link == 0)
    requires t == BranchStep(AfterFetch(s), code[i])
    ensures Became(s, t, s.cells[0], if link == 1 then d + 4 * i + 4 else s.cells[14],
      if cond == 1 && Flag(Cpsr(s), Z) then d + 4 * i + 4 else d + 4 * i + 4 - back)
  {
    FetchedAt(s, d, code, i);
    BranchEffect(AfterFetch(s), code[i], cond, link, back, d + 4 * i + 4);
  }

  lemma StepCall(host: Host, s: State, d: Word, code: seq<Word>)
    requires Holds(s, d, code) && |code| == 6 && IsBranch(code[3], 14, 1, 16) && s.cells[15] == d + 12
    ensures var (t, o) := Step(host, s);
      o == Returned(0) && Became(s, t, s.cells[0], d + 16, d)
  {
    StepAt(host, s, d, code, 3);
    BranchMoves(s, BranchStep(AfterFetch(s), code[3]), d, code, 3, 14, 1, 16);
  }

  lemma StepLoop(host: Host, s: State, d: Word, code: seq<Word>)
    requires Holds(s, d, code) && |code| == 6 && IsBranch(code[4], 1, 0, 8) && s.cells[15] == d + 16
    ensures var (t, o) := Step(host, s);
      && o == Returned(0)
      && Became(s, t, s.cells[0], s.cells[14], if Flag(Cpsr(s), Z) then d + 20 else d + 12)
  {
    StepAt(host, s, d, code, 4);
    BranchMoves(s, BranchStep(AfterFetch(s), code[4]), d, code, 4, 1, 0, 8);
  }

  lemma StepExit(host: Host, s: State, d: Word, code: seq<Word>, n: Byte)
    requires Holds(s, d, code) && IsExample(code, n) && s.cells[15] == d + 20
    ensures Step(host, s).1 == Exited && Step(host, s).0.cells[0] == s.cells[0]
  {
    StepAt(host, s, d, code, 5);
    FetchedAt(s, d, code, 5);
  }

  // ----- The loop -----

  ghost predicate At(s: State, d: Word, code: seq<Word>, i: nat) {
    Holds(s, d, code) && d + 32 < BASE && s.cells[15] == d + 4 * i
  }

  /** What the i-th instruction of the program does, as a property of the step alone. */
  ghost predicate InstructionDone(advance: State -> (State, bool), s: State, d: Word, n: Byte, i: nat)
    requires d + 32 < BASE
  {
    var (t, exited) := advance(s);
    match i
    case 0 => !exited && Became(s, t, Sub(s.cells[0], 1), s.cells[14], d + 4) && (Flag(Cpsr(t), Z) <==> s.cells[0] == 1)
    case 1 => !exited && Became(s, t, s.cells[0], s.cells[14], s.cells[14]) && Cpsr(t) == Cpsr(s)
    case 2 => !exited && Became(s, t, n, s.cells[14], d + 12)
    case 3 => !exited && Became(s, t, s.cells[0], d + 16, d)
    case 4 => !exited && Became(s, t, s.cells[0], s.cells[14], if Flag(Cpsr(s), Z) then d + 20 else d + 12)
    case _ => exited && t.cells[0] == s.cells[0]
  }

  ghost predicate Behaves(advance: State -> (State, bool), d: Word, code: seq<Word>, n: Byte)
    requires d + 32 < BASE
  {
    forall s: State, i: nat {:trigger InstructionDone(advance, s, d, n, i)} ::
      i < 6 && At(s, d, code, i) ==> InstructionDone(advance, s, d, n, i)
  }

  lemma InstructionWorks(host: Host, advance: State -> (State, bool), s: State, d: Word, code: seq<Word>,
          n: Byte, i: nat)
    requires advance == Advance(host) && IsExample(code, n) && i < 6 && At(s, d, code, i)
    ensures InstructionDone(advance, s, d, n, i)
  {
    match i
    case 0 => StepSubs(host, s, d, code, n);
    case 1 => StepReturn(host, s, d, code, n);
    case 2 => StepMove(host, s, d, code, n);
    case 3 => StepCall(host, s, d, code);
    case 4 => StepLoop(host, s, d, code);
    case _ => StepExit(host, s, d, code, n);
  }

  lemma EmulatorBehaves(host: Host, advance: State -> (State, bool), d: Word, code: seq<Word>, n: Byte)
    requires advance == Advance(host) && IsExample(code, n) && d + 32 < BASE
    ensures Behaves(advance, d, code, n)
  {
    forall s: State, i: nat | i < 6 && At(s, d, code, i)
      ensures InstructionDone(advance, s, d, n, i)
    {
      InstructionWorks(host, advance, s, d, code, n, i);
    }
  }

  lemma FourSteps(advance: State -> (State, bool), s: State, s1: State, s2: State, s3: State, s4: State)
    requires advance(s) == (s1, false) && advance(s1) == (s2, false)
    requires advance(s2) == (s3, false) && advance(s3) == (s4, false)
    ensures Iterate(advance, s, 4) == (s4, false)
  {
    assert Iterate(advance, s, 0) == (s, false);
    assert Iterate(advance, s, 1) == (s1, false);
    assert Iterate(advance, s, 2) == (s2, false);
    assert Iterate(advance, s, 3) == (s3, false);
  }

  /** After k rounds from s: r0 is k less, and control is at the exit if r0 is 0 and at the loop otherwise. */
  ghost predicate AfterRounds(s: State, t: State, d: Word, k: nat) {
    && t.mem == s.mem && t.bigEndian == s.bigEndian && t.cells[0] == s.cells[0] - k
    && t.cells[15] == if t.cells[0] == 0 then d + 20 else d + 12
  }

  lemma RoundStates(s: State, s1: State, s2: State, s3: State, s4: State, d: Word)
    requires s.cells[0] >= 1 && d + 32 < BASE
    requires Became(s, s1, s.cells[0], d + 16, d)
    requires Became(s1, s2, Sub(s1.cells[0], 1), s1.cells[14], d + 4) && (Flag(Cpsr(s2), Z) <==> s1.cells[0] == 1)
    requires Became(s2, s3, s2.cells[0], s2.cells[14], s2.cells[14]) && Cpsr(s3) == Cpsr(s2)
    requires Became(s3, s4, s3.cells[0], s3.cells[14], if Flag(Cpsr(s3), Z) then d + 20 else d + 12)
    ensures AfterRounds(s, s4, d, 1)
  {
    SubValue(s.cells[0], 1);
  }

  ghost predicate AtLoop(s: State, d: Word, code: seq<Word>) {
    At(s, d, code, 3) && s.cells[0] >= 1
  }

  lemma OneRound(advance: State -> (State, bool), s: State, d: Word, code: seq<Word>, n: Byte)
    requires d + 32 < BASE && |code| == 6 && Behaves(advance, d, code, n) && AtLoop(s, d, code)
    ensures !Iterate(advance, s, 4).1 && AfterRounds(s, Iterate(advance, s, 4).0, d, 1)
  {
    assert InstructionDone(advance, s, d, n, 3);
    var s1 := advance(s).0;
    assert InstructionDone(advance, s1, d, n, 0);
    var s2 := advance(s1).0;
    assert InstructionDone(advance, s2, d, n, 1);
    var s3 := advance(s2).0;
    assert InstructionDone(advance, s3, d, n, 4);
    var s4 := advance(s3).0;
    FourSteps(advance, s, s1, s2, s3, s4);
    RoundStates(s, s1, s2, s3, s4, d);
  }

  /** The loop is left after exactly as many rounds as r0 says. */
  lemma {:induction false} Rounds(advance: State -> (State, bool), s: State, d: Word, code: seq<Word>, n: Byte, k: nat)
    requires d + 32 < BASE && |code| == 6 && Behaves(advance, d, code, n) && AtLoop(s, d, code) && k <= s.cells[0]
    ensures !Iterate(advance, s, 4 * k).1 && AfterRounds(s, Iterate(advance, s, 4 * k).0, d, k)
    decreases k
  {
    if k == 0 {
    } else {
      Rounds(advance, s, d, code, n, k - 1);
      OneRound(advance, Iterate(advance, s, 4 * (k - 1)).0, d, code, n);
      IterateAppend(advance, s, 4 * (k - 1), 4);
    }
  }

  lemma LastStep(advance: State -> (State, bool), s: State, m: nat)
    requires !Iterate(advance, s, m).1
    ensures Iterate(advance, s, m + 1) == advance(Iterate(advance, s, m).0)
  {
  }

  lemma FirstStep(advance: State -> (State, bool), s: State, t: State, m: nat)
    requires advance(s) == (t, false)
    ensures Iterate(advance, s, m + 1) == Iterate(advance, t, m)
  {
    assert Iterate(advance, s, 0) == (s, false);
    LastStep(advance, s, 0);
    IterateAppend(advance, s, 1, m);
  }

  lemma CountsDown(advance: State -> (State, bool), s: State, d: Word, code: seq<Word>, n: Byte)
    requires d + 32 < BASE && |code| == 6 && Behaves(advance, d, code, n) && AtLoop(s, d, code)
    ensures var r0: nat := s.cells[0];
      && !Iterate(advance, s, 4 * r0).1
      && Iterate(advance, s, 4 * r0 + 1).1 && Iterate(advance, s, 4 * r0 + 1).0.cells[0] == 0
  {
    var r0: nat := s.cells[0];
    Rounds(advance, s, d, code, n, r0);
    assert InstructionDone(advance, Iterate(advance, s, 4 * r0).0, d, n, 5);
    LastStep(advance, s, 4 * r0);
  }

  lemma MainCountsDown(advance: State -> (State, bool), s: State, d: Word, code: seq<Word>, n: Byte)
    requires d + 32 < BASE && |code| == 6 && Behaves(advance, d, code, n) && At(s, d, code, 2) && n >= 1
    ensures !Iterate(advance, s, 4 * n + 1).1
    ensures Iterate(advance, s, 4 * n + 2).1 && Iterate(advance, s, 4 * n + 2).0.cells[0] == 0
  {
    assert InstructionDone(advance, s, d, n, 2);
    var t := advance(s).0;
    CountsDown(advance, t, d, code, n);
    FirstStep(advance, s, t, 4 * n);
    FirstStep(advance, s, t, 4 * n + 1);
  }

  /**
   The loop of the example in the emulator, from any r0 >= 1 and at any load address: 4 * r0 steps
   without an exit, and the step after those exits with r0 = 0.
   */
  lemma LoopTerminates(host: Host, s: State, d: Word, code: seq<Word>, n: Byte)
    requires IsExample(code, n) && AtLoop(s, d, code)
    ensures var r0: nat := s.cells[0];
      && !Iterate(Advance(host), s, 4 * r0).1
      && Iterate(Advance(host), s, 4 * r0 + 1).1 && Iterate(Advance(host), s, 4 * r0 + 1).0.cells[0] == 0
  {
    EmulatorBehaves(host, Advance(host), d, code, n);
    CountsDown(Advance(host), s, d, code, n);
  }

  /** The whole program from main, with n in place of 5: step 4n + 2 ends it with r0 = 0, no step before does. */
  lemma ProgramTerminates(host: Host, s: State, d: Word, code: seq<Word>, n: Byte)
    requires IsExample(code, n) && At(s, d, code, 2) && n >= 1
    ensures !Iterate(Advance(host), s, 4 * n + 1).1
    ensures Iterate(Advance(host), s, 4 * n + 2).1 && Iterate(Advance(host), s, 4 * n + 2).0.cells[0] == 0
  {
    EmulatorBehaves(host, Advance(host), d, code, n);
    MainCountsDown(Advance(host), s, d, code, n);
  }
}
