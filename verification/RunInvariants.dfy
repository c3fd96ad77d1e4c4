/**
 What every instruction, and so every run from a reset processor, keeps.
 */
module RunInvariants {
  import opened Bits
  import opened Core
  import opened MemoryArea
  import opened DataProcessing
  import opened LoadStore
  import opened BlockTransfer
  import opened Instruction
  import opened FlagLaws

  // ----- One instruction -----

  /** The bits of CPSR that no instruction can reach: all but the flags and T. */
  ghost predicate SameControl(x: Word, y: Word) {
    forall j: nat :: j !in {N, Z, C, V, T} ==> GetBit(x, j) == GetBit(y, j)
  }

  /** The parts of the state that are fixed for the life of the processor. */
  ghost predicate SameConfiguration(s: State, t: State) {
    && t.mode == s.mode && t.bigEndian == s.bigEndian && |t.mem| == |s.mem|
    && t.cells[17] == s.cells[17]
  }

  predicate IsDataProcessing(ins: Word) {
    GetBits(ins, 27, 25) == 1 || (GetBits(ins, 27, 25) == 0 && GetBits(ins, 7, 4) != 11)
  }

  predicate IsHalf(ins: Word) {
    GetBits(ins, 27, 25) == 0 && GetBits(ins, 7, 4) == 11
  }

  /** A load of r15: LDR or LDRB with rd = 15, or LDM with bit 15 of the list. */
  predicate LoadsPc(ins: Word) {
    || (GetBits(ins, 27, 25) in {2, 3} && GetBit(ins, 20) == 1 && GetBits(ins, 15, 12) == 15)
    || (GetBits(ins, 27, 25) == 4 && GetBit(ins, 20) == 1 && GetBit(ins, 15) == 1)
  }

  /** The words that write memory. */
  predicate Stores(ins: Word) {
    (GetBits(ins, 27, 25) in {2, 3, 4} || IsHalf(ins)) && GetBit(ins, 20) == 0
  }

  lemma LoadPcKeeps(s: State, pc: Word, value: Word)
    ensures SameControl(Cpsr(LoadPc(s, pc, value)), Cpsr(s)) && SameConfiguration(s, LoadPc(s, pc, value))
  {
    forall j: nat | j !in {N, Z, C, V, T}
      ensures GetBit(Cpsr(LoadPc(s, pc, value)), j) == GetBit(Cpsr(s), j)
    {
      PutGet(Cpsr(s), T, GetBit(value, 0) == 1, j);
    }
  }

  lemma ExecuteKeeps(s: State, op: nat, withFlags: bool, rd: nat, a: Word, b: Word)
    requires rd < 16
    ensures var t := Execute(s, op, withFlags, rd, a, b);
      SameConfiguration(s, t) && t.mem == s.mem && t.cycles == s.cycles && OnlyNZCV(Cpsr(t), Cpsr(s))
  {
    var cpsr := Cpsr(s);
    var c: Byte := GetBit(cpsr, C);
    if op == 7 {
      FlagsKeepOthers(op, cpsr, rd, b, c);
    } else {
      FlagsKeepOthers(op, cpsr, a, b, c);
      var s1 := WithReg(s, rd, Result(op, a, b, Flag(cpsr, C)));
      FlagsKeepOthers(op, cpsr, Reg(s1, rd), b, c);
    }
  }

  lemma DataStepKeeps(host: Host, s: State, ins: Word)
    ensures var t := DataStep(host, s, ins).0;
      SameConfiguration(s, t) && t.mem == s.mem && t.cycles == s.cycles && OnlyNZCV(Cpsr(t), Cpsr(s))
  {
    var o := Decode(host, s, ins);
    if ConditionPassed(Cpsr(s), ins) && o.Operands? {
      ExecuteKeeps(s, GetBits(ins, 24, 21), GetBit(ins, 20) == 1, GetBits(ins, 15, 12), o.val1, o.val2);
    }
  }

  lemma SingleStepKeeps(host: Host, s: State, ins: Word)
    ensures var t := SingleStep(host, s, ins);
      && SameConfiguration(s, t) && t.cycles == s.cycles && SameControl(Cpsr(t), Cpsr(s))
      && (GetBit(ins, 20) == 1 ==> t.mem == s.mem)
      && (!(GetBit(ins, 20) == 1 && GetBits(ins, 15, 12) == 15) ==> Cpsr(t) == Cpsr(s))
  {
    if ConditionPassed(Cpsr(s), ins) {
      RegKept(s, GetBits(ins, 19, 16), Moved(host, s, ins));
      TransferKeeps(host, WrittenBack(host, s, ins), ins, Address(host, s, ins));
    }
  }

  lemma TransferKeeps(host: Host, s: State, ins: Word, a: Word)
    ensures var t := Transferred(host, s, ins, a);
      && SameConfiguration(s, t) && t.cycles == s.cycles && SameControl(Cpsr(t), Cpsr(s))
      && (GetBit(ins, 20) == 1 ==> t.mem == s.mem)
      && (!(GetBit(ins, 20) == 1 && GetBits(ins, 15, 12) == 15) ==> Cpsr(t) == Cpsr(s))
  {
    var rd := GetBits(ins, 15, 12);
    if GetBit(ins, 20) == 1 {
      var value := if GetBit(ins, 22) == 1 then FromFirstByte(host, MemByte(s, a, 0)) else MemWord(s, a, 0);
      LoadPcKeeps(s, ClrBit(value, 0), value);
      RegKept(s, rd, value);
    } else if GetBit(ins, 22) == 1 {
      assert SameConfiguration(s, PutByte(s, a, Reg(s, rd) % 0x100));
    } else {
      assert SameConfiguration(s, PutWord(s, a, Reg(s, rd)));
    }
  }

  lemma MultipleStepKeeps(s: State, ins: Word)
    ensures var t := MultipleStep(s, ins).0;
      && SameConfiguration(s, t) && t.cycles == s.cycles && SameControl(Cpsr(t), Cpsr(s))
      && (GetBit(ins, 20) == 1 ==> t.mem == s.mem)
      && (!(GetBit(ins, 20) == 1 && GetBit(ins, 15) == 1) ==> Cpsr(t) == Cpsr(s))
  {
    if ConditionPassed(Cpsr(s), ins) {
      var list, start, s1 := Listed(ins), Block(s, ins), MultipleBack(s, ins);
      if GetBit(ins, 20) == 1 {
        LoadsPlaced(s, ins);
        var t, value := AfterLoads(s1, list, start), Loaded(s1, start, |list|);
        LoadPcKeeps(t, if value != 0 then 1 else 0, value);
      } else {
        StoresPlaced(s, ins);
      }
    }
  }

  lemma HalfStepKeeps(host: Host, s: State, ins: Word)
    ensures var t := HalfStep(host, s, ins).0;
      && SameConfiguration(s, t) && t.cycles == s.cycles && Cpsr(t) == Cpsr(s)
      && (GetBit(ins, 20) == 1 || !ConditionPassed(Cpsr(s), ins) ==> t.mem == s.mem)
  {
    var rn, address, s1 := GetBits(ins, 19, 16), HalfAddress(s, ins), HalfMoved(s, ins);
    RegKept(s, rn, Add(Reg(s, rn), GetBits(ins, 3, 0)));
    RegKept(s1, rn, address);
    HalfTransferKeeps(host, HalfBack(s, ins), ins, address);
  }

  lemma HalfTransferKeeps(host: Host, s: State, ins: Word, a: Word)
    ensures var t := HalfTransferred(host, s, ins, a);
      && SameConfiguration(s, t) && t.cycles == s.cycles && Cpsr(t) == Cpsr(s)
      && (GetBit(ins, 20) == 1 ==> t.mem == s.mem)
  {
    var rd := GetBits(ins, 15, 12);
    if GetBit(ins, 20) == 1 {
      RegKept(s, rd, FromFirstHalf(host, MemHalf(s, a, 0)));
    }
  }

  lemma RegKept(s: State, r: nat, v: Word)
    requires r < 16
    ensures var t := WithReg(s, r, v);
      SameConfiguration(s, t) && t.mem == s.mem && t.cycles == s.cycles && Cpsr(t) == Cpsr(s)
  {
  }

  /**
   Every instruction word, in every state: only the flags and T of CPSR can change, T only in a load of
   r15, memory only in a store; mode, SPSR, byte order and size of the memory never do.
   */
  lemma DispatchKeeps(host: Host, s: State, ins: Word)
    ensures var t := Dispatch(host, s, ins);
      && SameConfiguration(s, t) && t.cycles == s.cycles
      && SameControl(Cpsr(t), Cpsr(s))
      && (Flag(Cpsr(t), T) != Flag(Cpsr(s), T) ==> LoadsPc(ins) && ConditionPassed(Cpsr(s), ins))
      && (t.mem != s.mem ==> Stores(ins) && ConditionPassed(Cpsr(s), ins))
      && (Cpsr(t) != Cpsr(s) ==> IsDataProcessing(ins) || LoadsPc(ins))
  {
    if IsDataProcessing(ins) {
      DataStepKeeps(host, s, ins);
      assert GetBit(Cpsr(DataStep(host, s, ins).0), T) == GetBit(Cpsr(s), T);
    } else if GetBits(ins, 27, 25) in {2, 3} {
      SingleStepKeeps(host, s, ins);
    } else if GetBits(ins, 27, 25) == 4 {
      MultipleStepKeeps(s, ins);
    } else if IsHalf(ins) {
      HalfStepKeeps(host, s, ins);
    }
  }

  // ----- Conditions -----

  /** Reading the program counter, moving it by at most 15 and writing it back never gives its old value. */
  lemma PcMoves(pc: Word, d: nat)
    requires d < 16
    ensures Add(ClrBit(Add(pc, 4), 1), d) != pc
  {
    var x := Add(pc, 4);
    PutBitIsSum(x, 1, 0);
    assert Pow2(1) == 2;
    if GetBit(x, 1) == 0 {
      WrapInner(pc + 4, d);
      WrapApart(pc, 4 + d);
      assert Add(x, d) == Wrap(pc + (4 + d));
    } else {
      assert x >= 2 by { SmallBits(x); }
      WrapInner(pc + 4, d - 2);
      WrapApart(pc, 2 + d);
      assert Add(x - 2, d) == Wrap(x + (d - 2)) == Wrap(pc + (2 + d));
    }
    assert Wrap(pc) == pc;
  }

  lemma SmallBits(x: Word)
    requires GetBit(x, 1) == 1
    ensures x >= 2
  {
    assert GetBit(x, 1) == GetBit(x / 2, 0);
  }

  /**
   An instruction whose condition fails changes nothing, with one exception: a post-indexed halfword
   transfer still moves its base by the low four bits of the word. It changes nothing exactly when
   those are 0 and the base is not r15, which reads as another value than it holds.
   */
  lemma ConditionFails(host: Host, s: State, ins: Word)
    requires !ConditionPassed(Cpsr(s), ins)
    ensures !(IsHalf(ins) && GetBit(ins, 24) == 0) ==> Dispatch(host, s, ins) == s
    ensures IsHalf(ins) && GetBit(ins, 24) == 0 ==>
      var rn, low := GetBits(ins, 19, 16), GetBits(ins, 3, 0);
      && Dispatch(host, s, ins) == WithReg(s, rn, Add(Reg(s, rn), low))
      && (Dispatch(host, s, ins) == s <==> rn != 15 && low == 0)
  {
    var rn, d := GetBits(ins, 19, 16), GetBits(ins, 3, 0);
    if IsHalf(ins) && GetBit(ins, 24) == 0 {
      if rn == 15 {
        PcMoves(s.cells[15], d);
      } else {
        AddValue(s.cells[rn], d);
      }
      BaseWritten(s, rn, Add(Reg(s, rn), d));
    }
  }

  /** STRHEQ rd,[rn],#4 moves rn by 4 although Z is clear. */
  lemma ConditionFailsMoves(host: Host, s: State, ins: Word)
    requires GetBits(ins, 31, 28) == 0 && !Flag(Cpsr(s), Z) && IsHalf(ins)
    requires GetBit(ins, 24) == 0 && GetBits(ins, 19, 16) < 15 && GetBits(ins, 3, 0) == 4
    ensures Dispatch(host, s, ins) == WithReg(s, GetBits(ins, 19, 16), Add(s.cells[GetBits(ins, 19, 16)], 4)) != s
  {
    ConditionFails(host, s, ins);
  }

  lemma BaseWritten(s: State, r: nat, v: Word)
    requires r < 16
    ensures WithReg(s, r, v) == s <==> v == s.cells[r]
  {
    assert WithReg(s, r, v).cells[r] == v;
    if v == s.cells[r] {
      assert s.cells[r := v] == s.cells;
    }
  }

  // ----- Decoding -----

  /** The bits of a four-bit field. */
  lemma NibbleBits(ins: Word)
    ensures GetBit(ins, 7) == GetBits(ins, 7, 4) / 8
    ensures GetBit(ins, 4) == GetBits(ins, 7, 4) % 2
    ensures GetBits(ins, 27, 25) in {0, 2, 4, 6} ==> GetBit(ins, 25) == 0
  {
    FieldArithmetic(ins);
    var nibble, kind := GetBits(ins, 7, 4), GetBits(ins, 27, 25);
    assert nibble == ins / 0x10 % 0x10 by { Pow2Table(); FieldIs(ins, 7, 4, 0x10, 0x10); }
    assert kind == ins / 0x200_0000 % 8 by { Pow2Table(); FieldIs(ins, 27, 25, 0x200_0000, 8); }
    assert GetBit(ins, 7) == nibble / 8 by { Pow2Table(); BitIs(ins, 7, 0x80); }
    assert GetBit(ins, 4) == nibble % 2 by { Pow2Table(); BitIs(ins, 4, 0x10); }
    assert GetBit(ins, 25) == kind % 2 by { Pow2Table(); BitIs(ins, 25, 0x200_0000); }
  }

  lemma FieldArithmetic(x: nat)
    ensures x / 0x80 % 2 == x / 0x10 % 0x10 / 8
    ensures x / 0x10 % 2 == x / 0x10 % 0x10 % 2
    ensures x / 0x200_0000 % 2 == x / 0x200_0000 % 8 % 2
  {
    var q := x / 0x10;
    assert x / 0x80 == q / 8 by {
      DivUnique(x, 0x80, q / 8, 0x10 * (q % 8) + x % 0x10);
    }
    NibbleParts(q);
    LowBitOfRemainder(q, 8);
    LowBitOfRemainder(x / 0x200_0000, 4);
  }

  lemma NibbleParts(q: nat)
    ensures q % 0x10 / 8 == q / 8 % 2
  {
    var h, n := q / 0x10, q % 0x10;
    DivUnique(n, 8, n / 8, n % 8);
    DivUnique(q, 8, 2 * h + n / 8, n % 8);
    DivUnique(2 * h + n / 8, 2, h, n / 8);
  }

  /** A remainder by an even number has the same low bit. */
  lemma LowBitOfRemainder(q: nat, half: nat)
    requires half > 0
    ensures q % (2 * half) % 2 == q % 2
  {
    var h, r := q / (2 * half), q % (2 * half);
    assert q == (2 * half) * h + r;
    assert (2 * half) * h == 2 * (half * h);
    DivUnique(q, 2, half * h + r / 2, r % 2);
  }

  /**
   Of the words that the dispatch sends to data processing with bit 25 clear, the operand decoder
   rejects exactly those whose bits 7..4 are 1001, 1101 or 1111; and no word that is sent to the
   halfword handler is rejected by it.
   */
  lemma DecoderRejects(host: Host, s: State, ins: Word)
    requires GetBits(ins, 27, 25) == 0
    ensures GetBits(ins, 7, 4) != 11 ==>
      (Decode(host, s, ins).Rejected? <==> GetBits(ins, 7, 4) in {9, 13, 15})
    ensures GetBits(ins, 7, 4) == 11 ==> HalfStep(host, s, ins).1 == 0
  {
    NibbleBits(ins);
    Pow2Table();
  }

  // ----- Runs -----

  /**
   Any sequence of instruction words from any state: control bits, mode, SPSR, byte order and memory size
   stay, T can differ at the end only if some word loads r15, memory only if some word stores.
   */
  lemma {:induction false} ProgramKeeps(host: Host, s: State, program: seq<Word>)
    ensures var t := Run(host, s, program);
      && SameConfiguration(s, t) && t.cycles == s.cycles && SameControl(Cpsr(t), Cpsr(s))
      && (Flag(Cpsr(t), T) != Flag(Cpsr(s), T) ==> exists w :: w in program && LoadsPc(w))
      && (t.mem != s.mem ==> exists w :: w in program && Stores(w))
    decreases |program|
  {
    if program == [] {
    } else {
      var m := |program| - 1;
      ProgramKeeps(host, s, program[..m]);
      ProgramStep(host, Run(host, s, program[..m]), program[m]);
      assert program[m] in program && forall w :: w in program[..m] ==> w in program;
    }
  }

  /** The part of DispatchKeeps that a run accumulates. */
  lemma ProgramStep(host: Host, s: State, ins: Word)
    ensures var t := Dispatch(host, s, ins);
      && SameConfiguration(s, t) && t.cycles == s.cycles && SameControl(Cpsr(t), Cpsr(s))
      && (Flag(Cpsr(t), T) != Flag(Cpsr(s), T) ==> LoadsPc(ins))
      && (t.mem != s.mem ==> Stores(ins))
  {
    DispatchKeeps(host, s, ins);
  }

  /** What holds from creation on: user mode, and the control bits of the reset value 0x1D3. */
  ghost predicate Configured(s: State) {
    s.mode == USR && SameControl(Cpsr(s), 0x1D3)
  }

  lemma StepKeeps(host: Host, s: State)
    requires s.mode == USR
    ensures var t := Step(host, s).0;
      && SameConfiguration(s, t) && t.cycles == Add(s.cycles, 1)
      && (SameControl(Cpsr(t), Cpsr(s)) || SameControl(Cpsr(t), 0x1D3))
      && (t.mem != s.mem ==> WordOk(s.mem, FetchAddress(s)) && Stores(MemWord(s, FetchAddress(s), 0)))
  {
    var a := FetchAddress(s);
    if WordOk(s.mem, a) {
      DispatchKeeps(host, AfterFetch(s), MemWord(s, a, 0));
    }
  }

  lemma ConfiguredStep(host: Host, s: State)
    requires Configured(s)
    ensures Configured(Step(host, s).0) && SameConfiguration(s, Step(host, s).0)
    ensures Step(host, s).0.cycles == Add(s.cycles, 1)
  {
    StepKeeps(host, s);
  }

  ghost predicate KeptBy(s: State, t: State) {
    Configured(t) && SameConfiguration(s, t) && t.cycles == Add(s.cycles, 1)
  }

  lemma {:induction false} IterateKeeps(advance: State -> (State, bool), s: State, n: nat)
    requires forall u: State {:trigger KeptBy(u, advance(u).0)} :: Configured(u) ==> KeptBy(u, advance(u).0)
    requires Configured(s)
    ensures var (t, exited) := Iterate(advance, s, n);
      && Configured(t) && SameConfiguration(s, t)
      && (!exited ==> t.cycles == Wrap(s.cycles + n))
    decreases n
  {
    if n == 0 {
    } else {
      IterateKeeps(advance, s, n - 1);
      var u := Iterate(advance, s, n - 1).0;
      assert KeptBy(u, advance(u).0);
      WrapInner(s.cycles + n - 1, 1);
    }
  }

  /**
   Every run of steps from a processor as it is created, whatever is in memory: user mode, so that
   writes to the user bank always take effect; control bits of CPSR as after reset; memory of the same
   size; and a cycle counted for every step.
   */
  lemma RunKeeps(host: Host, s: State, n: nat)
    requires Configured(s)
    ensures var (t, exited) := Iterate(Advance(host), s, n);
      && Configured(t) && SameConfiguration(s, t)
      && (!exited ==> t.cycles == Wrap(s.cycles + n))
  {
    forall u: State | Configured(u)
      ensures KeptBy(u, Advance(host)(u).0)
    {
      ConfiguredStep(host, u);
    }
    IterateKeeps(Advance(host), s, n);
  }

  /**
   The source's code: a processor is created and stepped at most n times. It takes k steps, all n unless
   the simulation exits, and is then in the state of k steps of the model, a configured one.
   */
  method CreateAndStep(host: Host, mem: Memory, n: nat) returns (p: ArmCore, exited: bool, ghost k: nat)
    requires mem.Valid()
    modifies mem.data
    ensures p.Valid() && fresh(p) && p.mem == mem && p.host == host
    ensures k <= n && (exited || k == n)
    ensures var s := old(Created(mem.data[..], mem.isBigEndian));
      && (p.Now(), exited) == Iterate(Advance(host), s, k)
      && Configured(p.Now()) && SameConfiguration(s, p.Now())
      && (!exited ==> p.Now().cycles == Wrap(k))
  {
    p := new ArmCore(host, mem);
    ghost var s := p.Now();
    exited := false;
    var i := 0;
    while i < n && !exited
      invariant p.Valid() && p.host == host && p.mem == mem && fresh(p) && fresh(p.reg) && fresh(p.reg.data) && i <= n
      invariant (p.Now(), exited) == Iterate(Advance(host), s, i)
    {
      var outcome := ArmStep(p);
      exited := outcome.Exited?;
      i := i + 1;
    }
    k := i;
    RunKeeps(host, s, i);
  }
}
