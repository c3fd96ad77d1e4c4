/**
 Data processing end to end: exactly when the state after an instruction is the one that the manual means.
 */
module DataAgreement {
  import opened Bits
  import opened Core
  import opened DataProcessing
  import opened Departures
  import opened FlagLaws
  import opened Instruction
  import opened Manual
  import opened RunInvariants
  import opened ShifterOperand
  import opened Shifts

  // ----- The operands that the code decodes -----

  lemma EightBits(imm: Byte, k: nat)
    requires k in {2, 4, 6, 8}
    ensures 0 <= imm / Pow2(k) < Pow2(8 - k) <= 64 && 0 <= imm * Pow2(8 - k) < 0x1_0000
  {
    assert Pow2(0) == 1 && Pow2(2) == 4 && Pow2(4) == 16 && Pow2(6) == 64 && Pow2(8) == 256;
  }

  /** The second operand as the code has it: rotated over eight bits, or shifted by LSL or ASR. */
  function CodeOperand(s: State, ins: Word): Word {
    var imm, k := ins % 0x100, 2 * GetBits(ins, 11, 8);
    if GetBit(ins, 25) == 1 then
      if 0 < k <= 8 then
        EightBits(imm, k);
        imm / Pow2(k) + imm * Pow2(8 - k)
      else imm
    else
      ShiftBy(2 * GetBit(ins, 6), Reg(s, GetBits(ins, 3, 0)), Count(s, ins), Flag(Cpsr(s), C)).value
  }

  /** The words with bits 25, 7 and 4 at 0, 1 and 1 are no data processing. */
  predicate Decodable(ins: Word) {
    GetBit(ins, 25) == 1 || GetBit(ins, 7) == 0 || GetBit(ins, 4) == 0
  }

  lemma RotatedParts(host: Host, ins: Word, k: nat)
    requires k == 2 * GetBits(ins, 11, 8) && 0 < k <= 8
    ensures RotatedImmediate(host, ins) == Bitwise(Or, Halved(ins % 0x100, k), Wrap(Doubled(ins % 0x100, 8 - k)))
  {
  }

  lemma RotatedValue(host: Host, ins: Word, k: nat)
    requires k == 2 * GetBits(ins, 11, 8) && 0 < k <= 8
    ensures RotatedImmediate(host, ins) == ins % 0x100 / Pow2(k) + ins % 0x100 * Pow2(8 - k)
  {
    var imm := ins % 0x100;
    EightBits(imm, k);
    var low: nat, high: nat := imm / Pow2(k), imm * Pow2(8 - k);
    HalvedIsQuotient(imm, k);
    DoubledIsProduct(imm, 8 - k);
    OrOfParts(low, imm, 8 - k);
    RotatedParts(host, ins, k);
  }

  lemma ShiftedValue(host: Host, rm: Word, n: nat, c: bool)
    requires n < 32
    ensures Shl(host, rm, n) == ShiftBy(0, rm, n, c).value
    ensures n > 0 || Signed(rm) >= 0 ==> Asr(host, rm, n) == ShiftBy(2, rm, n, c).value
  {
    if n == 0 {
      NoShift(host, rm);
    } else {
      ShiftsAgree(host, rm, n, c);
    }
  }

  /** The first operand is Rn, the second CodeOperand. */
  lemma OperandsDecoded(host: Host, s: State, ins: Word)
    requires CountsDefined(s, ins) && Decodable(ins)
    ensures Decode(host, s, ins) == Operands(Reg(s, GetBits(ins, 19, 16)), CodeOperand(s, ins))
  {
    if GetBit(ins, 25) == 1 {
      if GetBits(ins, 11, 8) != 0 {
        RotatedValue(host, ins, 2 * GetBits(ins, 11, 8));
      }
    } else {
      ShiftedValue(host, Reg(s, GetBits(ins, 3, 0)), Count(s, ins), Flag(Cpsr(s), C));
    }
  }

  // ----- The flags -----

  lemma WithFlagsBits(cpsr: Word, n: bool, z: bool, c: bool, v: bool, j: nat)
    ensures GetBit(WithFlags(cpsr, n, z, c, v), j) ==
      if j == V then BitOf(v) else if j == C then BitOf(c)
      else if j == Z then BitOf(z) else if j == N then BitOf(n) else GetBit(cpsr, j)
  {
    var x := Put(cpsr, N, n);
    var y := Put(x, Z, z);
    PutGet(cpsr, N, n, j);
    PutGet(x, Z, z, j);
    PutGet(y, C, c, j);
    PutGet(Put(y, C, c), V, v, j);
  }

  lemma WithFlagsKeeps(cpsr: Word, n: bool, z: bool, c: bool, v: bool)
    ensures OnlyNZCV(WithFlags(cpsr, n, z, c, v), cpsr)
    ensures FlagsAre(WithFlags(cpsr, n, z, c, v), n, z, c, v)
  {
    forall j: nat
      ensures j !in {N, Z, C, V} ==> GetBit(WithFlags(cpsr, n, z, c, v), j) == GetBit(cpsr, j)
    {
      WithFlagsBits(cpsr, n, z, c, v, j);
    }
    WithFlagsBits(cpsr, n, z, c, v, N);
    WithFlagsBits(cpsr, n, z, c, v, Z);
    WithFlagsBits(cpsr, n, z, c, v, C);
    WithFlagsBits(cpsr, n, z, c, v, V);
  }

  lemma SameFlags(x: Word, y: Word, cpsr: Word, n: bool, z: bool, c: bool, v: bool)
    requires OnlyNZCV(x, cpsr) && OnlyNZCV(y, cpsr) && FlagsAre(x, n, z, c, v) && FlagsAre(y, n, z, c, v)
    ensures x == y
  {
    assert Pow2(32) == BASE by { Pow2Table(); assert Pow2(32) == 16 * Pow2(28); }
    forall j: nat | j < 32
      ensures GetBit(x, j) == GetBit(y, j)
    {
      assert j in {N, Z, C, V} || GetBit(x, j) == GetBit(cpsr, j) == GetBit(y, j);
    }
    BitsDecide(x, y, 32);
  }

  /** A status word that differs from the old one in the flags at most is decided by the flags. */
  lemma FlagsDecide(x: Word, cpsr: Word, n: bool, z: bool, c: bool, v: bool)
    requires OnlyNZCV(x, cpsr)
    ensures x == WithFlags(cpsr, n, z, c, v) <==> FlagsAre(x, n, z, c, v)
  {
    WithFlagsKeeps(cpsr, n, z, c, v);
    if FlagsAre(x, n, z, c, v) {
      SameFlags(x, WithFlags(cpsr, n, z, c, v), cpsr, n, z, c, v);
    }
  }

  /** The flags that an operation should leave on a status word. */
  ghost predicate MeantFlags(x: Word, op: nat, cpsr: Word, a: Word, b: Word, carry: bool) {
    var c, r := Flag(cpsr, C), MeantResult(op, a, b, Flag(cpsr, C));
    FlagsAre(x, Signed(r) < 0, r == 0, MeantCarry(op, a, b, c, carry), MeantOverflow(op, a, b, c, Flag(cpsr, V)))
  }

  /** MeantFlags decides the status word. */
  lemma MeantDecides(x: Word, op: nat, cpsr: Word, a: Word, b: Word, carry: bool)
    requires OnlyNZCV(x, cpsr)
    ensures x == MeantCpsr(op, cpsr, a, b, carry) <==> MeantFlags(x, op, cpsr, a, b, carry)
  {
    var c, r := Flag(cpsr, C), MeantResult(op, a, b, Flag(cpsr, C));
    FlagsDecide(x, cpsr, Signed(r) < 0, r == 0,
      MeantCarry(op, a, b, c, carry), MeantOverflow(op, a, b, c, Flag(cpsr, V)));
  }

  predicate HalfApart(a: Word, b: Word) {
    a == b || a == b + 0x8000_0000 || b == a + 0x8000_0000
  }

  /** When the flags of an operation other than RSC are the ones meant: a test on the operands. */
  predicate FlagsAgree(op: nat, a: Word, b: Word, c: bool, carry: bool) {
    match op
    case 2 => b != 0 && (Signed(Sub(a, b)) < 0 <==> Signed(a) < 0)
    case 3 => HalfApart(a, b) && a != 0 && ReverseVRight(a, b)
    case 4 =>
      && (if a == b then a in {0, 0x8000_0000} else a + b != BASE)
      && AddNRight(a, b) && AddVRight(a, b)
      && (b == 0 || (a >= b <==> a >= BASE - b))
    case 5 => !(c && b in {0xFFFF_FFFF, 0x7FFF_FFFF})
    case 6 => if c then BorrowlessAgree(a, b) else BorrowVRight(a, b)
    case 10 => b != 0 && (Signed(Sub(a, b)) < 0 <==> Signed(a) < 0)
    case 11 => true
    case 12 => carry == c
    case 13 => carry == c
    case 15 => carry == c
    case _ => !carry
  }

  predicate BorrowlessAgree(a: Word, b: Word) {
    && a !in {b, Add(b, 1), Add(b, 2), Add(b, 0x8000_0000), Add(b, 0x8000_0001)}
    && CarryCRight(a, b) && CarryVRight(a, b)
  }

  lemma LogicalFlags(op: nat, cpsr: Word, a: Word, b: Word, carry: bool)
    requires op in {0, 1, 8, 9, 12, 14}
    ensures MeantFlags(Flags(op, cpsr, a, b), op, cpsr, a, b, carry) <==> FlagsAgree(op, a, b, Flag(cpsr, C), carry)
  {
    var r := MeantResult(op, a, b, Flag(cpsr, C));
    FlagsCarry(op, cpsr, a, b);
    LogicBits(cpsr, r, N);
    LogicBits(cpsr, r, Z);
  }

  lemma CompareFlags(op: nat, cpsr: Word, a: Word, b: Word, carry: bool)
    requires op in {2, 10}
    ensures MeantFlags(Flags(op, cpsr, a, b), op, cpsr, a, b, carry) <==> FlagsAgree(op, a, b, Flag(cpsr, C), carry)
  {
    Compare(cpsr, a, b);
    SubValue(a, b);
  }

  lemma AdditionFlags(op: nat, cpsr: Word, a: Word, b: Word, carry: bool)
    requires op in {4, 5, 11}
    ensures MeantFlags(Flags(op, cpsr, a, b), op, cpsr, a, b, carry) <==> FlagsAgree(op, a, b, Flag(cpsr, C), carry)
  {
    if op == 4 {
      AddFlags(cpsr, a, b);
    } else if op == 5 {
      AddWithCarry(cpsr, a, b);
    } else {
      CompareNegative(cpsr, a, b);
      AddValue(a, b);
    }
  }

  lemma ReverseFlags(cpsr: Word, a: Word, b: Word, carry: bool)
    ensures MeantFlags(Flags(3, cpsr, a, b), 3, cpsr, a, b, carry) <==> FlagsAgree(3, a, b, Flag(cpsr, C), carry)
  {
    ReverseSubtract(cpsr, a, b);
  }

  lemma BorrowFlags(cpsr: Word, a: Word, b: Word, carry: bool)
    ensures MeantFlags(Flags(6, cpsr, a, b), 6, cpsr, a, b, carry) <==> FlagsAgree(6, a, b, Flag(cpsr, C), carry)
  {
    if Flag(cpsr, C) {
      SubtractWithCarry(cpsr, a, b);
    } else {
      SubtractWithBorrow(cpsr, a, b);
    }
  }

  lemma OperationFlags(op: nat, cpsr: Word, a: Word, b: Word, carry: bool)
    requires op < 16 && op !in {7, 13, 15}
    ensures Flags(op, cpsr, a, b) == MeantCpsr(op, cpsr, a, b, carry) <==> FlagsAgree(op, a, b, Flag(cpsr, C), carry)
  {
    FlagsKeepOthers(op, cpsr, a, b, 0);
    MeantDecides(Flags(op, cpsr, a, b), op, cpsr, a, b, carry);
    if op in {2, 10} {
      CompareFlags(op, cpsr, a, b, carry);
    } else if op in {4, 5, 11} {
      AdditionFlags(op, cpsr, a, b, carry);
    } else if op == 3 {
      ReverseFlags(cpsr, a, b, carry);
    } else if op == 6 {
      BorrowFlags(cpsr, a, b, carry);
    } else {
      LogicalFlags(op, cpsr, a, b, carry);
    }
  }

  lemma MoveFlags(op: nat, cpsr: Word, a: Word, b: Word, carry: bool)
    requires op in {13, 15}
    ensures NZ(cpsr, MeantResult(op, a, b, Flag(cpsr, C))) == MeantCpsr(op, cpsr, a, b, carry)
      <==> FlagsAgree(op, a, b, Flag(cpsr, C), carry)
  {
    var c, r := Flag(cpsr, C), MeantResult(op, a, b, Flag(cpsr, C));
    LogicCV(cpsr, r);
    LogicBits(cpsr, r, N);
    LogicBits(cpsr, r, Z);
    FlagsKeepOthers(op, cpsr, r, b, 0);
    MeantDecides(NZ(cpsr, r), op, cpsr, a, b, carry);
  }

  /** When the flags of RSCS are the ones meant, rd being subtracted instead of a. */
  predicate ReverseCarryAgree(rd: nat, a: Word, b: Word, c: Bit)
    requires rd < 16
  {
    var k := 1 - c;
    && (a == rd || (b != rd + k && b != Add(a, k)))
    && (ReverseNegative(rd, b, k) <==> ReverseNegative(a, b, k))
    && (ReverseCarry(rd, b, c) <==> b >= a + k)
    && -0x8000_0000 <= Signed(b) - Signed(a) - k < 0x8000_0000
  }

  lemma ReverseBorrowMeant(x: Word, cpsr: Word, rd: nat, a: Word, b: Word, carry: bool)
    requires rd < 16 && x == RscFlags(cpsr, rd, b, GetBit(cpsr, C))
    ensures MeantFlags(x, 7, cpsr, a, b, carry) <==> ReverseCarryAgree(rd, a, b, GetBit(cpsr, C))
  {
    ReverseCarryFlags(cpsr, rd, a, b);
    MeantReverse(a, b, Flag(cpsr, C), carry, Flag(cpsr, V));
  }

  lemma MeantReverse(a: Word, b: Word, c: bool, carry: bool, v: bool)
    ensures MeantResult(7, a, b, c) == ReverseDifference(a, b, c)
    ensures MeantCarry(7, a, b, c, carry) <==> b >= a + BitOf(!c)
    ensures MeantOverflow(7, a, b, c, v) <==> !(-0x8000_0000 <= Signed(b) - Signed(a) - BitOf(!c) < 0x8000_0000)
  {
  }

  lemma ReverseBorrowFlags(cpsr: Word, rd: nat, a: Word, b: Word, carry: bool)
    requires rd < 16
    ensures RscFlags(cpsr, rd, b, GetBit(cpsr, C)) == MeantCpsr(7, cpsr, a, b, carry)
      <==> ReverseCarryAgree(rd, a, b, GetBit(cpsr, C))
  {
    var x := RscFlags(cpsr, rd, b, GetBit(cpsr, C));
    FlagsKeepOthers(7, cpsr, rd, b, GetBit(cpsr, C));
    MeantDecides(x, 7, cpsr, a, b, carry);
    ReverseBorrowMeant(x, cpsr, rd, a, b, carry);
  }

  // ----- The state -----

  /** A register and the status word are written independently. */
  lemma PartsDecide(t: State, u: State, x: Word, y: Word)
    requires t.cells[16] == u.cells[16]
    ensures WithCpsr(t, x) == WithCpsr(u, y) <==> t == u && x == y
  {
    var t1, u1 := WithCpsr(t, x), WithCpsr(u, y);
    if t1 == u1 {
      assert t1.cells[16] == x && u1.cells[16] == y;
      forall i | 0 <= i < 18
        ensures t.cells[i] == u.cells[i]
      {
        assert i != 16 ==> t1.cells[i] == t.cells[i] && u1.cells[i] == u.cells[i];
      }
      assert t.cells == u.cells;
      assert t == t1.(cells := t.cells) && u == u1.(cells := u.cells);
    }
  }

  /**
   When the state after an operation is the one meant: RSB needs operands that are equal or half the word
   range apart, RSC operands for which its mistake does not show, and with flags those must agree.
   */
  predicate DataRight(s: State, op: nat, withFlags: bool, rd: nat, a: Word, b: Word, carry: bool)
    requires rd < 16
  {
    && (op == 3 ==> HalfApart(a, b))
    && (op == 7 ==> ReverseCarryRight(s, rd, a, b))
    && (withFlags && op == 7 ==> ReverseCarryAgree(rd, a, b, GetBit(Cpsr(s), C)))
    && (withFlags && op != 7 ==> FlagsAgree(op, a, b, Flag(Cpsr(s), C), carry))
  }

  lemma ResultsMeant(op: nat, a: Word, b: Word, c: bool)
    requires op < 16 && op !in {3, 7, 8, 9, 10, 11}
    ensures Result(op, a, b, c) == MeantResult(op, a, b, c)
  {
  }

  lemma RscState(s: State, rd: nat, a: Word, b: Word)
    requires rd < 16
    ensures var c := Flag(Cpsr(s), C);
      WithReg(s, a % 0x100, RscResult(rd, b, GetBit(Cpsr(s), C))) == WithReg(s, rd, ReverseDifference(a, b, c))
      <==> ReverseCarryRight(s, rd, a, b)
  {
    var c := Flag(Cpsr(s), C);
    ReverseResult(rd, b, GetBit(Cpsr(s), C));
    OneWritten(s, a % 0x100, ReverseDifference(rd, b, c), rd, ReverseDifference(a, b, c));
    if a != rd {
      ReverseApart(a, rd, b, c);
    }
  }

  lemma ExecuteRsc(s: State, withFlags: bool, rd: nat, a: Word, b: Word, carry: bool)
    requires rd < 16
    ensures Execute(s, 7, withFlags, rd, a, b) == MeantData(s, 7, withFlags, rd, a, b, carry)
      <==> DataRight(s, 7, withFlags, rd, a, b, carry)
  {
    var c, bit := Flag(Cpsr(s), C), GetBit(Cpsr(s), C);
    var v, w := RscResult(rd, b, bit), ReverseDifference(a, b, c);
    RscState(s, rd, a, b);
    if withFlags {
      ReverseBorrowFlags(Cpsr(s), rd, a, b, carry);
      PartsDecide(WithReg(s, a % 0x100, v), WithReg(s, rd, w), RscFlags(Cpsr(s), rd, b, bit),
        MeantCpsr(7, Cpsr(s), a, b, carry));
    }
  }

  lemma ExecuteRest(s: State, op: nat, withFlags: bool, rd: nat, a: Word, b: Word, carry: bool)
    requires op < 16 && op != 7 && rd < 16 && (8 <= op <= 11 ==> withFlags) && (withFlags && IsMove(op) ==> rd != 15)
    ensures Execute(s, op, withFlags, rd, a, b) == MeantData(s, op, withFlags, rd, a, b, carry)
      <==> DataRight(s, op, withFlags, rd, a, b, carry)
  {
    var cpsr, c := Cpsr(s), Flag(Cpsr(s), C);
    var v, w := Result(op, a, b, c), MeantResult(op, a, b, c);
    var t, u := if IsCompare(op) then s else WithReg(s, rd, v), if IsCompare(op) then s else WithReg(s, rd, w);
    if op == 3 {
      ReverseSubtract(cpsr, a, b);
      OneWritten(s, rd, v, rd, w);
    } else if !IsCompare(op) {
      ResultsMeant(op, a, b, c);
    }
    if withFlags && IsMove(op) {
      MoveFlags(op, cpsr, a, b, carry);
      PartsDecide(t, u, NZ(cpsr, v), MeantCpsr(op, cpsr, a, b, carry));
    } else if withFlags {
      OperationFlags(op, cpsr, a, b, carry);
      PartsDecide(t, u, Flags(op, cpsr, a, b), MeantCpsr(op, cpsr, a, b, carry));
    }
  }

  /** The words that the dispatch sends to data processing, and that the operand decoder accepts. */
  predicate IsOperation(ins: Word) {
    IsDataProcessing(ins) && Decodable(ins)
  }

  /** With flags, or a comparison. Comparisons without S stand for other instructions in the manual. */
  predicate SetsFlags(ins: Word) {
    GetBit(ins, 20) == 1 || IsCompare(GetBits(ins, 24, 21))
  }

  /**
   Data processing in every state, for all sixteen operations, all operands whose shift counts C defines,
   with and without flags: the state is the one that the manual means, for the first operand Rn and the
   second operand that the code decodes, if and only if DataRight.
   */
  lemma DataExecuted(host: Host, s: State, ins: Word, carry: bool)
    requires IsOperation(ins) && ConditionPassed(Cpsr(s), ins) && CountsDefined(s, ins)
    requires SetsFlags(ins) && IsMove(GetBits(ins, 24, 21)) ==> GetBits(ins, 15, 12) != 15
    ensures var op, rd, a, b := GetBits(ins, 24, 21), GetBits(ins, 15, 12), Reg(s, GetBits(ins, 19, 16)),
      CodeOperand(s, ins);
      Dispatch(host, s, ins) == MeantData(s, op, SetsFlags(ins), rd, a, b, carry)
      <==> DataRight(s, op, SetsFlags(ins), rd, a, b, carry)
  {
    var op, rd, a, b := GetBits(ins, 24, 21), GetBits(ins, 15, 12), Reg(s, GetBits(ins, 19, 16)), CodeOperand(s, ins);
    OperandsDecoded(host, s, ins);
    if op == 7 {
      ExecuteRsc(s, SetsFlags(ins), rd, a, b, carry);
    } else {
      ExecuteRest(s, op, SetsFlags(ins), rd, a, b, carry);
    }
  }

  /** The same with the operand of the manual, where the code decodes that one. */
  lemma DataAgrees(host: Host, s: State, ins: Word, b: Word, carry: bool)
    requires IsOperation(ins) && ConditionPassed(Cpsr(s), ins) && CountsDefined(s, ins) && OperandRight(s, ins)
    requires SetsFlags(ins) && IsMove(GetBits(ins, 24, 21)) ==> GetBits(ins, 15, 12) != 15
    requires ManualOperand(s, ins) == Shifted(b, carry)
    ensures var op, rd, a := GetBits(ins, 24, 21), GetBits(ins, 15, 12), Reg(s, GetBits(ins, 19, 16));
      Dispatch(host, s, ins) == MeantData(s, op, SetsFlags(ins), rd, a, b, carry)
      <==> DataRight(s, op, SetsFlags(ins), rd, a, b, carry)
  {
    OperandsDecoded(host, s, ins);
    OperandDecoded(host, s, ins);
    DataExecuted(host, s, ins, carry);
  }

  /** Without S nothing but rd changes, and rd gets the result: every operation but RSB and RSC. */
  lemma PlainOperation(host: Host, s: State, ins: Word, b: Word, carry: bool)
    requires IsOperation(ins) && ConditionPassed(Cpsr(s), ins) && CountsDefined(s, ins) && OperandRight(s, ins)
    requires GetBit(ins, 20) == 0 && GetBits(ins, 24, 21) !in {3, 7, 8, 9, 10, 11}
    requires ManualOperand(s, ins) == Shifted(b, carry)
    ensures Dispatch(host, s, ins) == WithReg(s, GetBits(ins, 15, 12),
      MeantResult(GetBits(ins, 24, 21), Reg(s, GetBits(ins, 19, 16)), b, Flag(Cpsr(s), C)))
  {
    DataAgrees(host, s, ins, b, carry);
  }

  /** Without S no operation but a comparison changes the status word, whatever its operands. */
  lemma PlainKeepsFlags(host: Host, s: State, ins: Word)
    requires IsDataProcessing(ins) && GetBit(ins, 20) == 0 && GetBits(ins, 24, 21) !in {8, 9, 10, 11}
    ensures Cpsr(Dispatch(host, s, ins)) == Cpsr(s)
  {
    var o := Decode(host, s, ins);
    if ConditionPassed(Cpsr(s), ins) && o.Operands? {
      PlainExecution(s, GetBits(ins, 24, 21), GetBits(ins, 15, 12), o.val1, o.val2);
    }
  }

  lemma PlainExecution(s: State, op: nat, rd: nat, a: Word, b: Word)
    requires rd < 16 && !IsCompare(op)
    ensures Cpsr(Execute(s, op, false, rd, a, b)) == Cpsr(s)
  {
  }

  /** Words whose bits 27..25 are 0 and 7..4 are 1001, 1101 or 1111, as multiplications, do nothing. */
  lemma RejectedWords(host: Host, s: State, ins: Word)
    requires GetBits(ins, 27, 25) == 0 && GetBits(ins, 7, 4) in {9, 13, 15}
    ensures Dispatch(host, s, ins) == s
  {
    DecoderRejects(host, s, ins);
  }
}
