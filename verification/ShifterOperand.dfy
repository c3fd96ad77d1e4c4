/**
 The second operand of data processing and the carry of the shifter, against the manual (section A5.1):
 exactly when the code has the operand right, and the C flag of the logical operations and moves.
 */
module ShifterOperand {
  import opened Bits
  import opened Core
  import opened DataProcessing
  import opened Departures
  import opened FlagLaws
  import opened Mirror
  import opened Shifts

  /** The shifter operand and the shifter carry out that the manual defines. */
  function ManualOperand(s: State, ins: Word): Shifted {
    var c, rm, shift := Flag(Cpsr(s), C), Reg(s, GetBits(ins, 3, 0)), GetBits(ins, 6, 5);
    if GetBit(ins, 25) == 1 then
      var v := ManualImmediate(ins % 0x100, 2 * GetBits(ins, 11, 8));
      Shifted(v, if GetBits(ins, 11, 8) == 0 then c else v >= 0x8000_0000)
    else if GetBit(ins, 4) == 0 then ImmediateShift(shift, rm, GetBits(ins, 11, 7), c)
    else ShiftBy(shift, rm, Reg(s, GetBits(ins, 11, 8)) % 0x100, c)
  }

  /** The shift count of a register operand. */
  function Count(s: State, ins: Word): nat {
    if GetBit(ins, 4) == 0 then GetBits(ins, 11, 7) else Reg(s, GetBits(ins, 11, 8)) % 0x100
  }

  /** C defines the shifts by which the code computes the operand: no count below 0 or above 31. */
  predicate CountsDefined(s: State, ins: Word) {
    if GetBit(ins, 25) == 1 then GetBits(ins, 11, 8) <= 4
    else Count(s, ins) < 32 && (Count(s, ins) == 0 && GetBit(ins, 6) == 1 ==> Signed(Reg(s, GetBits(ins, 3, 0))) >= 0)
  }

  /**
   When the operand is the one meant. The code takes LSR for LSL and ROR for ASR, a count of 0 in the
   instruction for no shift, and rotates immediates over eight bits.
   */
  predicate OperandRight(s: State, ins: Word) {
    var rm, shift, n := Reg(s, GetBits(ins, 3, 0)), GetBits(ins, 6, 5), Count(s, ins);
    if GetBit(ins, 25) == 1 then GetBits(ins, 11, 8) == 0 || ins % 0x100 == 0
    else if n == 0 then GetBit(ins, 4) == 1 || shift == 0 || (rm == 0 && !(shift == 3 && Flag(Cpsr(s), C)))
    else if shift == 1 then RepeatsDigit(rm, n, 32)
    else if shift == 3 then rm % Pow2(n) == (if Signed(rm) < 0 then Pow2(n) - 1 else 0)
    else true
  }

  // ----- The operand -----

  lemma Unrotated(imm: Byte)
    ensures ManualImmediate(imm, 0) == imm
  {
    assert Pow2(0) == 1;
  }

  lemma NoShift(host: Host, rm: Word)
    ensures Shl(host, rm, 0) == rm
    ensures Signed(rm) >= 0 ==> Asr(host, rm, 0) == rm
  {
    SignBit(rm);
    OrNothing(rm);
  }

  /** The shift type of the code: bit 5 is ignored. */
  lemma ShiftType(ins: Word)
    ensures GetBits(ins, 6, 5) == 2 * GetBit(ins, 6) + GetBit(ins, 5)
  {
    var x := Halved(ins, 5);
    assert Low(x, 2) == 2 * Low(x / 2, 1) + x % 2;
    assert Low(x / 2, 1) == x / 2 % 2;
    GetBitIsShift(ins, 5);
    GetBitIsShift(ins, 6);
    HalvedIsQuotient(ins, 5);
    HalfOfQuotient(ins);
  }

  lemma HalfOfQuotient(x: nat)
    ensures x / Pow2(5) / 2 == x / Pow2(6)
  {
    assert Pow2(5) == 32 && Pow2(6) == 64;
    var q := x / 32;
    DivUnique(x, 64, q / 2, 32 * (q % 2) + x % 32);
  }

  /** A shift left is the shift right that is meant if and only if the bits of the word repeat. */
  lemma RightTakenForLeft(host: Host, rm: Word, n: nat, c: bool)
    requires 1 <= n <= 31
    ensures Shl(host, rm, n) == ShiftBy(1, rm, n, c).value <==> RepeatsDigit(rm, n, 32)
  {
    PowersOfWord(32 - n);
    ShiftedLeft(host, rm, 32 - n, Pow2(32 - n), Pow2(n));
    assert rm < Pow2(32) by { Pow2Table(); assert Pow2(32) == 16 * Pow2(28); }
    MeetIffRepeats(rm, n, 32);
  }

  /** What the code makes of a register for the four types. */
  function Taken(host: Host, shift: nat, rm: Word, n: nat): Word {
    if shift < 2 then Shl(host, rm, n) else Asr(host, rm, n)
  }

  lemma Shifting(host: Host, shift: nat, rm: Word, n: nat, c: bool)
    requires shift < 4 && 1 <= n <= 31
    ensures Taken(host, shift, rm, n) == ShiftBy(shift, rm, n, c).value <==>
      if shift == 1 then RepeatsDigit(rm, n, 32)
      else shift == 3 ==> rm % Pow2(n) == (if Signed(rm) < 0 then Pow2(n) - 1 else 0)
  {
    ShiftsAgree(host, rm, n, c);
    if shift == 1 {
      RightTakenForLeft(host, rm, n, c);
    } else if shift == 3 {
      RotatedSign(host, rm, n);
    }
  }

  lemma NotShifting(host: Host, shift: nat, rm: Word, c: bool)
    requires shift < 4 && (shift >= 2 ==> Signed(rm) >= 0)
    ensures Taken(host, shift, rm, 0) == rm == ShiftBy(shift, rm, 0, c).value
    ensures Taken(host, shift, rm, 0) == ImmediateShift(shift, rm, 0, c).value <==>
      shift == 0 || (rm == 0 && !(shift == 3 && c))
  {
    NoShift(host, rm);
  }

  lemma TakenByCode(host: Host, s: State, ins: Word)
    requires GetBit(ins, 25) == 0 && Decode(host, s, ins).Operands?
    ensures Decode(host, s, ins).val2 == Taken(host, GetBits(ins, 6, 5), Reg(s, GetBits(ins, 3, 0)), Count(s, ins))
  {
    ShiftType(ins);
  }

  /** The operand decoded is the one that the manual means if and only if OperandRight. */
  lemma OperandDecoded(host: Host, s: State, ins: Word)
    requires Decode(host, s, ins).Operands? && CountsDefined(s, ins)
    ensures Decode(host, s, ins).val2 == ManualOperand(s, ins).value <==> OperandRight(s, ins)
  {
    var rm, shift, n, c := Reg(s, GetBits(ins, 3, 0)), GetBits(ins, 6, 5), Count(s, ins), Flag(Cpsr(s), C);
    if GetBit(ins, 25) == 1 {
      if GetBits(ins, 11, 8) == 0 {
        Unrotated(ins % 0x100);
      } else {
        ImmediateRotation(host, ins);
      }
    } else {
      TakenByCode(host, s, ins);
      ShiftType(ins);
      if n == 0 {
        NotShifting(host, shift, rm, c);
      } else {
        Shifting(host, shift, rm, n, c);
      }
    }
  }

  /** LSR #1 of 2 is 1 in the manual, and 4 here. */
  lemma OperandDecodedFails(host: Host, s: State, ins: Word)
    requires GetBit(ins, 25) == 0 && GetBit(ins, 4) == 0 && GetBits(ins, 6, 5) == 1 && GetBits(ins, 11, 7) == 1
    requires Reg(s, GetBits(ins, 3, 0)) == 2
    ensures Decode(host, s, ins).val2 == 4 && ManualOperand(s, ins).value == 1
  {
    TakenByCode(host, s, ins);
    assert Pow2(1) == 2 && Doubled(2, 1) == 4;
  }

  // ----- The carry -----

  lemma FlagsCarry(op: nat, cpsr: Word, a: Word, b: Word)
    requires op in {0, 1, 8, 9, 12, 14}
    ensures Flag(Flags(op, cpsr, a, b), C) <==> op == 12 && Flag(cpsr, C)
    ensures Flag(Flags(op, cpsr, a, b), V) <==> Flag(cpsr, V)
  {
    LogicCV(cpsr, BitwiseWord(And, a, b));
    LogicCV(cpsr, BitwiseWord(Xor, a, b));
    LogicCV(cpsr, BitwiseWord(Or, a, b));
    LogicCV(cpsr, BitwiseWord(And, a, Not(b)));
  }

  lemma ExecutedCarry(s: State, op: nat, rd: nat, a: Word, b: Word)
    requires op in {0, 1, 8, 9, 12, 13, 14, 15} && rd < 16
    ensures var x := Cpsr(Execute(s, op, true, rd, a, b));
      && (Flag(x, C) <==> op in {12, 13, 15} && Flag(Cpsr(s), C))
      && (Flag(x, V) <==> Flag(Cpsr(s), V))
  {
    if IsMove(op) {
      LogicCV(Cpsr(s), Reg(WithReg(s, rd, Result(op, a, b, Flag(Cpsr(s), C))), rd));
    } else {
      FlagsCarry(op, Cpsr(s), a, b);
    }
  }

  /**
   Logical operations and moves with flags should put the shifter's carry in C. AND, EOR, TST, TEQ and
   BIC clear C: right exactly when that carry is 0. ORR, MOV and MVN keep it: right exactly when the carry
   is the C they found. V is kept, as it should be.
   */
  lemma LogicalCarry(host: Host, s: State, ins: Word)
    requires ConditionPassed(Cpsr(s), ins) && Decode(host, s, ins).Operands? && GetBit(ins, 20) == 1
    ensures var op, x := GetBits(ins, 24, 21), Cpsr(DataStep(host, s, ins).0);
      var c, carry := Flag(Cpsr(s), C), ManualOperand(s, ins).carry;
      && (op in {0, 1, 8, 9, 14} ==> ((Flag(x, C) <==> carry) <==> !carry))
      && (op in {12, 13, 15} ==> ((Flag(x, C) <==> carry) <==> (carry <==> c)))
      && (op in {0, 1, 8, 9, 12, 13, 14, 15} ==> (Flag(x, V) <==> Flag(Cpsr(s), V)))
  {
    var op, o := GetBits(ins, 24, 21), Decode(host, s, ins);
    if op in {0, 1, 8, 9, 12, 13, 14, 15} {
      ExecutedCarry(s, op, GetBits(ins, 15, 12), o.val1, o.val2);
    }
  }

  /** An operand that is not shifted or rotated carries C out: moves are right, the others iff C is clear. */
  lemma UnshiftedCarry(s: State, ins: Word)
    requires if GetBit(ins, 25) == 1 then GetBits(ins, 11, 8) == 0
      else Count(s, ins) == 0 && (GetBit(ins, 4) == 1 || GetBits(ins, 6, 5) == 0)
    ensures ManualOperand(s, ins).carry == Flag(Cpsr(s), C)
  {
  }

  /** TST of an unshifted operand loses a C that is set. */
  lemma LogicalCarryFails(host: Host, s: State, ins: Word)
    requires ConditionPassed(Cpsr(s), ins) && GetBit(ins, 25) == 1 && GetBits(ins, 11, 8) == 0
    requires GetBits(ins, 24, 21) == 8 && GetBit(ins, 20) == 1 && Flag(Cpsr(s), C)
    ensures ManualOperand(s, ins).carry && !Flag(Cpsr(DataStep(host, s, ins).0), C)
  {
    UnshiftedCarry(s, ins);
    LogicalCarry(host, s, ins);
  }
}
