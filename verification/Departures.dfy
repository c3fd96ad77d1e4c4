/**
 Operations that do not do what the manual, or their own comment, says of them on all inputs: each
 lemma gives exactly the inputs on which they do.
 */
module Departures {
  import opened Bits
  import opened Core
  import opened DataProcessing
  import opened LoadStore
  import opened Manual
  import opened MemoryArea
  import opened BlockTransfer
  import opened FlagLaws
  import opened Shifts

  // ----- RSB and ADDS -----

  /**
   RSB promises val2 - val1 and computes val1 - val2: the same word exactly when the operands are equal
   or half the word range apart. Against the promised subtraction Z is always right, N exactly when the
   word is, C exactly when val1 is not 0, and V under a test on the operands.
   */
  lemma ReverseSubtract(cpsr: Word, a: Word, b: Word)
    ensures var x := Flags(3, cpsr, a, b);
      var same := a == b || a == b + 0x8000_0000 || b == a + 0x8000_0000;
      && (Result(3, a, b, Flag(cpsr, C)) == Sub(b, a) <==> same)
      && (Flag(x, Z) <==> Sub(b, a) == 0)
      && ((Flag(x, N) <==> Signed(Sub(b, a)) < 0) <==> same)
      && ((Flag(x, C) <==> b >= a) <==> a != 0)
      && ((Flag(x, V) <==> !(-0x8000_0000 <= Signed(b) - Signed(a) < 0x8000_0000)) <==> ReverseVRight(a, b))
  {
    SubValue(a, b);
    SubValue(b, a);
    ArithmeticFlags(cpsr, Sub(a, b), RsbV(a, b), CmpC(b, a));
  }

  predicate ReverseVRight(a: Word, b: Word) {
    if (Signed(a) < 0) != (Signed(b) < 0) then -0x8000_0000 <= Signed(b) - Signed(a) < 0x8000_0000
    else if Signed(a) < 0 then a < b
    else a >= b
  }

  /**
   ADDS compares its operands for its flags. Each flag is right for the sum exactly under a test on the
   operands.
   */
  lemma AddFlags(cpsr: Word, a: Word, b: Word)
    ensures Flags(4, cpsr, a, b) == Flags(10, cpsr, a, b)
    ensures var x, r := Flags(4, cpsr, a, b), Result(4, a, b, Flag(cpsr, C));
      && ((Flag(x, Z) <==> r == 0) <==> if a == b then a in {0, 0x8000_0000} else a + b != BASE)
      && ((Flag(x, N) <==> Signed(r) < 0) <==> AddNRight(a, b))
      && ((Flag(x, C) <==> Carries(a, b)) <==> b == 0 || (a >= b <==> a >= BASE - b))
      && ((Flag(x, V) <==> AddOverflows(a, b)) <==> AddVRight(a, b))
  {
    ArithmeticFlags(cpsr, Sub(a, b), CmpV(a, b), CmpC(a, b));
    AddValue(a, b);
    SubValue(a, b);
    AddCases(a, b, Add(a, b), Sub(a, b));
  }

  /** The operands without their sign bits. */
  function Magnitude(x: Word): int {
    if x < 0x8000_0000 then x else x - 0x8000_0000
  }

  predicate AddNRight(a: Word, b: Word) {
    Magnitude(b) == 0 || (Magnitude(a) >= Magnitude(b) <==> Magnitude(a) + Magnitude(b) < 0x8000_0000)
  }

  predicate AddVRight(a: Word, b: Word) {
    if (Signed(a) < 0) != (Signed(b) < 0) then true
    else if Signed(a) < 0 then a >= b <==> a + b < BASE + 0x8000_0000
    else a < b <==> a + b >= 0x8000_0000
  }

  lemma AddCases(a: Word, b: Word, sum: Word, difference: Word)
    requires sum == if a + b < BASE then a + b else a + b - BASE
    requires difference == if a >= b then a - b else a - b + BASE
    ensures (difference >= 0x8000_0000 <==> Signed(sum) < 0) <==> AddNRight(a, b)
    ensures (((a < 0x8000_0000 <==> b < 0x8000_0000) && !(a < 0x8000_0000 <==> difference < 0x8000_0000))
             <==> AddOverflows(a, b)) <==> AddVRight(a, b)
    ensures (CmpC(a, b) <==> Carries(a, b)) <==> b == 0 || (a >= b <==> a >= BASE - b)
  {
  }

  /** RSB with val1 = 1 and val2 = 0 gives 1 and not -1; ADDS of 1 and 1 sets Z and C. */
  lemma ReverseAndAddFail(cpsr: Word)
    ensures Result(3, 1, 0, Flag(cpsr, C)) == 1 && Sub(0, 1) == 0xFFFF_FFFF
    ensures Flag(Flags(4, cpsr, 1, 1), Z) && Flag(Flags(4, cpsr, 1, 1), C) && Result(4, 1, 1, Flag(cpsr, C)) == 2
  {
    ReverseSubtract(cpsr, 1, 0);
    AddFlags(cpsr, 1, 1);
    SubValue(0, 1);
  }

  // ----- RSC -----

  /** The result that RSC promises: val2 - val1, and 1 less if C is clear. */
  function ReverseDifference(a: Word, b: Word, c: bool): Word {
    Wrap(b - a - BitOf(!c))
  }

  /**
   When RSC does what it promises. The code writes the register numbered by the low byte of val1, and
   subtracts the number rd: right if val1 is that number; otherwise only if the code changes nothing and
   nothing was to change.
   */
  predicate ReverseCarryRight(s: State, rd: nat, a: Word, b: Word)
    requires rd < 16
  {
    var c, k := Flag(Cpsr(s), C), a % 0x100;
    if k == rd then a == rd
    else s.cells[rd] == ReverseDifference(a, b, c) && (k < 16 ==> s.cells[k] == ReverseDifference(rd, b, c))
  }

  lemma ReverseResult(a: Word, b: Word, c: Byte)
    requires c < 2
    ensures RscResult(a, b, c) == ReverseDifference(a, b, c == 1)
  {
    WrapInner(b - a, if c == 0 then 1 else 0);
  }

  lemma ReverseApart(a: Word, r: Word, b: Word, c: bool)
    requires a != r
    ensures ReverseDifference(a, b, c) != ReverseDifference(r, b, c)
  {
    var d := b - BitOf(!c);
    if a < r {
      WrapApart(d - r, r - a);
    } else {
      WrapApart(d - a, a - r);
    }
  }

  lemma OneWritten(s: State, k: nat, v: Word, rd: nat, w: Word)
    requires rd < 16
    ensures WithReg(s, k, v) == WithReg(s, rd, w) <==>
      if k == rd then v == w else s.cells[rd] == w && (k < 16 ==> s.cells[k] == v)
  {
    var x, y := WithReg(s, k, v), WithReg(s, rd, w);
    assert y.cells[rd] == w;
    if k != rd {
      assert x.cells[rd] == s.cells[rd];
      if k < 16 {
        assert x.cells[k] == v && y.cells[k] == s.cells[k];
      }
      if s.cells[rd] == w && (k < 16 ==> s.cells[k] == v) {
        assert x.cells == s.cells == y.cells;
      }
    } else {
      assert x.cells[rd] == v;
    }
  }

  /** RSC without flags leaves the state that it promises if and only if ReverseCarryRight. */
  lemma ReverseSubtractWithCarry(host: Host, s: State, ins: Word)
    requires ConditionPassed(Cpsr(s), ins) && Decode(host, s, ins).Operands?
    requires GetBits(ins, 24, 21) == 7 && GetBit(ins, 20) == 0
    ensures var o, rd := Decode(host, s, ins), GetBits(ins, 15, 12);
      DataStep(host, s, ins).0 == WithReg(s, rd, ReverseDifference(o.val1, o.val2, Flag(Cpsr(s), C)))
      <==> ReverseCarryRight(s, rd, o.val1, o.val2)
  {
    var o, rd, c := Decode(host, s, ins), GetBits(ins, 15, 12), Flag(Cpsr(s), C);
    ReverseResult(rd, o.val2, GetBit(Cpsr(s), C));
    OneWritten(s, o.val1 % 0x100, ReverseDifference(rd, o.val2, c), rd, ReverseDifference(o.val1, o.val2, c));
    if o.val1 != rd {
      ReverseApart(o.val1, rd, o.val2, c);
    }
  }

  /** RSC r0, r1, r2 with r1 = 16, r2 = 100 and C set leaves r0 as it was. */
  lemma ReverseSubtractWithCarryFails(host: Host, s: State, ins: Word)
    requires ConditionPassed(Cpsr(s), ins) && Decode(host, s, ins) == Operands(16, 100)
    requires GetBits(ins, 24, 21) == 7 && GetBit(ins, 20) == 0 && GetBits(ins, 15, 12) == 0
    requires Flag(Cpsr(s), C)
    ensures ReverseDifference(16, 100, true) == 84 && DataStep(host, s, ins).0 == s
  {
  }

  /** b - a - k is negative as a word. */
  predicate ReverseNegative(a: Word, b: Word, k: Bit) {
    -0x8000_0000 <= b - a - k < 0 || b - a - k >= 0x8000_0000
  }

  /** The carry that the code computes for the register number rd. */
  predicate ReverseCarry(rd: nat, b: Word, c: Bit) {
    if rd == 0 then b + c == 0xFFFF_FFFF else rd >= 2 && rd - 1 <= b + c < BASE
  }

  /** RSCS: each flag is right for val2 - val1, less the borrow, exactly under a test on the operands. */
  lemma ReverseCarryFlags(cpsr: Word, rd: nat, a: Word, b: Word)
    requires rd < 16
    ensures var c := GetBit(cpsr, C);
      var x, r, k := RscFlags(cpsr, rd, b, c), ReverseDifference(a, b, c == 1), 1 - c;
      && ((Flag(x, Z) <==> r == 0) <==> a == rd || (b != rd + k && b != Add(a, k)))
      && ((Flag(x, N) <==> Signed(r) < 0) <==> (ReverseNegative(rd, b, k) <==> ReverseNegative(a, b, k)))
      && ((Flag(x, C) <==> b >= a + k) <==> (ReverseCarry(rd, b, c) <==> b >= a + k))
      && ((Flag(x, V) <==> !(-0x8000_0000 <= Signed(b) - Signed(a) - k < 0x8000_0000))
          <==> -0x8000_0000 <= Signed(b) - Signed(a) - k < 0x8000_0000)
  {
    var c := GetBit(cpsr, C);
    ReverseFlagBits(cpsr, rd, b);
    ReverseResult(rd, b, c);
    ReverseTests(RscFlags(cpsr, rd, b, c), rd, a, b, c);
  }

  lemma ReverseTests(x: Word, rd: nat, a: Word, b: Word, c: Bit)
    requires rd < 16 && (Flag(x, Z) <==> ReverseDifference(rd, b, c == 1) == 0)
    requires Flag(x, N) <==> Signed(ReverseDifference(rd, b, c == 1)) < 0
    requires (Flag(x, C) <==> ReverseCarry(rd, b, c)) && !Flag(x, V)
    ensures var r, k := ReverseDifference(a, b, c == 1), 1 - c;
      && ((Flag(x, Z) <==> r == 0) <==> a == rd || (b != rd + k && b != Add(a, k)))
      && ((Flag(x, N) <==> Signed(r) < 0) <==> (ReverseNegative(rd, b, k) <==> ReverseNegative(a, b, k)))
      && ((Flag(x, C) <==> b >= a + k) <==> (ReverseCarry(rd, b, c) <==> b >= a + k))
      && ((Flag(x, V) <==> !(-0x8000_0000 <= Signed(b) - Signed(a) - k < 0x8000_0000))
          <==> -0x8000_0000 <= Signed(b) - Signed(a) - k < 0x8000_0000)
  {
    ReverseZN(rd, a, b, c == 1);
  }

  lemma ReverseZN(rd: nat, a: Word, b: Word, c: bool)
    requires rd < 16
    ensures var x, r, k := ReverseDifference(rd, b, c), ReverseDifference(a, b, c), BitOf(!c);
      && ((x == 0 <==> r == 0) <==> a == rd || (b != rd + k && b != Add(a, k)))
      && ((Signed(x) < 0 <==> Signed(r) < 0) <==> (ReverseNegative(rd, b, k) <==> ReverseNegative(a, b, k)))
  {
    ReverseSigns(rd, b, c);
    ReverseSigns(a, b, c);
    SumsApart(rd, a, BitOf(!c));
  }

  lemma SumsApart(rd: nat, a: Word, k: Bit)
    requires rd < 16
    ensures Add(rd, k) == rd + k && (Add(a, k) == rd + k <==> a == rd)
  {
    AddValue(a, k);
  }

  lemma ReverseSigns(a: Word, b: Word, c: bool)
    ensures var r, k := ReverseDifference(a, b, c), BitOf(!c);
      && (Signed(r) < 0 <==> ReverseNegative(a, b, k))
      && (r == 0 <==> b == Add(a, k))
  {
    var k := BitOf(!c);
    AddValue(a, k);
    var m := WrapMultiple(b - a - k);
    assert m in {-2, -1, 0};
  }

  lemma ReverseFlagBits(cpsr: Word, rd: nat, b: Word)
    requires rd < 16
    ensures var c := GetBit(cpsr, C);
      var x, r := RscFlags(cpsr, rd, b, c), RscResult(rd, b, c);
      && (Flag(x, Z) <==> r == 0) && (Flag(x, N) <==> Signed(r) < 0)
      && (Flag(x, C) <==> ReverseCarry(rd, b, c)) && !Flag(x, V)
  {
    var c := GetBit(cpsr, C);
    var r, carry := RscResult(rd, b, c), Sub(Sub(0xFFFF_FFFF, b), c) < Add(Not(rd), 2);
    CarryThenV(NZ(cpsr, r), c != 0, carry, false);
    ArithmeticFlags(cpsr, r, false, carry);
    ReverseCarryTest(rd, b, c);
  }

  lemma ReverseCarryTest(rd: nat, b: Word, c: Bit)
    requires rd < 16
    ensures Sub(Sub(0xFFFF_FFFF, b), c) < Add(Not(rd), 2) <==> ReverseCarry(rd, b, c)
  {
    SubValue(0xFFFF_FFFF, b);
    SubValue(0xFFFF_FFFF - b, c);
    AddValue(Not(rd), 2);
  }

  // ----- Immediate operands -----

  lemma {:induction false} OrAtLeast(x: nat, y: nat)
    ensures Bitwise(Or, x, y) >= x && Bitwise(Or, x, y) >= y
    decreases x, y
  {
    if x == 0 && y == 0 {
    } else {
      OrAtLeast(x / 2, y / 2);
    }
  }

  /** The rotation that the manual defines for an 8-bit immediate: over 32 bits. */
  function ManualImmediate(imm: Byte, n: nat): int
    requires n <= 31
  {
    imm % Pow2(n) * Pow2(32 - n) + imm / Pow2(n)
  }

  lemma RotationCases(imm: Byte, n: nat, p: nat, q: nat, code: Word)
    requires n in {2, 4, 6, 8} && p == Pow2(n) && q == Pow2(32 - n) && imm > 0
    requires code >= imm && code < 0x1_0000
    ensures code != ManualImmediate(imm, n)
  {
    Pow2Table();
    assert p * q == BASE by { PowerSum(n, 32 - n); }
    assert q >= 0x100_0000 && p >= 4;
    QuotientBelow(imm, p);
    var low := imm % p;
    if low == 0 {
      assert imm / p < imm;
    } else {
      MulAtLeast(q, low);
    }
  }

  /** The code keeps all of the immediate in the low sixteen bits, and none of it below its own value. */
  lemma RotatedRange(host: Host, ins: Word, imm: Byte, n: nat)
    requires n == 2 * GetBits(ins, 11, 8) && imm == ins % 0x100 && n in {2, 4, 6, 8}
    ensures imm <= RotatedImmediate(host, ins) < 0x1_0000
    ensures imm == 0 ==> RotatedImmediate(host, ins) == 0
  {
    var low, high := Halved(imm, n), Doubled(imm, 8 - n);
    assert imm <= high < 0x1_0000 by {
      Pow2Table();
      assert Pow2(2) == 4;
      DoubledIsProduct(imm, 8 - n);
    }
    assert RotatedImmediate(host, ins) == Bitwise(Or, low, high);
    OrAtLeast(low, high);
    assert Bitwise(Or, low, high) < 0x1_0000 by {
      Pow2Table();
      BitwiseBound(Or, low, high, 16);
    }
    if imm == 0 {
      assert Bitwise(Or, 0, 0) == 0;
    }
  }

  /**
   A rotated immediate (rotation field 1 to 4; the code shifts by a negative count from 5 on) is the
   manual's exactly when it is 0: the code rotates over 8 bits and keeps the shifted-out part low.
   */
  lemma ImmediateRotation(host: Host, ins: Word)
    requires 1 <= GetBits(ins, 11, 8) <= 4
    ensures RotatedImmediate(host, ins) == ManualImmediate(ins % 0x100, 2 * GetBits(ins, 11, 8)) <==> ins % 0x100 == 0
  {
    var imm, n := ins % 0x100, 2 * GetBits(ins, 11, 8);
    RotatedRange(host, ins, imm, n);
    if imm > 0 {
      RotationCases(imm, n, Pow2(n), Pow2(32 - n), RotatedImmediate(host, ins));
    } else {
      DivUnique(0, Pow2(n), 0, 0);
      assert ManualImmediate(imm, n) == 0;
    }
  }

  /** An immediate of 1 rotated by 2 bits is 0x40000000 in the manual, and 64 here. */
  lemma ImmediateRotationFails(host: Host, ins: Word)
    requires GetBits(ins, 11, 8) == 1 && ins % 0x100 == 1
    ensures RotatedImmediate(host, ins) == 64 && ManualImmediate(1, 2) == 0x4000_0000
  {
    Pow2Table();
    assert Pow2(2) == 4 && Doubled(1, 6) == 64;
    assert Halved(1, 2) == 0;
    OrZero(64);
  }

  // ----- Scaled offsets -----

  /** When the offset of the code, which takes every type but LSL for ROR or RRX, is the one meant. */
  predicate IndexRight(rm: Word, shift: nat, amount: nat, c: bool)
  {
    if shift == 0 || (shift == 3 && amount != 0) then true
    else if amount == 0 then !c && rm < (if shift == 3 then 4 else 2)
    else if shift == 1 then rm % Pow2(amount) == 0
    else rm % Pow2(amount) == (if Signed(rm) < 0 then Pow2(amount) - 1 else 0)
  }

  lemma RotatedLow(host: Host, rm: Word, n: nat)
    requires 1 <= n <= 31
    ensures Ror(host, rm, n) == rm / Pow2(n) <==> rm % Pow2(n) == 0
  {
    var low: nat, q: nat := rm % Pow2(n), Pow2(32 - n);
    RotateRight(host, rm, n);
    if low > 0 {
      MulAtLeast(low, q);
    }
  }

  lemma SameTop(low: nat, p: nat, q: nat)
    requires low < p && q > 0
    ensures low * q == (p - 1) * q <==> low == p - 1
  {
    assert (p - 1) * q - low * q == (p - 1 - low) * q;
    if low != p - 1 {
      MulAtLeast(q, p - 1 - low);
    }
  }

  lemma RotatedNegative(host: Host, rm: Word, n: nat)
    requires 1 <= n <= 31 && rm >= 0x8000_0000
    ensures Ror(host, rm, n) == Asr(host, rm, n) <==> rm % Pow2(n) == Pow2(n) - 1
  {
    PowersOfWord(n);
    RotateRight(host, rm, n);
    ShiftNegative(host, rm, n, Pow2(n), Pow2(32 - n));
    SameTop(rm % Pow2(n), Pow2(n), Pow2(32 - n));
  }

  lemma RotatedSign(host: Host, rm: Word, n: nat)
    requires 1 <= n <= 31
    ensures Ror(host, rm, n) == Asr(host, rm, n) <==> rm % Pow2(n) == (if Signed(rm) < 0 then Pow2(n) - 1 else 0)
  {
    if rm >= 0x8000_0000 {
      RotatedNegative(host, rm, n);
    } else {
      RotatedLow(host, rm, n);
      ShiftPositive(host, rm, n);
    }
  }

  /** The scaled register offset is the manual's if and only if IndexRight, whatever register and flags. */
  lemma ScaledOffsets(host: Host, s: State, ins: Word)
    requires GetBit(ins, 25) == 1
    ensures var rm, c := Reg(s, GetBits(ins, 3, 0)), Flag(Cpsr(s), C);
      var shift, amount := GetBits(ins, 6, 5), GetBits(ins, 11, 7);
      Index(host, s, ins) == ImmediateShift(shift, rm, amount, c).value <==> IndexRight(rm, shift, amount, c)
  {
    var rm, amount := Reg(s, GetBits(ins, 3, 0)), GetBits(ins, 11, 7);
    if amount != 0 {
      ShiftsAgree(host, rm, amount, Flag(Cpsr(s), C));
      RotatedLow(host, rm, amount);
      RotatedSign(host, rm, amount);
    }
  }

  /** An offset of 3 shifted right by one bit, type LSR, is 1 in the manual, and 0x80000001 here. */
  lemma ScaledOffsetsFail(host: Host, s: State, ins: Word)
    requires GetBit(ins, 25) == 1 && GetBits(ins, 6, 5) == 1 && GetBits(ins, 11, 7) == 1
    requires Reg(s, GetBits(ins, 3, 0)) == 3
    ensures Index(host, s, ins) == 0x8000_0001 && ImmediateShift(1, 3, 1, Flag(Cpsr(s), C)).value == 1
  {
    Pow2Table();
    assert Pow2(1) == 2;
    RotateRight(host, 3, 1);
  }

  // ----- Halfword transfers with post-indexing -----

  lemma MovesAgree(base: int, low: nat, offset: Word)
    requires low < 16
    ensures Add(base, low) == Add(base, offset) <==> low == offset
    ensures Add(base, low) == Sub(base, offset) <==> low + offset in {0, BASE}
  {
    if offset > low {
      WrapApart(base + low, offset - low);
    } else if offset < low {
      WrapApart(base + offset, low - offset);
    }
    if low + offset > BASE {
      WrapApart(base - offset + BASE, low + offset - BASE);
      assert Sub(base, offset) == Wrap(base - offset + BASE) by { WrapInner(base - offset, BASE); }
    } else if 0 < offset + low < BASE {
      WrapApart(base - offset, offset + low);
    }
  }

  /** The offset that the manual defines; the code cuts that of a register to eight bits. */
  function ManualHalfOffset(s: State, ins: Word): Word {
    if GetBit(ins, 22) == 1 then GetBits(ins, 11, 8) * 16 + GetBits(ins, 3, 0) else Reg(s, GetBits(ins, 3, 0))
  }

  function MovedByHalf(s: State, ins: Word): Word {
    var base := Reg(s, GetBits(ins, 19, 16));
    if GetBit(ins, 23) == 1 then Add(base, ManualHalfOffset(s, ins)) else Sub(base, ManualHalfOffset(s, ins))
  }

  /** Without post-indexing the address is the one meant if and only if the offset is below 256. */
  lemma HalfPreIndexed(s: State, ins: Word)
    requires GetBit(ins, 24) == 1
    ensures HalfAddress(s, ins) == MovedByHalf(s, ins) <==> ManualHalfOffset(s, ins) < 0x100
  {
    var base: int, offset: int := Reg(s, GetBits(ins, 19, 16)), ManualHalfOffset(s, ins);
    var cut := offset % 0x100;
    if offset >= 0x100 {
      WrapApart(base + cut, offset - cut);
      WrapApart(base - offset, offset - cut);
    }
  }

  /** LDRH rd,[rn,rm] with rm = 256 reads at rn. */
  lemma HalfPreIndexedFails(s: State, ins: Word)
    requires GetBit(ins, 24) == 1 && GetBit(ins, 23) == 1 && GetBit(ins, 22) == 0
    requires Reg(s, GetBits(ins, 3, 0)) == 0x100
    ensures HalfAddress(s, ins) == Reg(s, GetBits(ins, 19, 16)) != MovedByHalf(s, ins)
  {
    HalfPreIndexed(s, ins);
    assert Add(Reg(s, GetBits(ins, 19, 16)), 0) == Reg(s, GetBits(ins, 19, 16));
  }

  /**
   A post-indexed halfword transfer that passes should move its base by the offset, up or down. Without
   W the code moves it up by the low four bits of the word: right exactly when that is the offset up, or
   with the offset down adds up to 0 or 2^32. With W it moves it back: right exactly when the offset is 0.
   The base keeps that value unless the transfer loads it.
   */
  lemma HalfPostIndexed(host: Host, s: State, ins: Word)
    requires GetBits(ins, 7, 4) == 11 && GetBit(ins, 24) == 0 && ConditionPassed(Cpsr(s), ins)
    ensures var rn, low, offset := GetBits(ins, 19, 16), GetBits(ins, 3, 0), ManualHalfOffset(s, ins);
      && (HalfBack(s, ins).cells[rn] == MovedByHalf(s, ins) <==>
            if GetBit(ins, 21) == 1 then offset == 0
            else if GetBit(ins, 23) == 1 then offset == low
            else low + offset in {0, BASE})
      && (GetBit(ins, 20) == 0 || GetBits(ins, 15, 12) != rn ==>
            HalfStep(host, s, ins).0.cells[rn] == HalfBack(s, ins).cells[rn])
  {
    var base := Reg(s, GetBits(ins, 19, 16));
    MovesAgree(base, GetBits(ins, 3, 0), ManualHalfOffset(s, ins));
    MovesAgree(base, 0, ManualHalfOffset(s, ins));
    assert Add(base, 0) == base;
  }

  /** LDRH rd,[rn],#16 leaves rn where it was. */
  lemma HalfPostIndexedFails(host: Host, s: State, ins: Word)
    requires GetBits(ins, 7, 4) == 11 && GetBit(ins, 24) == 0 && ConditionPassed(Cpsr(s), ins)
    requires GetBit(ins, 23) == 1 && GetBit(ins, 22) == 1 && GetBit(ins, 21) == 0
    requires GetBits(ins, 11, 8) == 1 && GetBits(ins, 3, 0) == 0
    requires GetBits(ins, 19, 16) < 15 && GetBits(ins, 15, 12) != GetBits(ins, 19, 16)
    ensures var rn := GetBits(ins, 19, 16);
      HalfStep(host, s, ins).0.cells[rn] == s.cells[rn] != Add(s.cells[rn], 16)
  {
    HalfPostIndexed(host, s, ins);
    var base := s.cells[GetBits(ins, 19, 16)];
    assert Add(base, 0) == base;
  }

  // ----- Lists with r15, or with the base -----

  /**
   The code does not count r15: a list with it gets the block and the base of a list without. The manual
   counts it: the block begins where it should exactly when the base moves up, a base written back is wrong.
   */
  lemma UncountedPc(s: State, ins: Word)
    requires ConditionPassed(Cpsr(s), ins) && GetBit(ins, 15) == 1
    ensures var base, n := Reg(s, GetBits(ins, 19, 16)), |Listed(ins)| + 1;
      var before, up := GetBit(ins, 24) == 1, GetBit(ins, 23) == 1;
      && (MeantSlot(s, ins, 0) == MeantStart(base, n, before, up) <==> up)
      && (GetBit(ins, 21) == 1 ==> MeantCells(s, ins)[GetBits(ins, 19, 16)] != MovedBy(base, up, 4 * n))
  {
    OneMoreWord(Reg(s, GetBits(ins, 19, 16)), |Listed(ins)|, GetBit(ins, 24) == 1, GetBit(ins, 23) == 1);
  }

  lemma OneMoreWord(base: Word, m: nat, before: bool, up: bool)
    ensures Wrap(MeantStart(base, m, before, up) + 4 * 0) == MeantStart(base, m + 1, before, up) <==> up
    ensures MovedBy(base, up, 4 * m) != MovedBy(base, up, 4 * (m + 1))
  {
    var x: int, start := base, MeantStart(base, m, before, up);
    assert Wrap(start + 4 * 0) == start;
    WrapApart(x - 4 * (m + 1), 4);
    WrapApart(x + 4 * m, 4);
    if !before {
      WrapApart(x - 4 * (m + 1) + 4, 4);
    }
  }

  /** STM never stores r15: a byte outside the listed words below r15 stays as it was. */
  lemma PcNotStored(s: State, ins: Word, a: Word)
    requires ConditionPassed(Cpsr(s), ins) && GetBit(ins, 20) == 0 && GetBit(ins, 15) == 1
    requires a == MeantSlot(s, ins, |Listed(ins)|)
    ensures MemWord(MultipleStep(s, ins).0, a, 0) == MemWord(s, a, 0)
  {
    StoreMultiple(s, ins);
    var t := MultipleStep(s, ins).0;
    if WordOk(s.mem, a) {
      forall i: nat | a <= i < a + 4
        ensures t.mem[i] == s.mem[i]
      {
        PcOutside(s, ins, i);
      }
      assert t.mem[a..a + 4] == s.mem[a..a + 4];
    }
  }

  lemma PcOutside(s: State, ins: Word, i: nat)
    requires MeantSlot(s, ins, |Listed(ins)|) <= i < MeantSlot(s, ins, |Listed(ins)|) + 4
    ensures Outside(s, ins, i)
  {
    BlockMeant(s, ins);
    forall k | 0 <= k < |Listed(ins)|
      ensures !(MeantSlot(s, ins, k) <= i < MeantSlot(s, ins, k) + 4)
    {
      SlotsDisjoint(Block(s, ins), k, |Listed(ins)|);
    }
  }

  /** STM with write-back stores a base in its list after moving it, never as it was. */
  lemma ListedBaseStored(s: State, ins: Word, k: nat)
    requires ConditionPassed(Cpsr(s), ins) && GetBit(ins, 20) == 0 && GetBit(ins, 21) == 1
    requires k < |Listed(ins)| && Listed(ins)[k] == GetBits(ins, 19, 16) && WordOk(s.mem, MeantSlot(s, ins, k))
    ensures var rn, n := GetBits(ins, 19, 16), |Listed(ins)|;
      MemWord(MultipleStep(s, ins).0, MeantSlot(s, ins, k), 0) ==
        MovedBy(s.cells[rn], GetBit(ins, 23) == 1, 4 * n) != s.cells[rn]
  {
    StoreMultiple(s, ins);
    MovedAway(s.cells[GetBits(ins, 19, 16)], GetBit(ins, 23) == 1, 4 * |Listed(ins)|);
  }

  lemma MovedAway(base: Word, up: bool, d: nat)
    requires 0 < d < BASE
    ensures MovedBy(base, up, d) != base
  {
    var x: int := base;
    WrapApart(x, d);
    WrapApart(x - d, d);
    assert Wrap(x) == base;
  }

  // ----- LDM of r15 -----

  /** A multiple load of r15 sets it to the word without its low bit exactly when the word is 0. */
  lemma LoadedPc(s: State, ins: Word)
    requires ConditionPassed(Cpsr(s), ins) && GetBit(ins, 20) == 1 && GetBit(ins, 15) == 1
    ensures var word := Loaded(s, Block(s, ins), |Listed(ins)|);
      MultipleStep(s, ins).0.cells[15] == word - word % 2 <==> word == 0
  {
    LoadsPlaced(s, ins);
  }

  /** A multiple load of r15 from a word that holds 0x8000 jumps to address 1. */
  lemma LoadedPcFails(s: State, ins: Word)
    requires ConditionPassed(Cpsr(s), ins) && GetBit(ins, 20) == 1 && GetBit(ins, 15) == 1
    requires Loaded(s, Block(s, ins), |Listed(ins)|) == 0x8000
    ensures MultipleStep(s, ins).0.cells[15] == 1
  {
    LoadsPlaced(s, ins);
  }
}
