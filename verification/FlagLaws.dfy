/**
 What the flags mean after data-processing instructions, and exactly when they mean what the
 operation promises.
 */
module FlagLaws {
  import opened Bits
  import opened Core
  import opened DataProcessing

  // ----- Reading single bits back -----

  /** Every bit of CPSR after an arithmetic operation. */
  lemma ArithmeticBits(cpsr: Word, r: Word, v: bool, c: bool, carry: bool, j: nat)
    ensures var x := CarryUnless(Put(NZ(cpsr, r), V, v), c, carry);
      GetBit(x, j) == if j == N then BitOf(r >= 0x8000_0000)
                      else if j == Z then BitOf(r == 0)
                      else if j == C then (if c != carry then BitOf(carry) else GetBit(cpsr, C))
                      else if j == V then BitOf(v)
                      else GetBit(cpsr, j)
  {
    var a := Put(cpsr, Z, r == 0);
    var b := NZ(cpsr, r);
    var d := Put(b, V, v);
    forall i: nat | i == j || i == C
      ensures GetBit(d, i) == if i == V then BitOf(v) else if i == N then BitOf(r >= 0x8000_0000)
                              else if i == Z then BitOf(r == 0) else GetBit(cpsr, i)
    {
      PutGet(cpsr, Z, r == 0, i);
      PutGet(a, N, r >= 0x8000_0000, i);
      PutGet(b, V, v, i);
    }
    PutGet(d, C, if c != carry then carry else Flag(d, C), j);
  }

  lemma LogicBits(cpsr: Word, r: Word, j: nat)
    ensures GetBit(NZ(cpsr, r), j) == if j == N then BitOf(r >= 0x8000_0000)
                                      else if j == Z then BitOf(r == 0) else GetBit(cpsr, j)
    ensures GetBit(LogicFlags(cpsr, r), j) == if j == C then 0 else GetBit(NZ(cpsr, r), j)
  {
    PutGet(cpsr, Z, r == 0, j);
    PutGet(Put(cpsr, Z, r == 0), N, r >= 0x8000_0000, j);
    PutGet(NZ(cpsr, r), C, false, j);
  }

  /** The four flags of an operation whose c is the C it found: the two conditional writes are one assignment. */
  ghost predicate FlagsAre(cpsr: Word, n: bool, z: bool, c: bool, v: bool) {
    && (Flag(cpsr, N) <==> n) && (Flag(cpsr, Z) <==> z) && (Flag(cpsr, C) <==> c) && (Flag(cpsr, V) <==> v)
  }

  lemma ArithmeticFlags(cpsr: Word, r: Word, v: bool, carry: bool)
    ensures FlagsAre(CarryUnless(Put(NZ(cpsr, r), V, v), Flag(cpsr, C), carry), r >= 0x8000_0000, r == 0, carry, v)
  {
    forall j | j == N || j == Z || j == C || j == V {
      ArithmeticBits(cpsr, r, v, Flag(cpsr, C), carry, j);
    }
  }

  // ----- CMN -----

  /**
   CMN: C is the carry out of the 33-bit sum, V signed overflow, Z and N describe the sum; and N equals
   V, the condition GE, exactly when the sum of the signed operands over the integers is not negative.
   */
  lemma CompareNegative(cpsr: Word, a: Word, b: Word)
    ensures FlagsAre(Flags(11, cpsr, a, b), Signed(Add(a, b)) < 0, a + b == 0 || a + b == BASE, a + b >= BASE,
                     !(-0x8000_0000 <= Signed(a) + Signed(b) < 0x8000_0000))
    ensures (Flag(Flags(11, cpsr, a, b), N) <==> Flag(Flags(11, cpsr, a, b), V)) <==> Signed(a) + Signed(b) >= 0
  {
    ArithmeticFlags(cpsr, Add(a, b), AddOverflows(a, b), Carries(a, b));
    AddValue(a, b);
    SignedSum(a, b, Add(a, b));
  }

  lemma SignedSum(a: Word, b: Word, r: Word)
    requires r == if a + b < BASE then a + b else a + b - BASE
    ensures (Signed(r) < 0 <==> AddOverflows(a, b)) <==> Signed(a) + Signed(b) >= 0
  {
  }

  /** What the sixteen conditions decide about a sum after CMN: unsigned and signed, over the integers. */
  predicate SumMeets(cond: nat, a: Word, b: Word) {
    var sum, signed := a + b, Signed(a) + Signed(b);
    match cond
    case 0 => sum == 0 || sum == BASE
    case 1 => sum != 0 && sum != BASE
    case 2 => sum >= BASE
    case 3 => sum < BASE
    case 4 => 0x8000_0000 <= sum < BASE || sum >= BASE + 0x8000_0000
    case 5 => sum < 0x8000_0000 || BASE <= sum < BASE + 0x8000_0000
    case 6 => signed < -0x8000_0000 || signed >= 0x8000_0000
    case 7 => -0x8000_0000 <= signed < 0x8000_0000
    case 8 => sum > BASE
    case 9 => sum <= BASE
    case 10 => signed >= 0
    case 11 => signed < 0
    case 12 => signed > 0
    case 13 => signed <= 0
    case 14 => true
    case _ => false
  }

  lemma Conditions(cpsr: Word, a: Word, b: Word, ins: Word)
    ensures ConditionPassed(Flags(11, cpsr, a, b), ins) <==> SumMeets(GetBits(ins, 31, 28), a, b)
  {
    CompareNegative(cpsr, a, b);
    AddValue(a, b);
  }

  /** The conditions 0 to 13 come in pairs, each one the negation of the other. */
  lemma ConditionPairs(cpsr: Word, x: Word, y: Word)
    requires GetBits(x, 31, 28) % 2 == 0 && GetBits(x, 31, 28) < 14 && GetBits(y, 31, 28) == GetBits(x, 31, 28) + 1
    ensures ConditionPassed(cpsr, x) <==> !ConditionPassed(cpsr, y)
  {
  }

  // ----- ADC -----

  /** The sum that ADC promises. */
  function Sum3(a: Word, b: Word, c: bool): int {
    a + b + BitOf(c)
  }

  /**
   ADCS adds the carry to its second operand before it compares. Z and N always describe the
   three-operand sum; C is its carry unless the carry-in meets 0xFFFFFFFF, and V its overflow unless
   the carry-in meets 0x7FFFFFFF. Both exceptions are exact.
   */
  lemma AddWithCarry(cpsr: Word, a: Word, b: Word)
    ensures var c, x := Flag(cpsr, C), Flags(5, cpsr, a, b);
      && Result(5, a, b, c) == Wrap(Sum3(a, b, c))
      && (Flag(x, N) <==> Signed(Wrap(Sum3(a, b, c))) < 0)
      && (Flag(x, Z) <==> Wrap(Sum3(a, b, c)) == 0)
      && ((Flag(x, C) <==> Sum3(a, b, c) >= BASE) <==> !(c && b == 0xFFFF_FFFF))
      && ((Flag(x, V) <==> !(-0x8000_0000 <= Signed(a) + Signed(b) + BitOf(c) < 0x8000_0000)) <==>
           !(c && b == 0x7FFF_FFFF))
  {
    var c := Flag(cpsr, C);
    var b1 := Add(b, BitOf(c));
    ArithmeticFlags(cpsr, Add(a, b1), AddOverflows(a, b1), Carries(a, b1));
    AddValue(b, BitOf(c));
    SumThroughOperand(a, b, c);
  }

  /** With a carry in, 1 + 0xFFFFFFFF loses its carry, and 0 + 0x7FFFFFFF its overflow. */
  lemma AddWithCarryFails(cpsr: Word)
    requires Flag(cpsr, C)
    ensures !Flag(Flags(5, cpsr, 1, 0xFFFF_FFFF), C) && Sum3(1, 0xFFFF_FFFF, true) >= BASE
    ensures !Flag(Flags(5, cpsr, 0, 0x7FFF_FFFF), V) && Sum3(0, 0x7FFF_FFFF, true) >= 0x8000_0000
  {
    AddWithCarry(cpsr, 1, 0xFFFF_FFFF);
    AddWithCarry(cpsr, 0, 0x7FFF_FFFF);
  }

  lemma SumThroughOperand(a: Word, b: Word, c: bool)
    ensures Add(a, Add(b, BitOf(c))) == Wrap(Sum3(a, b, c))
  {
    WrapInner(b + BitOf(c), a);
  }

  // ----- CMP and SUB -----

  /** What CMP and SUBS leave: Z decides equality; C and V are characterised against the manual's meaning. */
  lemma Compare(cpsr: Word, a: Word, b: Word)
    ensures Flags(2, cpsr, a, b) == Flags(10, cpsr, a, b)
    ensures var x := Flags(10, cpsr, a, b);
      && (Flag(x, Z) <==> a == b)
      && (Flag(x, N) <==> Signed(Sub(a, b)) < 0)
      && (Flag(x, C) <==> a >= b && b != 0)
      && ((Flag(x, V) <==> !(-0x8000_0000 <= Signed(a) - Signed(b) < 0x8000_0000))
          <==> (Signed(Sub(a, b)) < 0 <==> Signed(a) < 0))
  {
    ArithmeticFlags(cpsr, Sub(a, b), CmpV(a, b), CmpC(a, b));
    SubValue(a, b);
    SubtractionOverflow(a, b, Sub(a, b));
  }

  lemma SubtractionOverflow(a: Word, b: Word, r: Word)
    requires r == if a >= b then a - b else a - b + BASE
    ensures (((Signed(a) < 0 <==> Signed(b) < 0) && !(Signed(a) < 0 <==> Signed(r) < 0))
             <==> !(-0x8000_0000 <= Signed(a) - Signed(b) < 0x8000_0000))
       <==> (Signed(r) < 0 <==> Signed(a) < 0)
  {
  }

  /** The condition field of an instruction whose other bits do not matter. */
  ghost predicate HasCondition(ins: Word, cond: nat) {
    GetBits(ins, 31, 28) == cond
  }

  /**
   The unsigned conditions after CMP: HS, LO, HI and LS decide >=, <, > and <= if and only if the
   second operand is not 0; EQ and NE always decide equality.
   */
  lemma UnsignedOrder(cpsr: Word, a: Word, b: Word, ins: Word)
    ensures var x := Flags(10, cpsr, a, b);
      && (HasCondition(ins, 0) ==> (ConditionPassed(x, ins) <==> a == b))
      && (HasCondition(ins, 1) ==> (ConditionPassed(x, ins) <==> a != b))
      && (HasCondition(ins, 2) ==> ((ConditionPassed(x, ins) <==> a >= b) <==> b != 0))
      && (HasCondition(ins, 3) ==> ((ConditionPassed(x, ins) <==> a < b) <==> b != 0))
      && (HasCondition(ins, 8) ==> ((ConditionPassed(x, ins) <==> a > b) <==> (b != 0 || a == 0)))
      && (HasCondition(ins, 9) ==> ((ConditionPassed(x, ins) <==> a <= b) <==> (b != 0 || a == 0)))
  {
    Compare(cpsr, a, b);
  }

  /** Operands for which the addition rule that CMP uses for V happens to order signed numbers. */
  predicate SignedCompareWorks(a: Word, b: Word) {
    if Signed(a) >= 0 && Signed(b) >= 0 then Signed(a) >= Signed(b)
    else if Signed(a) < 0 && Signed(b) < 0 then Signed(a) < Signed(b)
    else -0x8000_0000 <= Signed(a) - Signed(b) < 0x8000_0000
  }

  /**
   The signed conditions after CMP: GE and LT decide >= and < if and only if SignedCompareWorks, GT and
   LE decide > and <= if and only if that holds or the operands are equal.
   */
  lemma SignedOrder(cpsr: Word, a: Word, b: Word, ins: Word)
    ensures var x := Flags(10, cpsr, a, b);
      && (HasCondition(ins, 10) ==>
           ((ConditionPassed(x, ins) <==> Signed(a) >= Signed(b)) <==> SignedCompareWorks(a, b)))
      && (HasCondition(ins, 11) ==>
           ((ConditionPassed(x, ins) <==> Signed(a) < Signed(b)) <==> SignedCompareWorks(a, b)))
      && (HasCondition(ins, 12) ==>
            ((ConditionPassed(x, ins) <==> Signed(a) > Signed(b)) <==> a == b || SignedCompareWorks(a, b)))
      && (HasCondition(ins, 13) ==>
            ((ConditionPassed(x, ins) <==> Signed(a) <= Signed(b)) <==> a == b || SignedCompareWorks(a, b)))
  {
    ArithmeticFlags(cpsr, Sub(a, b), CmpV(a, b), CmpC(a, b));
    SubValue(a, b);
    SignedDifference(a, b, Sub(a, b));
  }

  lemma SignedDifference(a: Word, b: Word, r: Word)
    requires r == if a >= b then a - b else a - b + BASE
    ensures var v := (a < 0x8000_0000 <==> b < 0x8000_0000) && !(a < 0x8000_0000 <==> r < 0x8000_0000);
      && ((((r >= 0x8000_0000) == v) <==> Signed(a) >= Signed(b)) <==> SignedCompareWorks(a, b))
      && (a != b ==> r != 0)
  {
  }

  /** CMP with 0: HS fails although every number is at least 0, and HI fails for 1. */
  lemma UnsignedOrderFails(cpsr: Word, a: Word, hs: Word, hi: Word)
    requires HasCondition(hs, 2) && HasCondition(hi, 8)
    ensures !ConditionPassed(Flags(10, cpsr, a, 0), hs) && !ConditionPassed(Flags(10, cpsr, 1, 0), hi)
  {
    UnsignedOrder(cpsr, a, 0, hs);
    UnsignedOrder(cpsr, 1, 0, hi);
  }

  /** CMP of two positive numbers in the wrong order: 1 is reported as not less than 2. */
  lemma SignedOrderFails(cpsr: Word, ins: Word)
    requires HasCondition(ins, 10)
    ensures ConditionPassed(Flags(10, cpsr, 1, 2), ins)
  {
    SignedOrder(cpsr, 1, 2, ins);
  }

  // ----- Z and N against the value left in rd -----

  /** The operations whose flags describe their result; SBC does when it found C clear. */
  predicate DescribesResult(op: nat, c: bool) {
    op in {0, 1, 2, 3, 5, 12, 13, 14, 15} || (op == 6 && !c)
  }

  /** Every bit that an operation with flags leaves, ADD, SBC with carry and RSC apart. */
  lemma FlagsOfResult(op: nat, cpsr: Word, a: Word, b: Word)
    requires DescribesResult(op, Flag(cpsr, C)) && !IsMove(op)
    ensures var x, r := Flags(op, cpsr, a, b), Result(op, a, b, Flag(cpsr, C));
      (Flag(x, N) <==> Signed(r) < 0) && (Flag(x, Z) <==> r == 0)
  {
    var c := Flag(cpsr, C);
    if op == 5 {
      AddWithCarry(cpsr, a, b);
    } else if op == 6 {
      var b1 := Add(b, 1);
      ArithmeticFlags(cpsr, Sub(a, b1), CmpV(a, b1), CmpC(a, b1));
      SubThroughOperand(a, b, 1);
    } else if op == 2 || op == 3 {
      ArithmeticFlags(cpsr, Sub(a, b), CmpV(a, b), CmpC(a, b));
      ArithmeticFlags(cpsr, Sub(a, b), RsbV(a, b), CmpC(b, a));
    } else {
      var r := Result(op, a, b, c);
      LogicBits(cpsr, r, N);
      LogicBits(cpsr, r, Z);
    }
  }

  lemma SubThroughOperand(a: Word, b: Word, d: Word)
    ensures Sub(a, Add(b, d)) == Wrap(a - b - d)
  {
    var k := WrapMultiple(b + d);
    var i := WrapMultiple(a - b - d);
    WrapUnique(a - Wrap(b + d), Wrap(a - b - d), i + k);
  }

  /**
   For AND, EOR, SUB, RSB, ADC, ORR, MOV, BIC and MVN with flags, and for SBC that finds C clear, Z and N
   describe exactly the value left in rd, and no other register changes.
   */
  lemma FlagsDescribeDestination(host: Host, s: State, ins: Word)
    requires ConditionPassed(Cpsr(s), ins) && Decode(host, s, ins).Operands?
    requires DescribesResult(GetBits(ins, 24, 21), Flag(Cpsr(s), C))
    requires GetBit(ins, 20) == 1 && GetBits(ins, 15, 12) != 15
    ensures var (t, status) := DataStep(host, s, ins);
      var rd := GetBits(ins, 15, 12);
      && status == 0 && t.mem == s.mem
      && (Flag(Cpsr(t), Z) <==> t.cells[rd] == 0)
      && (Flag(Cpsr(t), N) <==> Signed(t.cells[rd]) < 0)
      && forall r :: 0 <= r < 16 && r != rd ==> t.cells[r] == s.cells[r]
  {
    var op, rd := GetBits(ins, 24, 21), GetBits(ins, 15, 12);
    var o := Decode(host, s, ins);
    var result := Result(op, o.val1, o.val2, Flag(Cpsr(s), C));
    if IsMove(op) {
      LogicBits(Cpsr(s), result, N);
      LogicBits(Cpsr(s), result, Z);
    } else {
      FlagsOfResult(op, Cpsr(s), o.val1, o.val2);
    }
  }

  // ----- SBC -----

  /** The overflow that SBC promises in V: of the difference of the signed operands less the borrow. */
  predicate BorrowOverflows(a: Word, b: Word, c: bool) {
    !(-0x8000_0000 <= Signed(a) - Signed(b) - BitOf(!c) < 0x8000_0000)
  }

  /**
   SBC that finds C clear takes its flags from a comparison with val2 + 1: Z, N and C are those of the
   three-operand difference. V is right under a test on the operands, since the comparison uses the rule
   for additions.
   */
  lemma SubtractWithBorrow(cpsr: Word, a: Word, b: Word)
    requires !Flag(cpsr, C)
    ensures var x, r := Flags(6, cpsr, a, b), Result(6, a, b, false);
      && (Flag(x, Z) <==> r == 0)
      && (Flag(x, N) <==> Signed(r) < 0)
      && (Flag(x, C) <==> a >= b + 1)
      && ((Flag(x, V) <==> BorrowOverflows(a, b, false)) <==> BorrowVRight(a, b))
  {
    var b1 := Add(b, 1);
    ArithmeticFlags(cpsr, Sub(a, b1), CmpV(a, b1), CmpC(a, b1));
    SubThroughOperand(a, b, 1);
    AddValue(b, 1);
    SubValue(a, b1);
    BorrowVCases(a, b, b1, Sub(a, b1));
  }

  predicate BorrowVRight(a: Word, b: Word) {
    if b in {0x7FFF_FFFF, 0xFFFF_FFFF} then true
    else if (Signed(a) < 0) != (Signed(b) < 0) then -0x8000_0000 <= Signed(a) - Signed(b) - 1 < 0x8000_0000
    else if Signed(a) < 0 then a <= b
    else a > b
  }

  lemma BorrowVCases(a: Word, b: Word, b1: Word, r: Word)
    requires b1 == if b < 0xFFFF_FFFF then b + 1 else 0
    requires r == if a >= b1 then a - b1 else a - b1 + BASE
    ensures (((a < 0x8000_0000 <==> b1 < 0x8000_0000) && !(a < 0x8000_0000 <==> r < 0x8000_0000))
             <==> BorrowOverflows(a, b, false)) <==> BorrowVRight(a, b)
  {
  }

  /** SBC of 1 from 1 with C clear leaves -1 and sets V, although nothing overflows. */
  lemma SubtractWithBorrowFails(cpsr: Word)
    requires !Flag(cpsr, C)
    ensures Flag(Flags(6, cpsr, 1, 1), V) && !BorrowOverflows(1, 1, false)
  {
    SubtractWithBorrow(cpsr, 1, 1);
  }

  /**
   SBC that finds C set subtracts one too many from its flag operand: its flags are those of a comparison
   with val2 + 2. Each flag is right for val1 - val2 exactly under a test on the operands.
   */
  lemma SubtractWithCarry(cpsr: Word, a: Word, b: Word)
    requires Flag(cpsr, C)
    ensures var x, r := Flags(6, cpsr, a, b), Result(6, a, b, true);
      && ((Flag(x, Z) <==> r == 0) <==> a != b && a != Add(b, 2))
      && ((Flag(x, N) <==> Signed(r) < 0)
          <==> a != b && a != Add(b, 1) && a != Add(b, 0x8000_0000) && a != Add(b, 0x8000_0001))
      && ((Flag(x, C) <==> a >= b) <==> CarryCRight(a, b))
      && ((Flag(x, V) <==> BorrowOverflows(a, b, true)) <==> CarryVRight(a, b))
  {
    var b2, r := Add(b, 2), Sub(a, b);
    ArithmeticFlags(cpsr, Sub(a, b2), CmpV(a, b2), CmpC(a, b2));
    WrapInner(a - b, 0);
    assert Result(6, a, b, true) == r;
    AddValue(b, 2);
    SubValue(a, b2);
    SubValue(a, b);
    CarryZNCases(a, b, b2, Sub(a, b2), r);
    CarryVCases(a, b, b2, Sub(a, b2));
  }

  predicate CarryCRight(a: Word, b: Word) {
    if b == 0xFFFF_FFFE then a < b
    else if b == 0xFFFF_FFFF then a in {0, 0xFFFF_FFFF}
    else a != b && a != b + 1
  }

  predicate CarryVRight(a: Word, b: Word) {
    if b == 0x7FFF_FFFE then Signed(a) >= 0 || Signed(a) < -2
    else if b == 0x7FFF_FFFF then Signed(a) >= 0 || -0x8000_0000 < Signed(a) < -1
    else if b == 0xFFFF_FFFE then Signed(a) < 0x7FFF_FFFE
    else if b == 0xFFFF_FFFF then a != 0 && a != 0x7FFF_FFFF
    else if (Signed(a) < 0) != (Signed(b) < 0) then -0x8000_0000 <= Signed(a) - Signed(b) < 0x8000_0000
    else if Signed(a) < 0 then a < b + 2
    else a >= b + 2
  }

  lemma CarryZNCases(a: Word, b: Word, b2: Word, f: Word, r: Word)
    requires b2 == (if b + 2 < BASE then b + 2 else b + 2 - BASE)
    requires f == if a >= b2 then a - b2 else a - b2 + BASE
    requires r == if a >= b then a - b else a - b + BASE
    ensures (f == 0 <==> r == 0) <==> a != b && a != b2
    ensures (f >= 0x8000_0000 <==> Signed(r) < 0)
      <==> a != b && a != Add(b, 1) && a != Add(b, 0x8000_0000) && a != Add(b, 0x8000_0001)
  {
    AddValue(b, 1);
    AddValue(b, 0x8000_0000);
    AddValue(b, 0x8000_0001);
  }

  lemma CarryVCases(a: Word, b: Word, b2: Word, f: Word)
    requires b2 == (if b + 2 < BASE then b + 2 else b + 2 - BASE)
    requires f == if a >= b2 then a - b2 else a - b2 + BASE
    ensures (((a < 0x8000_0000 <==> b2 < 0x8000_0000) && !(a < 0x8000_0000 <==> f < 0x8000_0000))
             <==> BorrowOverflows(a, b, true)) <==> CarryVRight(a, b)
    ensures (b2 != 0 && a >= b2 <==> a >= b) <==> CarryCRight(a, b)
  {
  }

  /** SBC of 1 from 1 with C set leaves 0 and gets all four flags wrong. */
  lemma SubtractWithCarryFails(cpsr: Word)
    requires Flag(cpsr, C)
    ensures var x := Flags(6, cpsr, 1, 1);
      Result(6, 1, 1, true) == 0 && !Flag(x, Z) && Flag(x, N) && !Flag(x, C) && Flag(x, V)
  {
    SubtractWithCarry(cpsr, 1, 1);
  }

  // ----- Logical operations -----

  /** The logical operations clear C or keep it, and keep V. */
  lemma LogicCV(cpsr: Word, r: Word)
    ensures !Flag(LogicFlags(cpsr, r), C) && (Flag(LogicFlags(cpsr, r), V) <==> Flag(cpsr, V))
    ensures (Flag(NZ(cpsr, r), C) <==> Flag(cpsr, C)) && (Flag(NZ(cpsr, r), V) <==> Flag(cpsr, V))
  {
    LogicBits(cpsr, r, C);
    LogicBits(cpsr, r, V);
  }

  /** The logical operations and moves, bit by bit. */
  lemma LogicalResults(a: Word, b: Word, c: bool, i: nat)
    requires i < 32
    ensures GetBit(Result(0, a, b, c), i) == BitOf(GetBit(a, i) == 1 && GetBit(b, i) == 1)
    ensures GetBit(Result(1, a, b, c), i) == BitOf(GetBit(a, i) != GetBit(b, i))
    ensures GetBit(Result(12, a, b, c), i) == BitOf(GetBit(a, i) == 1 || GetBit(b, i) == 1)
    ensures GetBit(Result(14, a, b, c), i) == BitOf(GetBit(a, i) == 1 && GetBit(b, i) == 0)
    ensures GetBit(Result(15, a, b, c), i) == 1 - GetBit(b, i)
  {
    BitwiseGet(And, a, b, i);
    BitwiseGet(Xor, a, b, i);
    BitwiseGet(Or, a, b, i);
    BitwiseGet(And, a, Not(b), i);
    NotGet(b, i);
  }

  // ----- Bits that no operation touches -----

  ghost predicate OnlyNZCV(x: Word, y: Word) {
    forall j: nat :: j !in {N, Z, C, V} ==> GetBit(x, j) == GetBit(y, j)
  }

  /** Data processing changes no bit of CPSR but N, Z, C and V: no operation, RSC included, and no operands. */
  lemma FlagsKeepOthers(op: nat, cpsr: Word, a: Word, b: Word, c: Byte)
    ensures OnlyNZCV(Flags(op, cpsr, a, b), cpsr)
    ensures OnlyNZCV(NZ(cpsr, a), cpsr)
    ensures OnlyNZCV(RscFlags(cpsr, a, b, c), cpsr)
  {
    forall j: nat | j !in {N, Z, C, V}
      ensures GetBit(Flags(op, cpsr, a, b), j) == GetBit(cpsr, j)
      ensures GetBit(NZ(cpsr, a), j) == GetBit(cpsr, j)
      ensures GetBit(RscFlags(cpsr, a, b, c), j) == GetBit(cpsr, j)
    {
      BitKept(op, cpsr, a, b, j);
      LogicBits(cpsr, a, j);
      RscBitKept(cpsr, a, b, c, j);
    }
  }

  lemma BitKept(op: nat, cpsr: Word, a: Word, b: Word, j: nat)
    requires j !in {N, Z, C, V}
    ensures GetBit(Flags(op, cpsr, a, b), j) == GetBit(cpsr, j)
  {
    var c := Flag(cpsr, C);
    match op {
      case 5 => var b1 := Add(b, BitOf(c)); ArithmeticBits(cpsr, Add(a, b1), AddOverflows(a, b1), c, Carries(a, b1), j);
      case 6 => var b1 := Add(b, 1 + BitOf(c)); ArithmeticBits(cpsr, Sub(a, b1), CmpV(a, b1), c, CmpC(a, b1), j);
      case 11 => ArithmeticBits(cpsr, Add(a, b), AddOverflows(a, b), c, Carries(a, b), j);
      case 3 => ArithmeticBits(cpsr, Sub(a, b), RsbV(a, b), c, CmpC(b, a), j);
      case 2 => ArithmeticBits(cpsr, Sub(a, b), CmpV(a, b), c, CmpC(a, b), j);
      case 4 => ArithmeticBits(cpsr, Sub(a, b), CmpV(a, b), c, CmpC(a, b), j);
      case 10 => ArithmeticBits(cpsr, Sub(a, b), CmpV(a, b), c, CmpC(a, b), j);
      case 0 => LogicBits(cpsr, BitwiseWord(And, a, b), j);
      case 8 => LogicBits(cpsr, BitwiseWord(And, a, b), j);
      case 1 => LogicBits(cpsr, BitwiseWord(Xor, a, b), j);
      case 9 => LogicBits(cpsr, BitwiseWord(Xor, a, b), j);
      case 12 => LogicBits(cpsr, BitwiseWord(Or, a, b), j);
      case 14 => LogicBits(cpsr, BitwiseWord(And, a, Not(b)), j);
      case _ =>
    }
  }

  lemma RscBitKept(cpsr: Word, a: Word, b: Word, c: Byte, j: nat)
    requires j !in {N, Z, C, V}
    ensures GetBit(RscFlags(cpsr, a, b, c), j) == GetBit(cpsr, j)
  {
    var r := RscResult(a, b, c);
    var x := NZ(cpsr, r);
    var carry := Sub(Sub(0xFFFF_FFFF, b), c) < Add(Not(a), 2);
    LogicBits(cpsr, r, j);
    PutGet(x, C, if (c != 0) != carry then carry else Flag(x, C), j);
    PutGet(CarryUnless(x, c != 0, carry), V, false, j);
  }
}
