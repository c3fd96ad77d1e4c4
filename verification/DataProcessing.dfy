/**
 Data-processing instructions (arm_data_processing.c).

 The functions of the first part give the new CPSR and the new state by the arithmetic
 condition behind each flag. The methods of the second part work as the source does, by
 comparisons of unsigned words and conditional writes of single bits, and are proved against
 those functions.
 */
module DataProcessing {
  import opened Bits
  import opened Core

  const UNDEFINED_INSTRUCTION: int := 2

  // ----- Flags -----

  /** Z and N describe the result r. */
  function NZ(cpsr: Word, r: Word): Word {
    Put(Put(cpsr, Z, r == 0), N, r >= 0x8000_0000)
  }

  /** The pair of conditional writes of C: the bit is written only when c differs from the carry. */
  function CarryUnless(cpsr: Word, c: bool, carry: bool): Word {
    Put(cpsr, C, if c != carry then carry else Flag(cpsr, C))
  }

  /** The sum of the signed operands does not fit in 32 bits. */
  predicate AddOverflows(a: Word, b: Word) {
    !(-0x8000_0000 <= Signed(a) + Signed(b) < 0x8000_0000)
  }

  function CmnFlags(cpsr: Word, a: Word, b: Word, c: bool): Word {
    CarryUnless(Put(NZ(cpsr, Add(a, b)), V, AddOverflows(a, b)), c, Carries(a, b))
  }

  predicate Carries(a: int, b: int) {
    a + b >= BASE
  }

  /** What the source puts in V after a subtraction: the rule for additions, applied to a - b. */
  predicate CmpV(a: Word, b: Word) {
    (a < 0x8000_0000 <==> b < 0x8000_0000) && !(a < 0x8000_0000 <==> Sub(a, b) < 0x8000_0000)
  }

  /** What the source puts in C after a subtraction: no borrow, and a subtrahend other than 0. */
  predicate CmpC(a: Word, b: Word) {
    b != 0 && a >= b
  }

  function CmpFlags(cpsr: Word, a: Word, b: Word, c: bool): Word {
    CarryUnless(Put(NZ(cpsr, Sub(a, b)), V, CmpV(a, b)), c, CmpC(a, b))
  }

  /** Flags of TST, TEQ, AND, EOR and BIC: C is cleared, V is kept. */
  function LogicFlags(cpsr: Word, r: Word): Word {
    Put(NZ(cpsr, r), C, false)
  }

  function RsbFlags(cpsr: Word, a: Word, b: Word, c: bool): Word {
    CarryUnless(Put(NZ(cpsr, Sub(a, b)), V, RsbV(a, b)), c, CmpC(b, a))
  }

  predicate RsbV(a: Word, b: Word) {
    (b < 0x8000_0000 <==> a < 0x8000_0000) && !(b < 0x8000_0000 <==> Sub(a, b) < 0x8000_0000)
  }

  function RscFlags(cpsr: Word, a: Word, b: Word, c: Byte): Word {
    Put(CarryUnless(NZ(cpsr, RscResult(a, b, c)), c != 0, Sub(Sub(0xFFFF_FFFF, b), c) < Add(Not(a), 2)), V, false)
  }

  function RscResult(a: Word, b: Word, c: Byte): Word {
    Sub(Sub(b, a), if c == 0 then 1 else 0)
  }

  // ----- The instruction -----

  /** What the sixteen operations leave in rd. */
  function Result(op: nat, a: Word, b: Word, c: bool): Word {
    match op
    case 0 => BitwiseWord(And, a, b)
    case 1 => BitwiseWord(Xor, a, b)
    case 2 => Sub(a, b)
    case 3 => Sub(a, b)
    case 4 => Add(a, b)
    case 5 => Wrap(a + b + BitOf(c))
    case 6 => Wrap(a - b - BitOf(!c))
    case 12 => BitwiseWord(Or, a, b)
    case 13 => b
    case 14 => BitwiseWord(And, a, Not(b))
    case _ => Not(b)
  }

  /** The CPSR that an operation with flags leaves, MOV, MVN and RSC apart. */
  function Flags(op: nat, cpsr: Word, a: Word, b: Word): Word {
    var c := Flag(cpsr, C);
    match op
    case 0 => LogicFlags(cpsr, BitwiseWord(And, a, b))
    case 1 => LogicFlags(cpsr, BitwiseWord(Xor, a, b))
    case 2 => CmpFlags(cpsr, a, b, c)
    case 3 => RsbFlags(cpsr, a, b, c)
    case 4 => CmpFlags(cpsr, a, b, c)
    case 5 => CmnFlags(cpsr, a, Add(b, BitOf(c)), c)
    case 6 => CmpFlags(cpsr, a, Add(b, 1 + BitOf(c)), c)
    case 8 => LogicFlags(cpsr, BitwiseWord(And, a, b))
    case 9 => LogicFlags(cpsr, BitwiseWord(Xor, a, b))
    case 10 => CmpFlags(cpsr, a, b, c)
    case 11 => CmnFlags(cpsr, a, b, c)
    case 12 => NZ(cpsr, BitwiseWord(Or, a, b))
    case 14 => LogicFlags(cpsr, BitwiseWord(And, a, Not(b)))
    case _ => cpsr
  }

  predicate IsCompare(op: nat) {
    8 <= op <= 11
  }

  predicate IsMove(op: nat) {
    op == 13 || op == 15
  }

  /** RSC writes the register numbered by the low byte of its first operand, and subtracts the number rd. */
  function Rsc(s: State, withFlags: bool, rd: nat, a: Word, b: Word): State
    requires rd < 16
  {
    var c: Byte := GetBit(Cpsr(s), C);
    var s1 := WithReg(s, a % 0x100, RscResult(rd, b, c));
    if withFlags then WithCpsr(s1, RscFlags(Cpsr(s), rd, b, c)) else s1
  }

  function Execute(s: State, op: nat, withFlags: bool, rd: nat, a: Word, b: Word): State
    requires rd < 16
  {
    if op == 7 then Rsc(s, withFlags, rd, a, b)
    else if IsCompare(op) then WithCpsr(s, Flags(op, Cpsr(s), a, b))
    else
      var s1 := WithReg(s, rd, Result(op, a, b, Flag(Cpsr(s), C)));
      if !withFlags then s1
      else if IsMove(op) then WithCpsr(s1, NZ(Cpsr(s), Reg(s1, rd)))
      else WithCpsr(s1, Flags(op, Cpsr(s), a, b))
  }

  function RotatedImmediate(host: Host, ins: Word): Word {
    var rotation, immed := GetBits(ins, 11, 8), ins % 0x100;
    if rotation != 0
    then BitwiseWord(Or, Shr(host, immed, rotation * 2), Shl(host, immed, 8 - rotation * 2))
    else immed
  }

  datatype Operands = Rejected | Operands(val1: Word, val2: Word)

  function ShiftedRegister(host: Host, s: State, ins: Word, amount: Byte): Word {
    var rm := Reg(s, GetBits(ins, 3, 0));
    if GetBit(ins, 6) == 0 then Shl(host, rm, amount) else Asr(host, rm, amount)
  }

  /** The two operands, or a rejection: the words with bits 25, 7 and 4 at 0, 1 and 1. */
  function Decode(host: Host, s: State, ins: Word): Operands {
    var val1 := Reg(s, GetBits(ins, 19, 16));
    if GetBit(ins, 25) == 1 then Operands(val1, RotatedImmediate(host, ins))
    else if GetBit(ins, 4) == 0 then
      assert GetBits(ins, 11, 7) < 32;
      Operands(val1, ShiftedRegister(host, s, ins, GetBits(ins, 11, 7)))
    else if GetBit(ins, 7) == 0 then
      Operands(val1, ShiftedRegister(host, s, ins, Reg(s, GetBits(ins, 11, 8)) % 0x100))
    else Rejected
  }

  /** arm_data_processing_shift: the new state and the status returned. */
  function DataStep(host: Host, s: State, ins: Word): (State, int) {
    if !ConditionPassed(Cpsr(s), ins) then (s, UNDEFINED_INSTRUCTION)
    else
      match Decode(host, s, ins)
      case Rejected => (s, UNDEFINED_INSTRUCTION)
      case Operands(a, b) =>
        (Execute(s, GetBits(ins, 24, 21), GetBit(ins, 20) == 1, GetBits(ins, 15, 12), a, b), 0)
  }

  // ----- The source's code -----

  lemma CpsrTwice(s: State, x: Word, y: Word)
    ensures WithCpsr(WithCpsr(s, x), y) == WithCpsr(s, y)
    ensures WithCpsr(s, Cpsr(s)) == s
  {
    assert s.cells[16 := x][16 := y] == s.cells[16 := y];
    assert s.cells[16 := s.cells[16]] == s.cells;
  }

  lemma CpsrThenReg(s: State, x: Word, r: nat, v: Word)
    ensures WithReg(WithCpsr(s, x), r, v) == WithCpsr(WithReg(s, r, v), x)
  {
    if r < 16 {
      assert s.cells[16 := x][r := v] == s.cells[r := v][16 := x];
    }
  }

  /** Write of one bit of CPSR: the read-modify-write that every flag update is made of. */
  method WriteFlag(p: ArmCore, i: nat, b: bool)
    requires p.Valid() && i < 32
    modifies p.reg.data
    ensures p.Now() == WithCpsr(old(p.Now()), Put(Cpsr(old(p.Now())), i, b))
  {
    var cpsr := p.ReadCpsr();
    if b {
      p.WriteCpsr(SetBit(cpsr, i));
    } else {
      p.WriteCpsr(ClrBit(cpsr, i));
    }
  }

  method UpdateZN(p: ArmCore, result: Word)
    requires p.Valid()
    modifies p.reg.data
    ensures p.Now() == WithCpsr(old(p.Now()), NZ(Cpsr(old(p.Now())), result))
  {
    ghost var s := p.Now();
    if result == 0 {
      WriteFlag(p, 30, true);
    } else {
      WriteFlag(p, 30, false);
    }
    ghost var x := Put(Cpsr(s), Z, result == 0);
    SignBit(result);
    if GetBit(result, 31) == 1 {
      WriteFlag(p, 31, true);
    } else {
      WriteFlag(p, 31, false);
    }
    CpsrTwice(s, x, NZ(Cpsr(s), result));
  }

  /** The two conditional writes of C that close every arithmetic operation. */
  method UpdateC(p: ArmCore, carry: bool, c: Byte)
    requires p.Valid()
    modifies p.reg.data
    ensures p.Now() == WithCpsr(old(p.Now()), CarryUnless(Cpsr(old(p.Now())), c != 0, carry))
  {
    ghost var s := p.Now();
    PutSame(Cpsr(s), C);
    CpsrTwice(s, Cpsr(s), Cpsr(s));
    if carry && c == 0 {
      WriteFlag(p, 29, true);
    }
    if !carry && c != 0 {
      WriteFlag(p, 29, false);
    }
  }

  /** The sign test for overflow, with r the sum reduced to a word. */
  lemma OverflowBySigns(a: Word, b: Word, r: Word)
    requires r == if a + b < BASE then a + b else a + b - BASE
    ensures AddOverflows(a, b) <==> (Signed(a) < 0 <==> Signed(b) < 0) && !(Signed(a) < 0 <==> Signed(r) < 0)
  {
  }

  /** The tests that the source makes on the operands of an addition. */
  lemma AdditionTests(a: Word, b: Word)
    ensures GetBit(a, 31) == GetBit(b, 31) && GetBit(a, 31) != GetBit(Add(a, b), 31) <==> AddOverflows(a, b)
    ensures Sub(0xFFFF_FFFF, a) < b <==> Carries(a, b)
  {
    AddValue(a, b);
    SubValue(0xFFFF_FFFF, a);
    SignBit(a);
    SignBit(b);
    SignBit(Add(a, b));
    OverflowBySigns(a, b, Add(a, b));
  }

  /** The tests that the source makes on the operands of a subtraction. */
  lemma SubtractionTests(a: Word, b: Word)
    ensures GetBit(a, 31) == GetBit(b, 31) && GetBit(a, 31) != GetBit(Sub(a, b), 31) <==> CmpV(a, b)
    ensures Sub(0xFFFF_FFFF, a) < Add(Not(b), 1) <==> CmpC(a, b)
  {
    SignBit(a);
    SignBit(b);
    SignBit(Sub(a, b));
    SubValue(0xFFFF_FFFF, a);
    AddValue(Not(b), 1);
  }

  method Tst(p: ArmCore, val1: Word, val2: Word)
    requires p.Valid()
    modifies p.reg.data
    ensures p.Now() == WithCpsr(old(p.Now()), LogicFlags(Cpsr(old(p.Now())), BitwiseWord(And, val1, val2)))
  {
    ghost var s := p.Now();
    var result := BitwiseWord(And, val1, val2);
    UpdateZN(p, result);
    WriteFlag(p, 29, false);
    CpsrTwice(s, NZ(Cpsr(s), result), LogicFlags(Cpsr(s), result));
  }

  method Teq(p: ArmCore, val1: Word, val2: Word)
    requires p.Valid()
    modifies p.reg.data
    ensures p.Now() == WithCpsr(old(p.Now()), LogicFlags(Cpsr(old(p.Now())), BitwiseWord(Xor, val1, val2)))
  {
    ghost var s := p.Now();
    var result := BitwiseWord(Xor, val1, val2);
    UpdateZN(p, result);
    WriteFlag(p, 29, false);
    CpsrTwice(s, NZ(Cpsr(s), result), LogicFlags(Cpsr(s), result));
  }

  method Cmp(p: ArmCore, val1: Word, val2: Word, c: Byte)
    requires p.Valid()
    modifies p.reg.data
    ensures p.Now() == WithCpsr(old(p.Now()), CmpFlags(Cpsr(old(p.Now())), val1, val2, c != 0))
  {
    ghost var s := p.Now();
    var result := Sub(val1, val2);
    UpdateZN(p, result);
    ghost var x := NZ(Cpsr(s), result);
    SubtractionTests(val1, val2);
    WriteFlag(p, 28, GetBit(val1, 31) == GetBit(val2, 31) && GetBit(val1, 31) != GetBit(result, 31));
    ghost var y := Put(x, V, CmpV(val1, val2));
    CpsrTwice(s, x, y);
    UpdateC(p, Sub(0xFFFF_FFFF, val1) < Add(Not(val2), 1), c);
    CpsrTwice(s, y, CmpFlags(Cpsr(s), val1, val2, c != 0));
  }

  method Cmn(p: ArmCore, val1: Word, val2: Word, c: Byte)
    requires p.Valid()
    modifies p.reg.data
    ensures p.Now() == WithCpsr(old(p.Now()), CmnFlags(Cpsr(old(p.Now())), val1, val2, c != 0))
  {
    ghost var s := p.Now();
    var result := Add(val1, val2);
    UpdateZN(p, result);
    ghost var x := NZ(Cpsr(s), result);
    AdditionTests(val1, val2);
    WriteFlag(p, 28, GetBit(val1, 31) == GetBit(val2, 31) && GetBit(val1, 31) != GetBit(result, 31));
    ghost var y := Put(x, V, AddOverflows(val1, val2));
    CpsrTwice(s, x, y);
    UpdateC(p, Sub(0xFFFF_FFFF, val1) < val2, c);
    CpsrTwice(s, y, CmnFlags(Cpsr(s), val1, val2, c != 0));
  }

  method ArmAnd(p: ArmCore, val1: Word, val2: Word, withFlags: bool) returns (result: Word)
    requires p.Valid()
    modifies p.reg.data
    ensures result == Result(0, val1, val2, Flag(Cpsr(old(p.Now())), C))
    ensures p.Now() == if withFlags then WithCpsr(old(p.Now()), Flags(0, Cpsr(old(p.Now())), val1, val2))
      else old(p.Now())
  {
    result := BitwiseWord(And, val1, val2);
    if withFlags {
      Tst(p, val1, val2);
    }
  }

  method ArmEor(p: ArmCore, val1: Word, val2: Word, withFlags: bool) returns (result: Word)
    requires p.Valid()
    modifies p.reg.data
    ensures result == Result(1, val1, val2, Flag(Cpsr(old(p.Now())), C))
    ensures p.Now() == if withFlags then WithCpsr(old(p.Now()), Flags(1, Cpsr(old(p.Now())), val1, val2))
      else old(p.Now())
  {
    result := BitwiseWord(Xor, val1, val2);
    if withFlags {
      Teq(p, val1, val2);
    }
  }

  method ArmSub(p: ArmCore, val1: Word, val2: Word, withFlags: bool, c: Byte) returns (result: Word)
    requires p.Valid()
    modifies p.reg.data
    ensures result == Sub(val1, val2)
    ensures p.Now() == if withFlags then WithCpsr(old(p.Now()), CmpFlags(Cpsr(old(p.Now())), val1, val2, c != 0))
      else old(p.Now())
  {
    result := Sub(val1, val2);
    if withFlags {
      Cmp(p, val1, val2, c);
    }
  }

  method ArmOrr(p: ArmCore, val1: Word, val2: Word, withFlags: bool) returns (result: Word)
    requires p.Valid()
    modifies p.reg.data
    ensures result == Result(12, val1, val2, Flag(Cpsr(old(p.Now())), C))
    ensures p.Now() == if withFlags then WithCpsr(old(p.Now()), Flags(12, Cpsr(old(p.Now())), val1, val2))
      else old(p.Now())
  {
    result := BitwiseWord(Or, val1, val2);
    if withFlags {
      UpdateZN(p, result);
    }
  }

  /** ADD takes its flags from a comparison of its operands. */
  method ArmAdd(p: ArmCore, val1: Word, val2: Word, withFlags: bool, c: Byte) returns (result: Word)
    requires p.Valid()
    modifies p.reg.data
    ensures result == Add(val1, val2)
    ensures p.Now() == if withFlags then WithCpsr(old(p.Now()), CmpFlags(Cpsr(old(p.Now())), val1, val2, c != 0))
      else old(p.Now())
  {
    result := Add(val1, val2);
    if withFlags {
      Cmp(p, val1, val2, c);
    }
  }

  method ArmBic(p: ArmCore, val1: Word, val2: Word, withFlags: bool) returns (result: Word)
    requires p.Valid()
    modifies p.reg.data
    ensures result == Result(14, val1, val2, Flag(Cpsr(old(p.Now())), C))
    ensures p.Now() == if withFlags then WithCpsr(old(p.Now()), Flags(14, Cpsr(old(p.Now())), val1, val2))
      else old(p.Now())
  {
    result := BitwiseWord(And, val1, Not(val2));
    if withFlags {
      Tst(p, val1, Not(val2));
    }
  }

  /** MOV, and MVN with the complement of its operand: the flags are those of the value read back from rd. */
  method ArmMov(p: ArmCore, rd: Byte, value: Word, withFlags: bool)
    requires p.Valid()
    modifies p.reg.data
    ensures var s1 := WithReg(old(p.Now()), rd, value);
      p.Now() == if withFlags then WithCpsr(s1, NZ(Cpsr(s1), Reg(s1, rd))) else s1
  {
    p.WriteRegister(rd, value);
    var result := p.ReadRegister(rd);
    if withFlags {
      UpdateZN(p, result);
    }
  }

  lemma SubTwice(a: int, b: int, c: int)
    ensures Sub(Sub(a, b), c) == Wrap(a - b - c)
  {
    WrapInner(a - b, c);
  }

  lemma AddTwice(a: int, b: int, c: int)
    ensures Add(Add(a, b), c) == Wrap(a + b + c)
  {
    WrapInner(a + b, c);
  }

  /** val2 - ~bit, which the source writes for val2 plus the negated carry, is val2 + 1 + bit. */
  lemma SubNot(a: Word, b: Bit)
    ensures Sub(a, Not(b)) == Add(a, 1 + b)
  {
    assert a - Not(b) == a + 1 + b - BASE;
  }

  method ArmSbc(p: ArmCore, val1: Word, val2: Word, c: Byte, withFlags: bool) returns (result: Word)
    requires p.Valid()
    modifies p.reg.data
    ensures result == Wrap(val1 - val2 - BitOf(c == 0))
    ensures var cpsr := Cpsr(old(p.Now()));
      p.Now() == if withFlags
        then WithCpsr(old(p.Now()), CmpFlags(cpsr, val1, Add(val2, 1 + GetBit(cpsr, C)), c != 0))
        else old(p.Now())
  {
    result := Sub(Sub(val1, val2), if c == 0 then 1 else 0);
    SubTwice(val1, val2, if c == 0 then 1 else 0);
    if withFlags {
      var cpsr := p.ReadCpsr();
      SubNot(val2, GetBit(cpsr, 29));
      Cmp(p, val1, Sub(val2, Not(GetBit(cpsr, 29))), c);
    }
  }

  method ArmAdc(p: ArmCore, val1: Word, val2: Word, c: Byte, withFlags: bool) returns (result: Word)
    requires p.Valid()
    modifies p.reg.data
    ensures result == Wrap(val1 + val2 + c)
    ensures var cpsr := Cpsr(old(p.Now()));
      p.Now() == if withFlags then WithCpsr(old(p.Now()), CmnFlags(cpsr, val1, Add(val2, GetBit(cpsr, C)), c != 0))
        else old(p.Now())
  {
    result := Add(Add(val1, val2), c);
    AddTwice(val1, val2, c);
    if withFlags {
      var cpsr := p.ReadCpsr();
      Cmn(p, val1, Add(val2, GetBit(cpsr, 29)), c);
    }
  }

  method ArmRsb(p: ArmCore, rd: Byte, val1: Word, val2: Word, withFlags: bool, c: Byte)
    requires p.Valid()
    modifies p.reg.data
    ensures var s1 := WithReg(old(p.Now()), rd, Sub(val1, val2));
      p.Now() == if withFlags then WithCpsr(s1, RsbFlags(Cpsr(s1), val1, val2, c != 0)) else s1
  {
    var result := Sub(val1, val2);
    p.WriteRegister(rd, result);
    if withFlags {
      ghost var s := p.Now();
      UpdateZN(p, result);
      ghost var x := NZ(Cpsr(s), result);
      SubtractionTests(val2, val1);
      UpdateC(p, Sub(0xFFFF_FFFF, val2) < Add(Not(val1), 1), c);
      ghost var y := CarryUnless(x, c != 0, CmpC(val2, val1));
      CpsrTwice(s, x, y);
      SignBit(val1);
      SignBit(val2);
      SignBit(result);
      WriteFlag(p, 28, GetBit(val2, 31) == GetBit(val1, 31) && GetBit(val2, 31) != GetBit(result, 31));
      CarryThenV(x, c != 0, CmpC(val2, val1), RsbV(val1, val2));
      CpsrTwice(s, y, RsbFlags(Cpsr(s), val1, val2, c != 0));
    }
  }

  /** The order in which C and V are written does not matter. */
  lemma CarryThenV(x: Word, c: bool, carry: bool, v: bool)
    ensures Put(CarryUnless(x, c, carry), V, v) == CarryUnless(Put(x, V, v), c, carry)
  {
    PutGet(x, V, v, C);
    PutCommutes(x, C, if c != carry then carry else Flag(x, C), V, v);
  }

  method ArmRsc(p: ArmCore, rd: Byte, val1: Word, val2: Word, withFlags: bool, c: Byte)
    requires p.Valid()
    modifies p.reg.data
    ensures var s1 := WithReg(old(p.Now()), rd, RscResult(val1, val2, c));
      p.Now() == if withFlags then WithCpsr(s1, RscFlags(Cpsr(s1), val1, val2, c)) else s1
  {
    var result := Sub(Sub(val2, val1), if c == 0 then 1 else 0);
    p.WriteRegister(rd, result);
    if withFlags {
      ghost var s := p.Now();
      UpdateZN(p, result);
      ghost var x := NZ(Cpsr(s), result);
      UpdateC(p, Sub(Sub(0xFFFF_FFFF, val2), c) < Add(Not(val1), 2), c);
      ghost var y := Cpsr(p.Now());
      CpsrTwice(s, x, y);
      var cpsr := p.ReadCpsr();
      var sign2, sign, flag := GetBit(val2, 31), GetBit(result, 31), Not(GetBit(cpsr, 29));
      WriteFlag(p, 28, sign2 == sign2 && sign2 == flag && sign2 != sign);
      CpsrTwice(s, y, RscFlags(Cpsr(s), val1, val2, c));
    }
  }

  method DecodeOperand(p: ArmCore, ins: Word) returns (status: int, val1: Word, val2: Word)
    requires p.Valid()
    ensures Decode(p.host, p.Now(), ins) == if status == 0 then Operands(val1, val2) else Rejected
    ensures status == 0 || status == -1
  {
    var rn := GetBits(ins, 19, 16);
    val1 := p.ReadRegister(rn);
    if GetBit(ins, 25) == 1 {
      val2 := RotatedImmediate(p.host, ins);
    } else {
      var rm := GetBits(ins, 3, 0);
      var shift := 2 * GetBit(ins, 6);
      var amount: Byte;
      val2 := p.ReadRegister(rm);
      if GetBit(ins, 4) == 0 {
        assert GetBits(ins, 11, 7) < 32;
        amount := GetBits(ins, 11, 7);
      } else if GetBit(ins, 7) == 0 {
        var rs := p.ReadRegister(GetBits(ins, 11, 8));
        amount := rs % 0x100;
      } else {
        return -1, val1, val2;
      }
      // The mask 2 leaves 0 (LSL) and 2 (ASR) only: LSR and ROR are never reached.
      if shift == 0 {
        val2 := Shl(p.host, val2, amount);
      } else {
        val2 := Asr(p.host, val2, amount);
      }
    }
    return 0, val1, val2;
  }

  /** The operations that hand their result back to the switch, which then writes rd. */
  method ComputeResult(p: ArmCore, op: nat, withFlags: bool, val1: Word, val2: Word, c: Byte) returns (res: Word)
    requires p.Valid() && op in {0, 1, 2, 4, 5, 6, 12, 14} && c == GetBit(Cpsr(p.Now()), C)
    modifies p.reg.data
    ensures res == Result(op, val1, val2, c == 1)
    ensures p.Now() == if withFlags then WithCpsr(old(p.Now()), Flags(op, Cpsr(old(p.Now())), val1, val2))
      else old(p.Now())
  {
    match op {
      case 0 => res := ArmAnd(p, val1, val2, withFlags);
      case 1 => res := ArmEor(p, val1, val2, withFlags);
      case 2 => res := ArmSub(p, val1, val2, withFlags, c);
      case 4 => res := ArmAdd(p, val1, val2, withFlags, c);
      case 5 => res := ArmAdc(p, val1, val2, c, withFlags);
      case 6 => res := ArmSbc(p, val1, val2, c, withFlags);
      case 12 => res := ArmOrr(p, val1, val2, withFlags);
      case _ => res := ArmBic(p, val1, val2, withFlags);
    }
  }

  method ExecuteOperation(p: ArmCore, op: nat, withFlags: bool, rd: nat, val1: Word, val2: Word, c: Byte)
    requires p.Valid() && op < 16 && rd < 16 && c == GetBit(Cpsr(p.Now()), C)
    modifies p.reg.data
    ensures p.Now() == Execute(old(p.Now()), op, withFlags, rd, val1, val2)
  {
    ghost var s := p.Now();
    match op {
      case 3 => ArmRsb(p, rd, val1, val2, withFlags, c);
      case 7 => ArmRsc(p, val1 % 0x100, rd, val2, withFlags, c);
      case 8 => Tst(p, val1, val2);
      case 9 => Teq(p, val1, val2);
      case 10 => Cmp(p, val1, val2, c);
      case 11 => Cmn(p, val1, val2, c);
      case 13 => ArmMov(p, rd, val2, withFlags);
      case 15 => ArmMov(p, rd, Not(val2), withFlags);
      case _ =>
        var res := ComputeResult(p, op, withFlags, val1, val2, c);
        CpsrThenReg(s, Flags(op, Cpsr(s), val1, val2), rd, res);
        p.WriteRegister(rd, res);
    }
  }

  method DataProcessingShift(p: ArmCore, ins: Word) returns (status: int)
    requires p.Valid()
    modifies p.reg.data
    ensures (p.Now(), status) == DataStep(p.host, old(p.Now()), ins)
  {
    var cpsr := p.ReadCpsr();
    if ConditionPassed(cpsr, ins) {
      var withFlags := GetBit(ins, 20) == 1;
      var c: Byte := GetBit(cpsr, 29);
      var rd := GetBits(ins, 15, 12);
      var isDataProc, val1, val2 := DecodeOperand(p, ins);
      if isDataProc == -1 {
        return UNDEFINED_INSTRUCTION;
      }
      ExecuteOperation(p, GetBits(ins, 24, 21), withFlags, rd, val1, val2, c);
      return 0;
    }
    return UNDEFINED_INSTRUCTION;
  }
}
