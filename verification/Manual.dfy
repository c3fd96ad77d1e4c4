/**
 What the manual means by the instructions that the code executes, independent of the code: from the
 fields of the word to the new state. Refused memory accesses read 0 and store nothing.
 */
module Manual {
  import opened Bits
  import opened Core
  import opened MemoryArea
  import opened Shifts

  // ----- Data processing -----

  function MeantResult(op: nat, a: Word, b: Word, c: bool): Word {
    match op
    case 0 => BitwiseWord(And, a, b)
    case 1 => BitwiseWord(Xor, a, b)
    case 2 => Wrap(a - b)
    case 3 => Wrap(b - a)
    case 4 => Wrap(a + b)
    case 5 => Wrap(a + b + BitOf(c))
    case 6 => Wrap(a - b - BitOf(!c))
    case 7 => Wrap(b - a - BitOf(!c))
    case 8 => BitwiseWord(And, a, b)
    case 9 => BitwiseWord(Xor, a, b)
    case 10 => Wrap(a - b)
    case 11 => Wrap(a + b)
    case 12 => BitwiseWord(Or, a, b)
    case 13 => b
    case 14 => BitwiseWord(And, a, Not(b))
    case _ => Not(b)
  }

  /** C: the carry of a sum, no borrow of a difference, or the carry out of the shifter. */
  predicate MeantCarry(op: nat, a: Word, b: Word, c: bool, carry: bool) {
    match op
    case 2 => a >= b
    case 3 => b >= a
    case 4 => a + b >= BASE
    case 5 => a + b + BitOf(c) >= BASE
    case 6 => a >= b + BitOf(!c)
    case 7 => b >= a + BitOf(!c)
    case 10 => a >= b
    case 11 => a + b >= BASE
    case _ => carry
  }

  predicate OutOfRange(x: int) {
    !(-0x8000_0000 <= x < 0x8000_0000)
  }

  /** V: the signed result does not fit; logical operations keep it. */
  predicate MeantOverflow(op: nat, a: Word, b: Word, c: bool, v: bool) {
    match op
    case 2 => OutOfRange(Signed(a) - Signed(b))
    case 3 => OutOfRange(Signed(b) - Signed(a))
    case 4 => OutOfRange(Signed(a) + Signed(b))
    case 5 => OutOfRange(Signed(a) + Signed(b) + BitOf(c))
    case 6 => OutOfRange(Signed(a) - Signed(b) - BitOf(!c))
    case 7 => OutOfRange(Signed(b) - Signed(a) - BitOf(!c))
    case 10 => OutOfRange(Signed(a) - Signed(b))
    case 11 => OutOfRange(Signed(a) + Signed(b))
    case _ => v
  }

  function WithFlags(cpsr: Word, n: bool, z: bool, c: bool, v: bool): Word {
    Put(Put(Put(Put(cpsr, N, n), Z, z), C, c), V, v)
  }

  function MeantCpsr(op: nat, cpsr: Word, a: Word, b: Word, carry: bool): Word {
    var c, r := Flag(cpsr, C), MeantResult(op, a, b, Flag(cpsr, C));
    WithFlags(cpsr, Signed(r) < 0, r == 0, MeantCarry(op, a, b, c, carry), MeantOverflow(op, a, b, c, Flag(cpsr, V)))
  }

  /** An operation on the operands a and b, the second with the carry out of the shifter; 8 to 11 only compare. */
  function MeantData(s: State, op: nat, withFlags: bool, rd: nat, a: Word, b: Word, carry: bool): State {
    var s1 := if 8 <= op <= 11 then s else WithReg(s, rd, MeantResult(op, a, b, Flag(Cpsr(s), C)));
    if withFlags then WithCpsr(s1, MeantCpsr(op, Cpsr(s), a, b, carry)) else s1
  }

  // ----- Transfers -----

  /** A register moved up or down. */
  function MovedBy(base: Word, up: bool, offset: int): Word {
    if up then Wrap(base + offset) else Wrap(base - offset)
  }

  /** Write-back happens with post-indexing, and with W. */
  function WithBase(s: State, ins: Word, offset: int): State {
    var rn := GetBits(ins, 19, 16);
    if GetBit(ins, 24) == 1 && GetBit(ins, 21) == 0 then s
    else WithReg(s, rn, MovedBy(Reg(s, rn), GetBit(ins, 23) == 1, offset))
  }

  /** The address: the base, moved unless it is post-indexed. */
  function MeantAddress(s: State, ins: Word, offset: int): Word {
    var base := Reg(s, GetBits(ins, 19, 16));
    if GetBit(ins, 24) == 0 then base else MovedBy(base, GetBit(ins, 23) == 1, offset)
  }

  /** A load of r15 moves the low bit of the word to T. */
  function MeantLoad(s: State, rd: nat, value: Word): State {
    if rd == 15 then WithCpsr(WithReg(s, 15, value - value % 2), Put(Cpsr(s), T, value % 2 == 1))
    else WithReg(s, rd, value)
  }

  /** LDR, LDRB, STR and STRB with the given offset. */
  function MeantSingle(s: State, ins: Word, offset: int): State {
    var s1, a, rd := WithBase(s, ins, offset), MeantAddress(s, ins, offset), GetBits(ins, 15, 12);
    var load, byte := GetBit(ins, 20) == 1, GetBit(ins, 22) == 1;
    if load && byte then MeantLoad(s1, rd, MemByte(s, a, 0))
    else if load then MeantLoad(s1, rd, MemWord(s, a, 0))
    else if byte then PutByte(s1, a, Reg(s1, rd) % 0x100)
    else PutWord(s1, a, Reg(s1, rd))
  }

  /** LDRH and STRH with the given offset. */
  function MeantHalf(s: State, ins: Word, offset: int): State {
    var s1, a, rd := WithBase(s, ins, offset), MeantAddress(s, ins, offset), GetBits(ins, 15, 12);
    if GetBit(ins, 20) == 1 then WithReg(s1, rd, MemHalf(s, a, 0)) else PutHalf(s1, a, Reg(s1, rd) % 0x1_0000)
  }

  /** The lowest address of a block of n words that begins or ends at the base, which it includes or not. */
  function MeantStart(base: Word, n: nat, before: bool, up: bool): Word {
    if up && before then Wrap(base + 4)
    else if up then base
    else if before then Wrap(base - 4 * n)
    else Wrap(base - 4 * n + 4)
  }

  // ----- Branches -----

  /** The byte offset: 24 bits, sign-extended, times 4. */
  function MeantOffset(ins: Word): int {
    var imm := ins % 0x100_0000;
    4 * (if imm < 0x80_0000 then imm else imm - 0x100_0000)
  }

  /** B and BL, the program counter being read as the address of the instruction plus 8. */
  function MeantBranch(s: State, ins: Word): State {
    var pc := Reg(s, 15);
    var s1 := if GetBit(ins, 24) == 1 then WithReg(s, 14, Wrap(pc - 4)) else s;
    WithReg(s1, 15, Wrap(pc + MeantOffset(ins)))
  }
}
