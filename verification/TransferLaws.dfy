/**
 Laws of single transfers and branches: a push and pop of one register, bytes and halfwords through
 memory and through the host, and where branches go.
 */
module TransferLaws {
  import opened Bits
  import opened Core
  import opened MemoryArea
  import opened LoadStore
  import opened Instruction
  import opened Manual

  // ----- STR with pre-indexing, LDR with post-indexing -----

  lemma ThereAndBack(x: Word, d: Word)
    ensures Sub(Add(x, d), d) == x && Add(Sub(x, d), d) == x
  {
    WrapInner(x + d, d);
    WrapInner(x - d, d);
  }

  lemma StorePreIndexed(host: Host, s: State, w: Word, up: bool, rn: nat, rd: nat, offset: Word)
    requires IsWordTransfer(w, false, true, up, true, rn, rd, offset) && ConditionPassed(Cpsr(s), w)
    requires rn < 15 && rd < 15 && rd != rn && s.mode == USR
    ensures var moved := if up then Add(s.cells[rn], offset) else Sub(s.cells[rn], offset);
      SingleStep(host, s, w) == PutWord(WithReg(s, rn, moved), moved, s.cells[rd])
  {
  }

  lemma LoadPostIndexed(host: Host, s: State, w: Word, up: bool, rn: nat, rd: nat, offset: Word)
    requires IsWordTransfer(w, true, false, up, false, rn, rd, offset) && ConditionPassed(Cpsr(s), w)
    requires rn < 15 && rd < 15 && rd != rn
    ensures var moved := if up then Add(s.cells[rn], offset) else Sub(s.cells[rn], offset);
      SingleStep(host, s, w) == WithReg(WithReg(s, rn, moved), rd, MemWord(s, s.cells[rn], 0))
  {
  }

  /**
   STR rd,[rn,#+-offset]! and later LDR rx,[rn],#-+offset, with anything in between that keeps rn and
   memory: rn is restored for every offset and direction, also when the address wraps around, and rx
   gets the stored word if and only if the word exists in memory or was 0.
   */
  lemma StoreThenLoad(host: Host, s: State, t: State, st: Word, ld: Word, up: bool, rn: nat, rd: nat, rx: nat,
          offset: Word)
    requires IsWordTransfer(st, false, true, up, true, rn, rd, offset) && ConditionPassed(Cpsr(s), st)
    requires IsWordTransfer(ld, true, false, !up, false, rn, rx, offset) && ConditionPassed(Cpsr(t), ld)
    requires rn < 15 && rd < 15 && rx < 15 && rd != rn && rx != rn && s.mode == USR
    requires t.mem == SingleStep(host, s, st).mem && t.bigEndian == s.bigEndian
    requires t.cells[rn] == SingleStep(host, s, st).cells[rn]
    ensures var u := SingleStep(host, t, ld);
      && u.cells[rn] == s.cells[rn]
      && (u.cells[rx] == s.cells[rd] <==> WordOk(s.mem, t.cells[rn]) || s.cells[rd] == 0)
  {
    StorePreIndexed(host, s, st, up, rn, rd, offset);
    LoadPostIndexed(host, t, ld, !up, rn, rx, offset);
    ThereAndBack(s.cells[rn], offset);
    var a := t.cells[rn];
    if WordOk(s.mem, a) {
      LoadStoredWord(s.mem, s.bigEndian, a, s.cells[rd], 0);
    }
  }

  /** Past the end of memory a word other than 0 is lost. */
  lemma StoreThenLoadFails(host: Host, s: State, t: State, st: Word, ld: Word, rn: nat, rd: nat, rx: nat)
    requires IsWordTransfer(st, false, true, true, true, rn, rd, 4) && ConditionPassed(Cpsr(s), st)
    requires IsWordTransfer(ld, true, false, false, false, rn, rx, 4) && ConditionPassed(Cpsr(t), ld)
    requires rn < 15 && rd < 15 && rx < 15 && rd != rn && rx != rn && s.mode == USR
    requires t == SingleStep(host, s, st)
    requires |s.mem| < BASE && s.cells[rn] == |s.mem| - 4 && s.cells[rd] == 1
    ensures SingleStep(host, t, ld).cells[rx] != 1
  {
    StoreThenLoad(host, s, t, st, ld, true, rn, rd, rx, 4);
    StorePreIndexed(host, s, st, true, rn, rd, 4);
  }

  // ----- Bytes and halfwords -----

  /** The first byte of a variable of the host is its low byte only on a little-endian host. */
  lemma FirstByte(host: Host, b: Byte)
    ensures FromFirstByte(host, b) == if host.bigEndian then b * 0x100_0000 else b
  {
  }

  lemma FirstHalf(host: Host, h: Half)
    ensures FromFirstHalf(host, h) == if host.bigEndian then h * 0x1_0000 else h
  {
    var bytes := HalfBytes(host.bigEndian, h);
    var low: int, high: int := h % 0x100, h / 0x100;
    assert h == high * 0x100 + low;
  }

  /** The byte or halfword that a store of a register leaves and a load brings back through the host. */
  predicate Delivered(host: Host, accepted: bool, v: int) {
    v == 0 || (accepted && !host.bigEndian)
  }

  /** STRB that passes, any addressing: the write-back first, then the low byte of rd, no other byte. */
  lemma StoreByteEffect(host: Host, s: State, st: Word)
    requires ConditionPassed(Cpsr(s), st) && GetBit(st, 20) == 0 && GetBit(st, 22) == 1
    ensures var u, a, s1 := SingleStep(host, s, st), Address(host, s, st), WrittenBack(host, s, st);
      var v := Reg(s1, GetBits(st, 15, 12)) % 0x100;
      u.cells == s1.cells && u.mem == (if ByteOk(s.mem, a) then s.mem[a := v] else s.mem)
  {
  }

  /** LDRB that passes, any addressing, rd not r15: the byte at the address, or 0, through the host. */
  lemma LoadByteEffect(host: Host, t: State, ld: Word)
    requires ConditionPassed(Cpsr(t), ld) && GetBit(ld, 20) == 1 && GetBit(ld, 22) == 1 && GetBits(ld, 15, 12) != 15
    ensures SingleStep(host, t, ld) ==
      WithReg(WrittenBack(host, t, ld), GetBits(ld, 15, 12),
        FromFirstByte(host, LoadByte(t.mem, Address(host, t, ld), 0)))
  {
  }

  /**
   STRB and later LDRB from the same address, with any addressing modes and anything in between that
   keeps memory: rx gets the byte stored, zero-extended, if and only if the byte is 0 or the address is
   in memory and the host little-endian; and no byte but that one has changed.
   */
  lemma StoreByteThenLoad(host: Host, s: State, t: State, st: Word, ld: Word)
    requires ConditionPassed(Cpsr(s), st) && GetBit(st, 20) == 0 && GetBit(st, 22) == 1
    requires ConditionPassed(Cpsr(t), ld) && GetBit(ld, 20) == 1 && GetBit(ld, 22) == 1 && GetBits(ld, 15, 12) != 15
    requires t.mem == SingleStep(host, s, st).mem && Address(host, t, ld) == Address(host, s, st)
    ensures var a, u := Address(host, s, st), SingleStep(host, t, ld);
      var v := Reg(WrittenBack(host, s, st), GetBits(st, 15, 12)) % 0x100;
      && u.mem == (if ByteOk(s.mem, a) then s.mem[a := v] else s.mem)
      && (u.cells[GetBits(ld, 15, 12)] == v <==> Delivered(host, ByteOk(s.mem, a), v))
  {
    StoreByteEffect(host, s, st);
    LoadByteEffect(host, t, ld);
    FirstByte(host, LoadByte(t.mem, Address(host, s, st), 0));
  }

  lemma StoreHalfEffect(host: Host, s: State, st: Word)
    requires GetBits(st, 7, 4) == 11 && ConditionPassed(Cpsr(s), st) && GetBit(st, 20) == 0
    ensures var u, a, s1 := HalfStep(host, s, st).0, HalfAddress(s, st), HalfBack(s, st);
      var v := Reg(s1, GetBits(st, 15, 12)) % 0x1_0000;
      u.cells == s1.cells && u.mem == StoreHalf(s.mem, s.bigEndian, a, v)
  {
  }

  lemma LoadHalfEffect(host: Host, t: State, ld: Word)
    requires GetBits(ld, 7, 4) == 11 && ConditionPassed(Cpsr(t), ld) && GetBit(ld, 20) == 1
    ensures var u := HalfStep(host, t, ld).0;
      && u.mem == t.mem
      && u.cells[GetBits(ld, 15, 12)] == FromFirstHalf(host, LoadHalf(t.mem, t.bigEndian, HalfAddress(t, ld), 0))
  {
  }

  /** No byte has changed but those of an accepted halfword at a. */
  ghost predicate OnlyHalfChanged(m: Contents, n: Contents, a: Word) {
    |n| == |m| && forall i :: 0 <= i < |m| && !(HalfOk(m, a) && a <= i < a + 2) ==> n[i] == m[i]
  }

  lemma OnlyHalfStored(m: Contents, big: bool, a: Word, v: Half)
    ensures OnlyHalfChanged(m, StoreHalf(m, big, a, v), a)
  {
    forall i | 0 <= i < |m| && !(HalfOk(m, a) && a <= i < a + 2)
      ensures StoreHalf(m, big, a, v)[i] == m[i]
    {
      StoreHalfFrame(m, big, a, v, i);
    }
  }

  lemma HalfThrough(host: Host, m: Contents, n: Contents, big: bool, a: Word, v: Half, x: Word)
    requires n == StoreHalf(m, big, a, v) && x == FromFirstHalf(host, LoadHalf(n, big, a, 0))
    ensures x == v <==> Delivered(host, HalfOk(m, a), v)
    ensures OnlyHalfChanged(m, n, a)
  {
    OnlyHalfStored(m, big, a, v);
    HalfValue(host, LoadHalf(n, big, a, 0));
    if HalfOk(m, a) {
      LoadStoredHalf(m, big, a, v, 0);
    }
  }

  /** STRH and later LDRH from the same address: the same for the low halfword at an even address. */
  lemma StoreHalfThenLoad(host: Host, s: State, t: State, st: Word, ld: Word)
    requires GetBits(st, 7, 4) == 11 && ConditionPassed(Cpsr(s), st) && GetBit(st, 20) == 0
    requires GetBits(ld, 7, 4) == 11 && ConditionPassed(Cpsr(t), ld) && GetBit(ld, 20) == 1
    requires t.mem == HalfStep(host, s, st).0.mem && t.bigEndian == s.bigEndian
    requires HalfAddress(t, ld) == HalfAddress(s, st)
    ensures var a, u := HalfAddress(s, st), HalfStep(host, t, ld).0;
      var v := Reg(HalfBack(s, st), GetBits(st, 15, 12)) % 0x1_0000;
      && OnlyHalfChanged(s.mem, u.mem, a)
      && (u.cells[GetBits(ld, 15, 12)] == v <==> Delivered(host, HalfOk(s.mem, a), v))
  {
    StoreHalfEffect(host, s, st);
    LoadHalfEffect(host, t, ld);
    var a, v := HalfAddress(s, st), Reg(HalfBack(s, st), GetBits(st, 15, 12)) % 0x1_0000;
    HalfThrough(host, s.mem, t.mem, s.bigEndian, a, v, FromFirstHalf(host, LoadHalf(t.mem, t.bigEndian, a, 0)));
  }

  /** On a big-endian host a halfword 1 stored in memory does not come back as 1. */
  lemma StoreHalfThenLoadFails(host: Host, s: State, t: State, st: Word, ld: Word)
    requires GetBits(st, 7, 4) == 11 && ConditionPassed(Cpsr(s), st) && GetBit(st, 20) == 0
    requires GetBits(ld, 7, 4) == 11 && ConditionPassed(Cpsr(t), ld) && GetBit(ld, 20) == 1
    requires t.mem == HalfStep(host, s, st).0.mem && t.bigEndian == s.bigEndian
    requires HalfAddress(t, ld) == HalfAddress(s, st)
    requires host.bigEndian && Reg(HalfBack(s, st), GetBits(st, 15, 12)) == 1
    ensures HalfStep(host, t, ld).0.cells[GetBits(ld, 15, 12)] != 1
  {
    StoreHalfThenLoad(host, s, t, st, ld);
  }

  lemma HalfValue(host: Host, h: Half)
    ensures FromFirstHalf(host, h) == h <==> !host.bigEndian || h == 0
    ensures FromFirstHalf(host, 0) == 0
  {
    FirstHalf(host, h);
    FirstHalf(host, 0);
  }

  /** On a big-endian host a byte 1 stored in memory does not come back as 1. */
  lemma StoreByteThenLoadFails(host: Host, s: State, t: State, st: Word, ld: Word)
    requires ConditionPassed(Cpsr(s), st) && GetBit(st, 20) == 0 && GetBit(st, 22) == 1
    requires ConditionPassed(Cpsr(t), ld) && GetBit(ld, 20) == 1 && GetBit(ld, 22) == 1 && GetBits(ld, 15, 12) != 15
    requires t.mem == SingleStep(host, s, st).mem && Address(host, t, ld) == Address(host, s, st)
    requires host.bigEndian && Reg(WrittenBack(host, s, st), GetBits(st, 15, 12)) == 1
    ensures SingleStep(host, t, ld).cells[GetBits(ld, 15, 12)] != 1
  {
    StoreByteThenLoad(host, s, t, st, ld);
  }

  // ----- Branches -----

  lemma BranchQuotients(q: nat, r: nat, x: nat)
    requires x == 0x100_0000 * q + r && r < 0x100_0000
    ensures x / 0x80_0000 % 2 == r / 0x80_0000
    ensures x / 0x200_0000 % 8 == 5 ==> q % 16 >= 10
  {
    DivUnique(x, 0x80_0000, 2 * q + r / 0x80_0000, r % 0x80_0000);
    DivUnique(2 * q + r / 0x80_0000, 2, q, r / 0x80_0000);
    DivUnique(x, 0x200_0000, q / 2, q % 2 * 0x100_0000 + r);
    DivUnique(q / 2, 8, q / 16, q % 16 / 2);
  }

  lemma BranchFields(ins: Word)
    ensures GetBit(ins, 23) == 1 <==> ins % 0x100_0000 >= 0x80_0000
    ensures GetBits(ins, 27, 25) == 5 ==> ins / 0x100_0000 % 16 >= 10
  {
    Pow2Table();
    FieldIs(ins, 27, 25, 0x200_0000, 8);
    BitIs(ins, 23, 0x80_0000);
    BranchQuotients(ins / 0x100_0000, ins % 0x100_0000, ins);
  }

  lemma Backward(ins: Word, r: int)
    requires r == ins % 0x100_0000 && r >= 0x80_0000
    ensures Wrap(4 * (ins % 0x80_0000 + 0xFF80_0000)) == Wrap(4 * (r - 0x100_0000))
  {
    assert ins % 0x80_0000 == r - 0x80_0000;
    var x := 4 * (r - 0x100_0000);
    var k := WrapMultiple(x);
    WrapUnique(x + 4 * BASE, Wrap(x), k + 4);
  }

  lemma SameTarget(q: int, r: int, i: int, j: int)
    requires 4 * (q * 0x100_0000 + r) - i * BASE == 4 * r - j * BASE
    ensures q % 16 == 0
  {
    DivUnique(q, 16, 4 * (i - j), 0);
  }

  /** The bits above the offset of a forward branch, shifted, are no multiple of 2^32. */
  lemma Forward(q: int, r: int)
    requires q % 16 >= 10
    ensures Wrap(4 * (q * 0x100_0000 + r)) != Wrap(4 * r)
  {
    if Wrap(4 * (q * 0x100_0000 + r)) == Wrap(4 * r) {
      var i := WrapMultiple(4 * (q * 0x100_0000 + r));
      var j := WrapMultiple(4 * r);
      SameTarget(q, r, i, j);
    }
  }

  /** A branch goes where the manual says if and only if it goes backwards. */
  lemma BranchTargets(ins: Word)
    requires GetBits(ins, 27, 25) == 5
    ensures BranchOffset(ins) == Wrap(MeantOffset(ins)) <==> GetBit(ins, 23) == 1
  {
    BranchFields(ins);
    if GetBit(ins, 23) == 1 {
      Backward(ins, ins % 0x100_0000);
    } else {
      Forward(ins / 0x100_0000, ins % 0x100_0000);
    }
  }

  /** The shortest forward branch, offset 0, misses its target by 0xA800_0000 bytes. */
  lemma ForwardBranchMisses()
    ensures BranchOffset(0xEA00_0000) == 0xA800_0000 && MeantOffset(0xEA00_0000) == 0
  {
    GetBitIsShift(0xEA00_0000, 23);
    Pow2Table();
    WrapUnique(4 * 0xEA00_0000, 0xA800_0000, 3);
  }
}
