/**
 Transfers and branches end to end: exactly when the state after an instruction is the one that the
 manual means.
 */
module TransferAgreement {
  import opened Bits
  import opened BlockTransfer
  import opened Core
  import opened DataAgreement
  import opened Departures
  import opened Instruction
  import opened LoadStore
  import opened Manual
  import opened MemoryArea
  import opened Refinement
  import opened RunInvariants
  import opened Shifts
  import TransferLaws

  // ----- Words and bytes -----

  /** The offset of the code: LSL, or ROR for every other type, and a truth value for RRX. */
  function CodeIndex(s: State, ins: Word): int {
    var rm, n, c := Reg(s, GetBits(ins, 3, 0)), GetBits(ins, 11, 7), Flag(Cpsr(s), C);
    if GetBit(ins, 25) == 0 then ins % 0x1000
    else if GetBits(ins, 6, 5) == 0 then ShiftBy(0, rm, n, c).value
    else if n == 0 then BitOf(c || rm >= 2)
    else ShiftBy(3, rm, n, c).value
  }

  /** The offset of the manual. */
  function MeantIndex(s: State, ins: Word): int {
    if GetBit(ins, 25) == 0 then ins % 0x1000
    else ImmediateShift(GetBits(ins, 6, 5), Reg(s, GetBits(ins, 3, 0)), GetBits(ins, 11, 7), Flag(Cpsr(s), C)).value
  }

  lemma IndexDecoded(host: Host, s: State, ins: Word)
    ensures Index(host, s, ins) == CodeIndex(s, ins)
  {
    var rm, n, c := Reg(s, GetBits(ins, 3, 0)), GetBits(ins, 11, 7), Flag(Cpsr(s), C);
    if GetBit(ins, 25) == 0 {
      Offset12Value(ins);
    } else {
      ShiftedValue(host, rm, n, c);
      if n != 0 {
        ShiftsAgree(host, rm, n, c);
      }
    }
  }

  lemma LowBit(x: Word)
    ensures ClrBit(x, 0) == x - x % 2 && GetBit(x, 0) == x % 2
  {
  }

  lemma LoadMeant(s: State, rd: nat, v: Word)
    requires rd < 16
    ensures MeantLoad(s, rd, v) == if rd == 15 then LoadPc(s, ClrBit(v, 0), v) else WithReg(s, rd, v)
  {
    LowBit(v);
  }

  /** A byte or halfword that a load brings through the host is right if and only if Unswapped. */
  predicate Unswapped(host: Host, v: int) {
    !host.bigEndian || v == 0
  }

  lemma ByteThroughHost(host: Host, b: Byte)
    ensures FromFirstByte(host, b) == b <==> Unswapped(host, b)
  {
    TransferLaws.FirstByte(host, b);
  }

  lemma WrittenDecides(s: State, rd: nat, v: Word, w: Word)
    requires rd < 16
    ensures WithReg(s, rd, v) == WithReg(s, rd, w) <==> v == w
  {
    assert WithReg(s, rd, v).cells[rd] == v && WithReg(s, rd, w).cells[rd] == w;
  }

  /** When a single transfer is right, its offset being right. */
  predicate SingleRight(host: Host, s: State, ins: Word, offset: int) {
    GetBit(ins, 20) == 1 && GetBit(ins, 22) == 1 ==> Unswapped(host, MemByte(s, MeantAddress(s, ins, offset), 0))
  }

  lemma BaseWrittenBack(host: Host, s: State, ins: Word, offset: int)
    requires Index(host, s, ins) == offset && (GetBit(ins, 21) == 1 ==> s.mode == USR)
    ensures WrittenBack(host, s, ins) == WithBase(s, ins, offset)
    ensures Address(host, s, ins) == MeantAddress(s, ins, offset)
    ensures WithBase(s, ins, offset) == s.(cells := WithBase(s, ins, offset).cells)
  {
  }

  lemma SingleTransferred(host: Host, s: State, s1: State, ins: Word, a: Word)
    requires s1 == s.(cells := s1.cells)
    requires !(GetBit(ins, 20) == 1 && GetBit(ins, 22) == 1 && GetBits(ins, 15, 12) == 15)
    ensures var rd, load, byte := GetBits(ins, 15, 12), GetBit(ins, 20) == 1, GetBit(ins, 22) == 1;
      Transferred(host, s1, ins, a) == (
        if load && byte then MeantLoad(s1, rd, MemByte(s, a, 0))
        else if load then MeantLoad(s1, rd, MemWord(s, a, 0))
        else if byte then PutByte(s1, a, Reg(s1, rd) % 0x100)
        else PutWord(s1, a, Reg(s1, rd)))
      <==> (load && byte ==> Unswapped(host, MemByte(s, a, 0)))
  {
    var rd, byte := GetBits(ins, 15, 12), GetBit(ins, 22) == 1;
    if GetBit(ins, 20) == 1 {
      if byte {
        var b := MemByte(s, a, 0);
        ByteThroughHost(host, b);
        WrittenDecides(s1, rd, FromFirstByte(host, b), b);
      } else {
        LoadMeant(s1, rd, MemWord(s, a, 0));
      }
    }
  }

  /**
   LDR, LDRB, STR and STRB with every kind of addressing, W in user mode only: the state is the one that the manual
   means, for the offset that the code decodes, if and only if a byte loaded is not swapped by the host.
   */
  lemma SingleExecuted(host: Host, s: State, ins: Word)
    requires GetBits(ins, 27, 25) in {2, 3} && ConditionPassed(Cpsr(s), ins)
    requires GetBit(ins, 21) == 1 ==> s.mode == USR
    requires !(GetBit(ins, 20) == 1 && GetBit(ins, 22) == 1 && GetBits(ins, 15, 12) == 15)
    ensures Dispatch(host, s, ins) == MeantSingle(s, ins, CodeIndex(s, ins))
      <==> SingleRight(host, s, ins, CodeIndex(s, ins))
  {
    var offset := CodeIndex(s, ins);
    IndexDecoded(host, s, ins);
    BaseWrittenBack(host, s, ins, offset);
    SingleTransferred(host, s, WithBase(s, ins, offset), ins, MeantAddress(s, ins, offset));
  }

  /** When the offset that the code decodes is the one meant. */
  predicate OffsetRight(s: State, ins: Word) {
    GetBit(ins, 25) == 1 ==>
      IndexRight(Reg(s, GetBits(ins, 3, 0)), GetBits(ins, 6, 5), GetBits(ins, 11, 7), Flag(Cpsr(s), C))
  }

  /** The same with the offset of the manual, where the code decodes that one. */
  lemma SingleAgrees(host: Host, s: State, ins: Word)
    requires GetBits(ins, 27, 25) in {2, 3} && ConditionPassed(Cpsr(s), ins)
    requires GetBit(ins, 21) == 1 ==> s.mode == USR
    requires !(GetBit(ins, 20) == 1 && GetBit(ins, 22) == 1 && GetBits(ins, 15, 12) == 15)
    requires OffsetRight(s, ins)
    ensures Dispatch(host, s, ins) == MeantSingle(s, ins, MeantIndex(s, ins))
      <==> SingleRight(host, s, ins, MeantIndex(s, ins))
  {
    IndexDecoded(host, s, ins);
    if GetBit(ins, 25) == 1 {
      ScaledOffsets(host, s, ins);
    }
    SingleExecuted(host, s, ins);
  }

  /** Offset addressing leaves every register but a loaded one: LDR and STR of a word, up and down. */
  lemma OffsetAddressing(host: Host, s: State, w: Word, load: bool, up: bool, rn: nat, rd: nat, offset: Word)
    requires GetBits(w, 27, 25) == 2 && IsWordTransfer(w, load, true, up, false, rn, rd, offset)
    requires ConditionPassed(Cpsr(s), w) && rn < 15 && rd < 15
    ensures var a := if up then Wrap(s.cells[rn] + offset) else Wrap(s.cells[rn] - offset);
      Dispatch(host, s, w) == if load then WithReg(s, rd, MemWord(s, a, 0)) else PutWord(s, a, s.cells[rd])
  {
    OffsetMeant(s, w, load, up, rn, rd, offset);
    Offset12Value(w);
    SingleExecuted(host, s, w);
  }

  lemma Offset12Value(w: Word)
    ensures Offset12(w) == w % 0x1000
  {
    Pow2Table();
    FieldIs(w, 11, 0, 1, 0x1000);
  }

  lemma OffsetMeant(s: State, w: Word, load: bool, up: bool, rn: nat, rd: nat, offset: Word)
    requires IsWordTransfer(w, load, true, up, false, rn, rd, offset) && rn < 15 && rd < 15
    ensures var a := if up then Wrap(s.cells[rn] + offset) else Wrap(s.cells[rn] - offset);
      MeantSingle(s, w, offset) == if load then WithReg(s, rd, MemWord(s, a, 0)) else PutWord(s, a, s.cells[rd])
  {
    assert WithBase(s, w, offset) == s;
    assert MeantAddress(s, w, offset) == MovedBy(s.cells[rn], up, offset);
  }

  // ----- Halfwords -----

  /** When a halfword that a load brings through the host is right. */
  predicate HalfLoadRight(host: Host, s: State, ins: Word, offset: int) {
    GetBit(ins, 20) == 1 ==> Unswapped(host, MemHalf(s, MeantAddress(s, ins, offset), 0))
  }

  lemma HalfLoadMeant(host: Host, s: State, rd: nat, h: Half)
    requires rd < 16
    ensures WithReg(s, rd, FromFirstHalf(host, h)) == WithReg(s, rd, h) <==> Unswapped(host, h)
  {
    TransferLaws.HalfValue(host, h);
    WrittenDecides(s, rd, FromFirstHalf(host, h), h);
  }

  lemma HalfMeant(host: Host, s: State, s1: State, ins: Word, a: Word)
    requires s1 == s.(cells := s1.cells)
    ensures var rd := GetBits(ins, 15, 12);
      HalfTransferred(host, s1, ins, a) == (
        if GetBit(ins, 20) == 1 then WithReg(s1, rd, MemHalf(s, a, 0)) else PutHalf(s1, a, Reg(s1, rd) % 0x1_0000))
      <==> (GetBit(ins, 20) == 1 ==> Unswapped(host, MemHalf(s, a, 0)))
  {
    if GetBit(ins, 20) == 1 {
      HalfLoadMeant(host, s1, GetBits(ins, 15, 12), MemHalf(s, a, 0));
    }
  }

  /**
   The offset of the code: cut to eight bits without post-indexing; with it the low four bits of the word,
   up, whatever U; and none with post-indexing and W.
   */
  function CodeHalfOffset(s: State, ins: Word): Word {
    if GetBit(ins, 24) == 1 then ManualHalfOffset(s, ins) % 0x100
    else if GetBit(ins, 21) == 1 || GetBits(ins, 3, 0) == 0 then 0
    else if GetBit(ins, 23) == 1 then GetBits(ins, 3, 0)
    else BASE - GetBits(ins, 3, 0)
  }

  lemma CutOffset(s: State, ins: Word)
    requires GetBit(ins, 24) == 1
    ensures HalfAddress(s, ins) ==
      MovedBy(Reg(s, GetBits(ins, 19, 16)), GetBit(ins, 23) == 1, ManualHalfOffset(s, ins) % 0x100)
  {
    assert HalfOffset(s, ins) == ManualHalfOffset(s, ins) % 0x100;
  }

  lemma PostOffset(base: Word, low: nat, up: bool)
    requires low < 16
    ensures Add(base, low) == MovedBy(base, up, if low == 0 then 0 else if up then low else BASE - low)
    ensures MovedBy(base, up, 0) == base
  {
    WrapInner(base + low, BASE);
    var k := WrapMultiple(base + low - BASE);
    WrapUnique(base + low, Wrap(base + low - BASE), k + 1);
    assert Wrap(base + 0) == base;
  }

  lemma HalfBackMeant(s: State, ins: Word)
    ensures HalfBack(s, ins) == WithBase(s, ins, CodeHalfOffset(s, ins))
    ensures HalfAddress(s, ins) == MeantAddress(s, ins, CodeHalfOffset(s, ins))
    ensures HalfBack(s, ins) == s.(cells := HalfBack(s, ins).cells)
  {
    var rn := GetBits(ins, 19, 16);
    if GetBit(ins, 24) == 1 {
      CutOffset(s, ins);
    } else {
      PostOffset(Reg(s, rn), GetBits(ins, 3, 0), GetBit(ins, 23) == 1);
      assert s.cells[rn := Add(Reg(s, rn), GetBits(ins, 3, 0))][rn := Reg(s, rn)] == s.cells[rn := Reg(s, rn)];
    }
  }

  /**
   LDRH and STRH with every kind of addressing: the state is the one that the manual means, for the offset
   that the code takes, if and only if a halfword loaded is not swapped by the host.
   */
  lemma HalfExecuted(host: Host, s: State, ins: Word)
    requires IsHalf(ins) && ConditionPassed(Cpsr(s), ins)
    ensures Dispatch(host, s, ins) == MeantHalf(s, ins, CodeHalfOffset(s, ins))
      <==> HalfLoadRight(host, s, ins, CodeHalfOffset(s, ins))
  {
    HalfBackMeant(s, ins);
    HalfMeant(host, s, HalfBack(s, ins), ins, HalfAddress(s, ins));
  }

  /** When the post-indexed base, moved up by the low four bits of the word, is the one meant. */
  predicate PostIndexRight(s: State, ins: Word) {
    var low, offset := GetBits(ins, 3, 0), ManualHalfOffset(s, ins);
    if GetBit(ins, 23) == 1 then offset == low else low + offset in {0, BASE}
  }

  /** Against the offset of the manual, with post-indexing, W clear and rd not the base. */
  lemma HalfPostExecuted(host: Host, s: State, ins: Word)
    requires IsHalf(ins) && ConditionPassed(Cpsr(s), ins) && GetBit(ins, 24) == 0 && GetBit(ins, 21) == 0
    requires GetBits(ins, 15, 12) != GetBits(ins, 19, 16)
    ensures Dispatch(host, s, ins) == MeantHalf(s, ins, ManualHalfOffset(s, ins))
      <==> PostIndexRight(s, ins) && HalfLoadRight(host, s, ins, ManualHalfOffset(s, ins))
  {
    var offset, rn := ManualHalfOffset(s, ins), GetBits(ins, 19, 16);
    HalfExecuted(host, s, ins);
    if PostIndexRight(s, ins) {
      assert CodeHalfOffset(s, ins) == offset;
    } else {
      HalfBackMeant(s, ins);
      MovesAgree(Reg(s, rn), GetBits(ins, 3, 0), offset);
      OtherBase(host, s, ins, offset);
    }
  }

  lemma OtherBase(host: Host, s: State, ins: Word, offset: Word)
    requires IsHalf(ins) && ConditionPassed(Cpsr(s), ins) && GetBit(ins, 24) == 0 && GetBit(ins, 21) == 0
    requires GetBits(ins, 15, 12) != GetBits(ins, 19, 16)
    requires var base := Reg(s, GetBits(ins, 19, 16));
      Add(base, GetBits(ins, 3, 0)) != MovedBy(base, GetBit(ins, 23) == 1, offset)
    ensures Dispatch(host, s, ins) != MeantHalf(s, ins, offset)
  {
    var rn := GetBits(ins, 19, 16);
    assert Dispatch(host, s, ins).cells[rn] == Add(Reg(s, rn), GetBits(ins, 3, 0));
    assert MeantHalf(s, ins, offset).cells[rn] == MovedBy(Reg(s, rn), GetBit(ins, 23) == 1, offset);
  }

  lemma SmallOffset(s: State, ins: Word)
    requires GetBit(ins, 24) == 1 && ManualHalfOffset(s, ins) < 0x100
    ensures CodeHalfOffset(s, ins) == ManualHalfOffset(s, ins)
  {
    DivUnique(ManualHalfOffset(s, ins), 0x100, 0, ManualHalfOffset(s, ins));
  }

  /** Against the offset of the manual: below 256 without post-indexing, and as above with it. */
  lemma HalfAgrees(host: Host, s: State, ins: Word)
    requires IsHalf(ins) && ConditionPassed(Cpsr(s), ins)
    requires if GetBit(ins, 24) == 1 then ManualHalfOffset(s, ins) < 0x100
      else GetBit(ins, 21) == 0 && GetBits(ins, 15, 12) != GetBits(ins, 19, 16)
    ensures Dispatch(host, s, ins) == MeantHalf(s, ins, ManualHalfOffset(s, ins)) <==>
      HalfLoadRight(host, s, ins, ManualHalfOffset(s, ins)) && (GetBit(ins, 24) == 0 ==> PostIndexRight(s, ins))
  {
    if GetBit(ins, 24) == 1 {
      SmallOffset(s, ins);
      HalfExecuted(host, s, ins);
    } else {
      HalfPostExecuted(host, s, ins);
    }
  }

  // ----- Multiple transfers -----

  /** LDM and STM of a list without r15, one register at a time, lowest first. */
  function MeantMultiple(s: State, ins: Word): State {
    var s1, list, start := s.(cells := MeantCells(s, ins)), Listed(ins), MeantSlot(s, ins, 0);
    if GetBit(ins, 20) == 1 then AfterSingleLoads(s1, list, start) else AfterStores(s1, list, start)
  }

  lemma SameLoadOf(s: State, t: State, start: Word, k: nat)
    requires s.mem == t.mem && s.bigEndian == t.bigEndian
    ensures SameLoad(s, start, k) <==> SameLoad(t, start, k)
  {
    LoadedByMemory(s, t, start, k);
  }

  lemma EachLoadDecides(s: State, list: RegList, start: Word)
    requires Ascending(list)
    ensures AfterLoads(s, list, start) == AfterSingleLoads(s, list, start)
      <==> (forall k: nat :: k < |list| ==> SameLoad(s, start, k))
  {
    var t, u := AfterLoads(s, list, start), AfterSingleLoads(s, list, start);
    forall r: nat | r < 18 && r !in list
      ensures t.cells[r] == u.cells[r]
    {
      SingleLoadsHit(s, list, start, r);
      LoadsMiss(s, list, start, r);
    }
    forall k: nat | k < |list|
      ensures t.cells[list[k]] == u.cells[list[k]] <==> SameLoad(s, start, k)
    {
      SingleLoadsHit(s, list, start, list[k]);
      LoadsHit(s, list, start, k);
    }
    if forall k: nat :: k < |list| ==> SameLoad(s, start, k) {
      assert forall r: nat :: r < 18 ==> t.cells[r] == u.cells[r];
      assert t.cells == u.cells;
    }
  }

  /** When a multiple load is right: no accepted word other than 0 is followed by a refused one. */
  ghost predicate MultipleRight(s: State, ins: Word) {
    GetBit(ins, 20) == 1 ==> QuietEdge(s, MeantSlot(s, ins, 0), |Listed(ins)|)
  }

  /**
   LDM and STM of every list without r15, in every mode, with and without W: the state is the one that the
   manual means if and only if, in a load, the edge of memory inside the block is quiet.
   */
  lemma MultipleExecuted(host: Host, s: State, ins: Word)
    requires GetBits(ins, 27, 25) == 4 && ConditionPassed(Cpsr(s), ins) && GetBit(ins, 15) == 0
    ensures Dispatch(host, s, ins) == MeantMultiple(s, ins) <==> MultipleRight(s, ins)
  {
    var s1, list, start := MultipleBack(s, ins), Listed(ins), Block(s, ins);
    BlockMeant(s, ins);
    SlotZero(start);
    ListedAscending(ins);
    EachLoadDecides(s1, list, start);
    forall k: nat
      ensures SameLoad(s1, start, k) <==> SameLoad(s, start, k)
    {
      SameLoadOf(s1, s, start, k);
    }
    SameLoads(s, start, |list|);
  }

  // ----- Branches -----

  /** Bits 0 to 23 decide the target: a branch does what the manual means if and only if it goes back. */
  lemma BranchExecuted(host: Host, s: State, ins: Word)
    requires GetBits(ins, 27, 25) == 5 && ConditionPassed(Cpsr(s), ins)
    ensures Dispatch(host, s, ins) == MeantBranch(s, ins) <==> GetBit(ins, 23) == 1
  {
    TransferLaws.BranchTargets(ins);
    var pc := Reg(s, 15);
    var s1 := if GetBit(ins, 24) == 1 then WithReg(s, 14, Sub(pc, 4)) else s;
    WrittenDecides(s1, 15, Add(pc, BranchOffset(ins)), Wrap(pc + MeantOffset(ins)));
    SameSum(pc, BranchOffset(ins), MeantOffset(ins));
  }

  lemma SameSum(x: Word, y: Word, z: int)
    ensures Add(x, y) == Wrap(x + z) <==> y == Wrap(z)
  {
    WrapInner(z, x);
    var w := Wrap(z);
    if y < w {
      WrapApart(x + y, w - y);
    } else if w < y {
      WrapApart(x + w, y - w);
    }
  }
}
