/**
 Load and store instructions (arm_load_store.c): word or byte, halfword, and multiple.

 The functions of the first part give the new state; refused memory accesses are part of it,
 since the handlers ignore the status of every access. The methods of the second part work as
 the source does and are proved against those functions.
 */
module LoadStore {
  import opened Bits
  import opened Core
  import opened MemoryArea

  // ----- Word or byte -----

  /** The offset: 12 bits, or a register. Every scaled form but LSL ends in the ROR/RRX case. */
  function Index(host: Host, s: State, ins: Word): Word {
    if GetBit(ins, 25) == 0 then Offset12(ins)
    else
      var rm, amount := Reg(s, GetBits(ins, 3, 0)), GetBits(ins, 11, 7);
      if GetBits(ins, 6, 5) == 0 then Shl(host, rm, amount)
      else if amount == 0 then (if Flag(Cpsr(s), C) || rm >= 2 then 1 else 0)
      else Ror(host, rm, amount)
  }

  function Offset12(ins: Word): Word {
    Pow2Table();
    GetBits(ins, 11, 0)
  }

  /** A 32-bit variable holding 0 whose first byte in memory has been overwritten. */
  function FromFirstByte(host: Host, b: Byte): Word {
    JoinWord(host.bigEndian, [b, 0, 0, 0])
  }

  function FromFirstHalf(host: Host, h: Half): Word {
    JoinWord(host.bigEndian, HalfBytes(host.bigEndian, h) + [0, 0])
  }

  /** A word transfer with an immediate offset. */
  ghost predicate IsWordTransfer(w: Word, load: bool, before: bool, up: bool, write: bool,
          rn: nat, rd: nat, offset: Word)
  {
    && GetBit(w, 25) == 0 && GetBit(w, 22) == 0 && GetBit(w, 20) == BitOf(load)
    && GetBit(w, 24) == BitOf(before) && GetBit(w, 23) == BitOf(up) && GetBit(w, 21) == BitOf(write)
    && GetBits(w, 19, 16) == rn && GetBits(w, 15, 12) == rd && Offset12(w) == offset
  }

  /** The base register moved by the offset, in the direction of bit U. */
  function Moved(host: Host, s: State, ins: Word): Word {
    var base := Reg(s, GetBits(ins, 19, 16));
    if GetBit(ins, 23) == 1 then Add(base, Index(host, s, ins)) else Sub(base, Index(host, s, ins))
  }

  /** The address accessed: the moved base if P is set, the base as it was otherwise. */
  function Address(host: Host, s: State, ins: Word): Word {
    if GetBit(ins, 24) == 1 then Moved(host, s, ins) else Reg(s, GetBits(ins, 19, 16))
  }

  /** Write-back; the forms with W set write the user bank. */
  function WrittenBack(host: Host, s: State, ins: Word): State {
    var rn := GetBits(ins, 19, 16);
    if GetBit(ins, 21) == 1 then WithUsr(s, rn, Moved(host, s, ins))
    else if GetBit(ins, 24) == 0 then WithReg(s, rn, Moved(host, s, ins))
    else s
  }

  /** Loading r15 clears bit 0 of the address and moves it to T. */
  function LoadPc(s: State, pc: Word, value: Word): State {
    WithCpsr(WithReg(s, 15, pc), Put(Cpsr(s), T, GetBit(value, 0) == 1))
  }

  function Transferred(host: Host, s: State, ins: Word, address: Word): State {
    var rd := GetBits(ins, 15, 12);
    if GetBit(ins, 20) == 1 then
      var value := if GetBit(ins, 22) == 1 then FromFirstByte(host, MemByte(s, address, 0)) else MemWord(s, address, 0);
      if rd == 15 then LoadPc(s, ClrBit(value, 0), value) else WithReg(s, rd, value)
    else if GetBit(ins, 22) == 1 then PutByte(s, address, Reg(s, rd) % 0x100)
    else PutWord(s, address, Reg(s, rd))
  }

  function SingleStep(host: Host, s: State, ins: Word): State {
    if !ConditionPassed(Cpsr(s), ins) then s
    else Transferred(host, WrittenBack(host, s, ins), ins, Address(host, s, ins))
  }

  // ----- Multiple -----

  type RegList = l: seq<nat> | forall i :: 0 <= i < |l| ==> l[i] < 15

  /** The registers below n named in the list of an instruction, in ascending order. */
  function ListedBelow(ins: Word, n: nat): (l: seq<nat>)
    ensures |l| <= n && forall i :: 0 <= i < |l| ==> l[i] < n
  {
    if n == 0 then []
    else if GetBit(ins, n - 1) == 1 then ListedBelow(ins, n - 1) + [n - 1]
    else ListedBelow(ins, n - 1)
  }

  /** The list of a multiple transfer; bit 15 is handled apart. */
  function Listed(ins: Word): RegList {
    ListedBelow(ins, 15)
  }

  function StartAddress(base: Word, n: nat, before: bool, up: bool): Word {
    if !before then (if up then base else Wrap(base - 4 * n + 4))
    else (if up then Add(base, 4) else Sub(base, 4 * n))
  }

  function EndAddress(base: Word, n: nat, before: bool, up: bool): Word {
    if !before then (if up then Wrap(base + 4 * n - 4) else base)
    else (if up then Add(base, 4 * n) else Sub(base, 4))
  }

  function MovedBase(base: Word, n: nat, up: bool): Word {
    if up then Add(base, 4 * n) else Sub(base, 4 * n)
  }

  /** The address of the k-th word of a block. */
  function Slot(start: Word, k: nat): Word {
    Add(start, 4 * k)
  }

  /** The k-th word read from a block; a refused read repeats the one before, the first one gives 0. */
  function Loaded(s: State, start: Word, k: nat): Word {
    MemWord(s, Slot(start, k), if k == 0 then 0 else Loaded(s, start, k - 1))
  }

  /** What the variable of the load loop holds after n words. */
  function LastLoaded(s: State, start: Word, n: nat): Word {
    if n == 0 then 0 else Loaded(s, start, n - 1)
  }

  function AfterLoads(s: State, list: RegList, start: Word): (t: State)
    ensures t.mem == s.mem && t.bigEndian == s.bigEndian && t.mode == s.mode && t.cycles == s.cycles
    ensures Cpsr(t) == Cpsr(s)
    decreases |list|
  {
    if list == [] then s
    else
      var k := |list| - 1;
      WithReg(AfterLoads(s, list[..k], start), list[k], Loaded(s, start, k))
  }

  function AfterStores(s: State, list: RegList, start: Word): (t: State)
    ensures t.cells == s.cells && |t.mem| == |s.mem| && t == s.(mem := t.mem)
    decreases |list|
  {
    if list == [] then s
    else
      var k := |list| - 1;
      PutWord(AfterStores(s, list[..k], start), Slot(start, k), s.cells[list[k]])
  }

  function Block(s: State, ins: Word): Word {
    StartAddress(Reg(s, GetBits(ins, 19, 16)), |Listed(ins)|, GetBit(ins, 24) == 1, GetBit(ins, 23) == 1)
  }

  function MultipleBack(s: State, ins: Word): State {
    var rn := GetBits(ins, 19, 16);
    if GetBit(ins, 21) == 1 then WithReg(s, rn, MovedBase(Reg(s, rn), |Listed(ins)|, GetBit(ins, 23) == 1)) else s
  }

  function MultipleTransferred(s: State, ins: Word, start: Word): State {
    var list := Listed(ins);
    if GetBit(ins, 20) == 0 then AfterStores(s, list, start)
    else
      var t := AfterLoads(s, list, start);
      if GetBit(ins, 15) == 0 then t
      else
        var value := Loaded(s, start, |list|);
        LoadPc(t, if value != 0 then 1 else 0, value)
  }

  /** The status is that of the closing check: a store always meets it, a load never does. */
  function MultipleStep(s: State, ins: Word): (State, int) {
    if ConditionPassed(Cpsr(s), ins) then
      (MultipleTransferred(MultipleBack(s, ins), ins, Block(s, ins)), GetBit(ins, 20))
    else
      var end := EndAddress(Reg(s, GetBits(ins, 19, 16)), |Listed(ins)|, GetBit(ins, 24) == 1, GetBit(ins, 23) == 1);
      (s, if end == 0xFFFF_FFFC then 0 else 1)
  }

  // ----- Halfword -----

  function HalfOffset(s: State, ins: Word): Byte {
    if GetBit(ins, 22) == 1 then GetBits(ins, 11, 8) * 16 + GetBits(ins, 3, 0)
    else Reg(s, GetBits(ins, 3, 0)) % 0x100
  }

  function HalfAddress(s: State, ins: Word): Word {
    var base := Reg(s, GetBits(ins, 19, 16));
    if GetBit(ins, 24) == 0 then base
    else if GetBit(ins, 23) == 1 then Add(base, HalfOffset(s, ins))
    else Sub(base, HalfOffset(s, ins))
  }

  /** The post-indexed form moves the base by the low four bits of the word, whatever the condition. */
  function HalfMoved(s: State, ins: Word): State {
    var rn := GetBits(ins, 19, 16);
    if GetBit(ins, 24) == 0 then WithReg(s, rn, Add(Reg(s, rn), GetBits(ins, 3, 0))) else s
  }

  function HalfTransferred(host: Host, s: State, ins: Word, address: Word): State {
    var rd := GetBits(ins, 15, 12);
    if GetBit(ins, 20) == 1
    then WithReg(s, rd, FromFirstHalf(host, MemHalf(s, address, 0)))
    else PutHalf(s, address, Reg(s, rd) % 0x1_0000)
  }

  /** The state before the transfer of an instruction that passes; W writes the address back. */
  function HalfBack(s: State, ins: Word): State {
    if GetBit(ins, 21) == 1 then WithReg(HalfMoved(s, ins), GetBits(ins, 19, 16), HalfAddress(s, ins))
    else HalfMoved(s, ins)
  }

  function HalfStep(host: Host, s: State, ins: Word): (State, int) {
    if GetBits(ins, 7, 4) != 11 then (s, 1)
    else if !ConditionPassed(Cpsr(s), ins) then (HalfMoved(s, ins), 0)
    else (HalfTransferred(host, HalfBack(s, ins), ins, HalfAddress(s, ins)), 0)
  }

  // ----- The source's code -----

  method ArmLoadStore(p: ArmCore, ins: Word) returns (status: int)
    requires p.Valid()
    modifies p.reg.data, p.mem.data
    ensures p.Now() == SingleStep(p.host, old(p.Now()), ins) && status == 0
  {
    var rd, opLoad, byte := GetBits(ins, 15, 12), GetBit(ins, 20), GetBit(ins, 22);
    var address := SingleBounds(p, ins);
    var cpsr := p.ReadCpsr();
    if opLoad == 1 {
      if ConditionPassed(cpsr, ins) {
        LoadValue(p, byte == 1, rd, address);
      }
    } else {
      if ConditionPassed(cpsr, ins) {
        StoreValue(p, byte == 1, rd, address);
      }
    }
    return 0;
  }

  /** The address and the write-back, with their separate tests of the condition. */
  method SingleBounds(p: ArmCore, ins: Word) returns (address: Word)
    requires p.Valid()
    modifies p.reg.data
    ensures var s := old(p.Now());
      if ConditionPassed(Cpsr(s), ins)
      then p.Now() == WrittenBack(p.host, s, ins) && address == Address(p.host, s, ins)
      else p.Now() == s
    ensures Cpsr(p.Now()) == Cpsr(old(p.Now()))
  {
    var rn, before, up, write := GetBits(ins, 19, 16), GetBit(ins, 24), GetBit(ins, 23), GetBit(ins, 21);
    var cpsr := p.ReadCpsr();
    var index := ScaledIndex(p, ins);
    var base := p.ReadRegister(rn);
    if up == 1 {
      address := if before == 1 then Add(base, index) else base;
    } else {
      address := if before == 1 then Sub(base, index) else base;
    }
    if before == 0 && ConditionPassed(cpsr, ins) {
      if write == 1 {
        p.WriteUsrRegister(rn, if up == 1 then Add(base, index) else Sub(base, index));
      } else {
        p.WriteRegister(rn, if up == 1 then Add(base, index) else Sub(base, index));
      }
    }
    cpsr := p.ReadCpsr();
    if before == 1 && ConditionPassed(cpsr, ins) && write == 1 {
      p.WriteUsrRegister(rn, address);
    }
  }

  /** The switch over the four scaled forms: LSR and ASR fall through to the ROR/RRX case. */
  method ScaledIndex(p: ArmCore, ins: Word) returns (index: Word)
    requires p.Valid()
    ensures ConditionPassed(Cpsr(p.Now()), ins) || GetBit(ins, 24) == 1 ==> index == Index(p.host, p.Now(), ins)
  {
    index := 0;
    var cpsr := p.ReadCpsr();
    if GetBit(ins, 24) == 1 || (GetBit(ins, 24) == 0 && ConditionPassed(cpsr, ins)) {
      if GetBit(ins, 25) == 0 {
        index := Offset12(ins);
      } else {
        var shift, amount := GetBits(ins, 6, 5), GetBits(ins, 11, 7);
        var rm := p.ReadRegister(GetBits(ins, 3, 0));
        if shift == 0 {
          index := Shl(p.host, rm, amount);
        }
        if shift == 1 {
          index := if amount == 0 then 0 else Shr(p.host, rm, amount);
        }
        if shift == 1 || shift == 2 {
          if amount == 0 {
            index := if GetBit(rm, 31) == 1 then 0xFFFF_FFFF else 0;
          } else {
            index := Asr(p.host, rm, amount);
          }
        }
        if shift == 1 || shift == 2 || shift == 3 {
          if amount == 0 {
            index := if GetBit(cpsr, C) == 1 || rm / 2 != 0 then 1 else 0;
          } else {
            index := Ror(p.host, rm, amount);
          }
        }
      }
    }
  }

  method LoadValue(p: ArmCore, byte: bool, rd: nat, address: Word)
    requires p.Valid() && rd < 16
    modifies p.reg.data
    ensures var s := old(p.Now());
      var value := if byte then FromFirstByte(p.host, MemByte(s, address, 0)) else MemWord(s, address, 0);
      p.Now() == if rd == 15 then LoadPc(s, ClrBit(value, 0), value) else WithReg(s, rd, value)
  {
    var value: Word := 0;
    if byte {
      var _, b := p.ReadByte(address, 0);
      value := FromFirstByte(p.host, b);
    } else {
      var _, w := p.ReadWord(address, value);
      value := w;
    }
    if rd == 15 {
      p.WriteRegister(15, ClrBit(value, 0));
      var cpsr := p.ReadCpsr();
      p.WriteCpsr(if GetBit(value, 0) == 1 then SetBit(cpsr, T) else ClrBit(cpsr, T));
    } else {
      p.WriteRegister(rd, value);
    }
  }

  method StoreValue(p: ArmCore, byte: bool, rd: nat, address: Word)
    requires p.Valid() && rd < 16
    modifies p.mem.data
    ensures var s := old(p.Now());
      p.Now() == if byte then PutByte(s, address, Reg(s, rd) % 0x100) else PutWord(s, address, Reg(s, rd))
  {
    var value := p.ReadRegister(rd);
    if byte {
      assert GetBits(value, 7, 0) == value % 0x100 by { Pow2Table(); FieldIs(value, 7, 0, 1, 0x100); }
      var _ := p.WriteByte(address, GetBits(value, 7, 0));
    } else {
      var _ := p.WriteWord(address, value);
    }
  }

  /** The loop that counts the listed registers. */
  method CountListed(ins: Word) returns (count: nat)
    ensures count == |Listed(ins)|
  {
    count := 0;
    for i := 0 to 15
      invariant count == |ListedBelow(ins, i)|
    {
      count := count + GetBit(ins, i);
    }
  }

  /** The transfer loop of LDM, with the variables that it leaves. */
  method LoadLoop(p: ArmCore, ins: Word, start: Word) returns (address: Word, value: Word)
    requires p.Valid()
    modifies p.reg.data
    ensures p.Now() == AfterLoads(old(p.Now()), Listed(ins), start)
    ensures address == Slot(start, |Listed(ins)|)
    ensures value == if Listed(ins) == [] then 0 else Loaded(old(p.Now()), start, |Listed(ins)| - 1)
  {
    ghost var s := p.Now();
    address, value := start, 0;
    for ri := 0 to 15
      invariant address == Slot(start, |ListedBelow(ins, ri)|)
      invariant value == LastLoaded(s, start, |ListedBelow(ins, ri)|)
      invariant p.Now() == AfterLoads(s, ListedBelow(ins, ri), start)
    {
      ListGrows(s, ins, ri, start);
      if GetBit(ins, ri) == 1 {
        SlotNext(start, |ListedBelow(ins, ri)|);
        var _, w := p.ReadWord(address, value);
        value := w;
        p.WriteRegister(ri, value);
        address := Add(address, 4);
      }
    }
  }

  /** One more bit of the list: one more register at the end, or the same list. */
  lemma ListGrows(s: State, ins: Word, n: nat, start: Word)
    requires n < 15
    ensures var list, longer := ListedBelow(ins, n), ListedBelow(ins, n + 1);
      && (GetBit(ins, n) == 0 ==> longer == list)
      && (GetBit(ins, n) == 1 ==>
            && longer == list + [n]
            && AfterLoads(s, longer, start) == WithReg(AfterLoads(s, list, start), n, Loaded(s, start, |list|))
            && AfterStores(s, longer, start) == PutWord(AfterStores(s, list, start), Slot(start, |list|), s.cells[n]))
  {
    if GetBit(ins, n) == 1 {
      assert (ListedBelow(ins, n) + [n])[..|ListedBelow(ins, n)|] == ListedBelow(ins, n);
    }
  }

  lemma SlotNext(start: Word, k: nat)
    ensures Add(Slot(start, k), 4) == Slot(start, k + 1)
  {
    WrapInner(start + 4 * k, 4);
  }

  /** The transfer loop of STM. */
  method StoreLoop(p: ArmCore, ins: Word, start: Word) returns (address: Word)
    requires p.Valid()
    modifies p.mem.data
    ensures p.Now() == AfterStores(old(p.Now()), Listed(ins), start)
    ensures address == Slot(start, |Listed(ins)|)
  {
    ghost var s := p.Now();
    address := start;
    for ri := 0 to 15
      invariant address == Slot(start, |ListedBelow(ins, ri)|)
      invariant p.Now() == AfterStores(s, ListedBelow(ins, ri), start)
    {
      ListGrows(s, ins, ri, start);
      if GetBit(ins, ri) == 1 {
        var value := p.ReadRegister(ri);
        var _ := p.WriteWord(address, value);
        SlotNext(start, |ListedBelow(ins, ri)|);
        address := Add(address, 4);
      }
    }
  }

  /** The first address of a block before reduction to a word. */
  function StartOffset(n: nat, before: bool, up: bool): int {
    (if before == up then 4 else 0) - (if up then 0 else 4 * n)
  }

  lemma BlockForms(base: Word, n: nat, before: bool, up: bool)
    ensures StartAddress(base, n, before, up) == Wrap(base + StartOffset(n, before, up))
    ensures EndAddress(base, n, before, up) == Wrap(base + StartOffset(n, before, up) + 4 * n - 4)
  {
    assert Wrap(base + 0) == base;
  }

  lemma AfterBlock(x: int, n: nat)
    ensures Sub(Slot(Wrap(x), n), 4) == Wrap(x + 4 * n - 4)
    ensures Sub(Add(Slot(Wrap(x), n), 4), 4) == Wrap(x + 4 * n)
  {
    WrapInner(x, 4 * n);
    WrapInner(x + 4 * n, 4);
    WrapInner(x + 4 * n + 4, 4);
  }

  /** The four modes lay out a block of n words that ends where EndAddress says. */
  lemma BlockEnds(base: Word, n: nat, before: bool, up: bool)
    ensures EndAddress(base, n, before, up) == Sub(Slot(StartAddress(base, n, before, up), n), 4)
    ensures EndAddress(base, n, before, up) != Sub(Add(Slot(StartAddress(base, n, before, up), n), 4), 4)
  {
    var x := base + StartOffset(n, before, up);
    BlockForms(base, n, before, up);
    AfterBlock(x, n);
    WrapApart(x + 4 * n - 4, 4);
  }

  /** The nested test of P and U: the bounds of the block and the base to write back. */
  method ModeBounds(base: Word, count: nat, before: bool, up: bool) returns (start: Word, end: Word, moved: Word)
    ensures start == StartAddress(base, count, before, up)
    ensures end == EndAddress(base, count, before, up)
    ensures moved == MovedBase(base, count, up)
  {
    if !before {
      if up {
        start := base;
        end := Sub(Add(base, count * 4), 4);
        WrapInner(base + count * 4, 4);
        moved := Add(base, count * 4);
      } else {
        start := Add(Sub(base, count * 4), 4);
        WrapInner(base - count * 4, 4);
        end := base;
        moved := Sub(base, count * 4);
      }
    } else {
      if up {
        start := Add(base, 4);
        end := Add(base, count * 4);
        moved := Add(base, count * 4);
      } else {
        start := Sub(base, count * 4);
        end := Sub(base, 4);
        moved := Sub(base, count * 4);
      }
    }
  }

  method BlockBounds(p: ArmCore, ins: Word, count: nat) returns (start: Word, end: Word)
    requires p.Valid() && count == |Listed(ins)|
    modifies p.reg.data
    ensures var s := old(p.Now());
      && start == Block(s, ins)
      && end == EndAddress(Reg(s, GetBits(ins, 19, 16)), count, GetBit(ins, 24) == 1, GetBit(ins, 23) == 1)
      && p.Now() == if ConditionPassed(Cpsr(s), ins) then MultipleBack(s, ins) else s
  {
    var rn := GetBits(ins, 19, 16);
    var base := p.ReadRegister(rn);
    var moved;
    start, end, moved := ModeBounds(base, count, GetBit(ins, 24) == 1, GetBit(ins, 23) == 1);
    var cpsr := p.ReadCpsr();
    if ConditionPassed(cpsr, ins) && GetBit(ins, 21) == 1 {
      p.WriteRegister(rn, moved);
    }
  }

  /** LDM(1): the loop, then the separate case of r15. */
  method LoadMultiple(p: ArmCore, ins: Word, start: Word) returns (address: Word)
    requires p.Valid() && GetBit(ins, 20) == 1
    modifies p.reg.data
    ensures p.Now() == MultipleTransferred(old(p.Now()), ins, start)
    ensures address == Add(Slot(start, |Listed(ins)|), 4)
  {
    var value: Word;
    address, value := LoadLoop(p, ins, start);
    if GetBit(ins, 15) == 1 {
      var _, w := p.ReadWord(address, value);
      value := w;
      p.WriteRegister(15, if value != 0 then 1 else 0);
      var cpsr := p.ReadCpsr();
      p.WriteCpsr(if GetBit(value, 0) == 1 then SetBit(cpsr, T) else ClrBit(cpsr, T));
    }
    address := Add(address, 4);
  }

  method ArmLoadStoreMultiple(p: ArmCore, ins: Word) returns (status: int)
    requires p.Valid()
    modifies p.reg.data, p.mem.data
    ensures (p.Now(), status) == MultipleStep(old(p.Now()), ins)
  {
    ghost var s := p.Now();
    var opLoad := GetBit(ins, 20);
    var count := CountListed(ins);
    var start, end := BlockBounds(p, ins, count);
    var address: Word := 0;
    BlockEnds(Reg(s, GetBits(ins, 19, 16)), count, GetBit(ins, 24) == 1, GetBit(ins, 23) == 1);
    var cpsr := p.ReadCpsr();
    if opLoad == 1 {
      if ConditionPassed(cpsr, ins) {
        address := LoadMultiple(p, ins, start);
      }
    } else {
      if ConditionPassed(cpsr, ins) {
        address := StoreLoop(p, ins, start);
      }
    }
    if end != Sub(address, 4) {
      return 1;
    }
    return 0;
  }

  method HalfBounds(p: ArmCore, ins: Word) returns (address: Word)
    requires p.Valid()
    modifies p.reg.data
    ensures address == HalfAddress(old(p.Now()), ins) && p.Now() == HalfMoved(old(p.Now()), ins)
  {
    var rn, rm, high := GetBits(ins, 19, 16), GetBits(ins, 3, 0), GetBits(ins, 11, 8);
    var before, up, immediate := GetBit(ins, 24), GetBit(ins, 23), GetBit(ins, 22);
    var offset: Byte := 0;
    if immediate == 1 {
      offset := high * 16 + rm;
    } else {
      var m := p.ReadRegister(rm);
      offset := m % 0x100;
    }
    var base := p.ReadRegister(rn);
    if before == 1 {
      address := if up == 1 then Add(base, offset) else Sub(base, offset);
    } else {
      address := base;
      p.WriteRegister(rn, Add(base, rm));
    }
  }

  method StoreHalfValue(p: ArmCore, rd: Byte, address: Word)
    requires p.Valid() && rd < 16
    modifies p.mem.data
    ensures p.Now() == PutHalf(old(p.Now()), address, Reg(old(p.Now()), rd) % 0x1_0000)
  {
    var value := p.ReadRegister(rd);
    assert GetBits(value, 15, 0) == value % 0x1_0000 by { Pow2Table(); FieldIs(value, 15, 0, 1, 0x1_0000); }
    var _ := p.WriteHalf(address, GetBits(value, 15, 0));
  }

  method ArmLoadStoreHalf(p: ArmCore, ins: Word) returns (status: int)
    requires p.Valid()
    modifies p.reg.data, p.mem.data
    ensures (p.Now(), status) == HalfStep(p.host, old(p.Now()), ins)
  {
    var rn, rd := GetBits(ins, 19, 16), GetBits(ins, 15, 12);
    var write, opLoad := GetBit(ins, 21), GetBit(ins, 20);
    if GetBits(ins, 7, 4) != 11 {
      return 1;
    }
    var address := HalfBounds(p, ins);
    var cpsr := p.ReadCpsr();
    if write == 1 && ConditionPassed(cpsr, ins) {
      p.WriteRegister(rn, address);
    }
    cpsr := p.ReadCpsr();
    if opLoad == 1 {
      if ConditionPassed(cpsr, ins) {
        var _, h := p.ReadHalf(address, 0);
        p.WriteRegister(rd, FromFirstHalf(p.host, h));
      }
    } else {
      if ConditionPassed(cpsr, ins) {
        StoreHalfValue(p, rd, address);
      }
    }
    return 0;
  }
}
