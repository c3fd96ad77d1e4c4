/**
 Instruction words for every register list: the programs that the refinement theorems speak of exist.
 */
module Encodings {
  import opened Bits
  import opened Core
  import opened LoadStore
  import opened BlockTransfer
  import opened Instruction
  import opened MemoryArea
  import opened Refinement
  import opened Addition

  /** The sixteen bits of a register list. */
  function ListBits(regs: set<nat>, n: nat): nat {
    if n == 0 then 0 else PutBit(ListBits(regs, n - 1), n - 1, BitOf(n - 1 in regs))
  }

  lemma {:induction false} ListBitsGet(regs: set<nat>, n: nat, i: nat)
    ensures ListBits(regs, n) < Pow2(n)
    ensures GetBit(ListBits(regs, n), i) == BitOf(i < n && i in regs)
    decreases n
  {
    if n == 0 {
      ZeroBits(i);
    } else {
      ListBitsGet(regs, n - 1, i);
      PutBitBound(ListBits(regs, n - 1), n - 1, BitOf(n - 1 in regs), n);
      PutBitGet(ListBits(regs, n - 1), n - 1, BitOf(n - 1 in regs), i);
    }
  }

  lemma {:induction false} LowBits(x: nat, hi: nat, n: nat, i: nat)
    requires x < Pow2(n) && i < n
    ensures GetBit(Pow2(n) * hi + x, i) == GetBit(x, i)
    decreases n
  {
    var y: nat := Pow2(n - 1) * hi;
    assert Pow2(n) * hi == 2 * y;
    if i > 0 {
      LowBits(x / 2, hi, n - 1, i - 1);
      assert (2 * y + x) / 2 == y + x / 2;
    } else {
      assert (2 * y + x) % 2 == x % 2;
    }
  }

  /** The fields from bit 16 up: condition 14 (always), class, P, U, B or S, W, L and the base register. */
  function Upper(kind: nat, p: Bit, u: Bit, b: Bit, w: Bit, l: Bit, rn: nat): nat {
    rn + 16 * (l + 2 * (w + 2 * (b + 2 * (u + 2 * (p + 2 * (kind + 8 * 14))))))
  }

  function Encoded(kind: nat, p: Bit, u: Bit, b: Bit, w: Bit, l: Bit, rn: nat, low: nat): Word
    requires kind < 8 && rn < 16 && low < 0x1_0000
  {
    0x1_0000 * Upper(kind, p, u, b, w, l, rn) + low
  }

  /** A bit of a number given by the parts above, at and below it. */
  lemma BitOfParts(x: nat, n: nat, p: nat, hi: nat, v: Bit, rest: nat)
    requires p == Pow2(n) && x == p * (2 * hi + v) + rest && rest < p
    ensures GetBit(x, n) == v
  {
    GetBitIsShift(x, n);
    DivUnique(x, p, 2 * hi + v, rest);
  }

  /** A field of a number given by the parts above, at and below it. */
  lemma FieldOfParts(x: nat, h: nat, l: nat, p: nat, q: nat, hi: nat, v: nat, rest: nat)
    requires l <= h && p == Pow2(l) && q == Pow2(h - l + 1) && v < q
    requires x == p * (q * hi + v) + rest && rest < p
    ensures GetBits(x, h, l) == v
  {
    FieldIs(x, h, l, p, q);
    DivUnique(x, p, q * hi + v, rest);
    DivUnique(q * hi + v, q, hi, v);
  }

  ghost predicate HasUpper(ins: Word, kind: nat, p: Bit, u: Bit, b: Bit, w: Bit, l: Bit, rn: nat) {
    && GetBits(ins, 31, 28) == 14 && GetBits(ins, 27, 25) == kind
    && GetBit(ins, 24) == p && GetBit(ins, 23) == u && GetBit(ins, 22) == b && GetBit(ins, 21) == w
    && GetBit(ins, 20) == l
    && GetBits(ins, 19, 16) == rn
    && (kind % 2 == 0 ==> GetBit(ins, 25) == 0)
  }

  lemma EncodedTop(ins: nat, kind: nat, rest: nat)
    requires kind < 8 && ins == 0x200_0000 * (kind + 8 * 14) + rest && rest < 0x200_0000
    ensures GetBits(ins, 31, 28) == 14 && GetBits(ins, 27, 25) == kind
    ensures kind % 2 == 0 ==> GetBit(ins, 25) == 0
  {
    Pow2Table();
    FieldOfParts(ins, 31, 28, 0x1000_0000, 0x10, 0, 14, 0x200_0000 * kind + rest);
    FieldOfParts(ins, 27, 25, 0x200_0000, 8, 14, kind, rest);
    BitOfParts(ins, 25, 0x200_0000, kind / 2 + 4 * 14, kind % 2, rest);
  }

  lemma EncodedModes(ins: nat, p: Bit, u: Bit, x6: nat, rest: nat)
    requires ins == 0x80_0000 * (u + 2 * (p + 2 * x6)) + rest && rest < 0x80_0000
    ensures GetBit(ins, 24) == p && GetBit(ins, 23) == u
  {
    Pow2Table();
    BitOfParts(ins, 24, 0x100_0000, x6, p, 0x80_0000 * u + rest);
    BitOfParts(ins, 23, 0x80_0000, p + 2 * x6, u, rest);
  }

  lemma EncodedSwitches(ins: nat, b: Bit, w: Bit, x4: nat, rest: nat)
    requires ins == 0x20_0000 * (w + 2 * (b + 2 * x4)) + rest && rest < 0x20_0000
    ensures GetBit(ins, 22) == b && GetBit(ins, 21) == w
  {
    Pow2Table();
    BitOfParts(ins, 22, 0x40_0000, x4, b, 0x20_0000 * w + rest);
    BitOfParts(ins, 21, 0x20_0000, b + 2 * x4, w, rest);
  }

  lemma EncodedBase(ins: nat, l: Bit, rn: nat, x2: nat, low: nat)
    requires ins == 0x1_0000 * (rn + 16 * (l + 2 * x2)) + low && low < 0x1_0000 && rn < 16
    ensures GetBit(ins, 20) == l && GetBits(ins, 19, 16) == rn
  {
    Pow2Table();
    BitOfParts(ins, 20, 0x10_0000, x2, l, 0x1_0000 * rn + low);
    FieldOfParts(ins, 19, 16, 0x1_0000, 0x10, l + 2 * x2, rn, low);
  }

  /** Every field of an encoded word can be read back. */
  lemma EncodedFields(kind: nat, p: Bit, u: Bit, b: Bit, w: Bit, l: Bit, rn: nat, low: nat)
    requires kind < 8 && rn < 16 && low < 0x1_0000
    ensures HasUpper(Encoded(kind, p, u, b, w, l, rn, low), kind, p, u, b, w, l, rn)
  {
    var ins := Encoded(kind, p, u, b, w, l, rn, low);
    var x6: nat := kind + 8 * 14;
    var x4: nat := u + 2 * (p + 2 * x6);
    var x2: nat := w + 2 * (b + 2 * x4);
    var r2: nat := 0x1_0000 * (rn + 16 * l) + low;
    var r4: nat := 0x20_0000 * (w + 2 * b) + r2;
    EncodedBase(ins, l, rn, x2, low);
    EncodedSwitches(ins, b, w, x4, r2);
    EncodedModes(ins, p, u, x6, r4);
    EncodedTop(ins, kind, 0x80_0000 * (u + 2 * p) + r4);
  }

  /** The two fields of the low half of a single transfer. */
  lemma EncodedSingle(ins: nat, up: nat, rd: nat, offset: nat)
    requires ins == 0x1_0000 * up + (0x1000 * rd + offset) && rd < 16 && offset < 0x1000
    ensures GetBits(ins, 15, 12) == rd && GetBits(ins, 11, 0) == offset
  {
    Pow2Table();
    FieldOfParts(ins, 15, 12, 0x1000, 0x10, up, rd, offset);
    FieldOfParts(ins, 11, 0, 1, 0x1000, 0x10 * up + rd, offset, 0);
  }

  /** Any single transfer of the refinement theorems. */
  function Single(load: bool, before: bool, up: bool, rn: nat, rd: nat): Word
    requires rn < 16 && rd < 16
  {
    Encoded(2, BitOf(before), BitOf(up), 0, BitOf(before), BitOf(load), rn, 0x1000 * rd + 4)
  }

  lemma SingleExists(load: bool, before: bool, up: bool, rn: nat, rd: nat)
    requires rn < 16 && rd < 16
    ensures IsSingle(Single(load, before, up, rn, rd), load, before, up, rn, rd)
    ensures forall cpsr: Word :: ConditionPassed(cpsr, Single(load, before, up, rn, rd))
  {
    EncodedFields(2, BitOf(before), BitOf(up), 0, BitOf(before), BitOf(load), rn, 0x1000 * rd + 4);
    EncodedSingle(Single(load, before, up, rn, rd),
      Upper(2, BitOf(before), BitOf(up), 0, BitOf(before), BitOf(load), rn), rd, 4);
  }

  function MultipleWord(load: bool, before: bool, up: bool, rn: nat, regs: set<nat>): Word
    requires rn < 16
  {
    ListBitsGet(regs - {15}, 16, 0);
    Pow2Table();
    Encoded(4, BitOf(before), BitOf(up), 0, 1, BitOf(load), rn, ListBits(regs - {15}, 16))
  }

  lemma MultipleBits(load: bool, before: bool, up: bool, rn: nat, regs: set<nat>, i: nat)
    requires rn < 16 && i < 16
    ensures GetBit(MultipleWord(load, before, up, rn, regs), i) == BitOf(i in regs && i != 15)
  {
    var low := ListBits(regs - {15}, 16);
    ListBitsGet(regs - {15}, 16, i);
    Pow2Table();
    LowBits(low, Upper(4, BitOf(before), BitOf(up), 0, 1, BitOf(load), rn), 16, i);
  }

  /** For every set of registers below r15 and every mode there is a word that lists exactly that set. */
  lemma MultipleExists(load: bool, before: bool, up: bool, rn: nat, regs: set<nat>)
    requires rn < 16 && forall r :: r in regs ==> r < 15
    ensures var w := MultipleWord(load, before, up, rn, regs);
      && IsMultiple(w, load, before, up, rn, Listed(w))
      && (forall r: nat :: r in Listed(w) <==> r in regs)
      && (forall cpsr: Word :: ConditionPassed(cpsr, w))
  {
    var w := MultipleWord(load, before, up, rn, regs);
    ListBitsGet(regs - {15}, 16, 0);
    Pow2Table();
    EncodedFields(4, BitOf(before), BitOf(up), 0, 1, BitOf(load), rn, ListBits(regs - {15}, 16));
    ListedExactly(w, 15);
    forall r: nat
      ensures r in Listed(w) <==> r in regs
    {
      if r < 15 {
        MultipleBits(load, before, up, rn, regs, r);
      }
    }
    MultipleBits(load, before, up, rn, regs, 15);
  }

  /** The single transfers of a list, in the order of the direction, built from the last one back. */
  function Singles(load: bool, before: bool, up: bool, rn: nat, list: RegList): (p: seq<Word>)
    requires rn < 16
    ensures |p| == |list|
    ensures forall k :: 0 <= k < |p| ==> p[k] == Single(load, before, up, rn, list[if up then k else |list| - 1 - k])
    decreases |list|
  {
    if list == [] then []
    else if up then Singles(load, before, up, rn, list[..|list| - 1]) + [Single(load, before, up, rn, list[|list| - 1])]
    else Singles(load, before, up, rn, list[1..]) + [Single(load, before, up, rn, list[0])]
  }

  lemma SinglesExist(cpsr: Word, load: bool, before: bool, up: bool, rn: nat, list: RegList)
    requires rn < 16
    ensures AreSingles(Singles(load, before, up, rn, list), load, before, up, rn, list)
    ensures AllPass(cpsr, Singles(load, before, up, rn, list))
  {
    var program := Singles(load, before, up, rn, list);
    forall k | 0 <= k < |program|
      ensures IsSingle(program[k], load, before, up, rn, list[if up then k else |list| - 1 - k])
      ensures ConditionPassed(cpsr, program[k])
    {
      SingleExists(load, before, up, rn, list[if up then k else |list| - 1 - k]);
    }
  }

  /**
   For every set of registers without the base, every mode and every state: one store multiple leaves
   the same state as the stores of its registers one by one; one load multiple as the loads one by one if
   and only if the edge of memory inside its block is quiet.
   */
  lemma EveryListRefined(host: Host, s: State, before: bool, up: bool, rn: nat, regs: set<nat>)
    requires rn < 15 && rn !in regs && forall r :: r in regs ==> r < 15
    requires before ==> s.mode == USR
    ensures var w := MultipleWord(false, before, up, rn, regs);
      Dispatch(host, s, w) == Run(host, s, Singles(false, before, up, rn, Listed(w)))
    ensures var w := MultipleWord(true, before, up, rn, regs);
      Dispatch(host, s, w) == Run(host, s, Singles(true, before, up, rn, Listed(w)))
      <==> QuietEdge(s, Block(s, w), |Listed(w)|)
  {
    var st, ld := MultipleWord(false, before, up, rn, regs), MultipleWord(true, before, up, rn, regs);
    MultipleExists(false, before, up, rn, regs);
    MultipleExists(true, before, up, rn, regs);
    SinglesExist(Cpsr(s), false, before, up, rn, Listed(st));
    SinglesExist(Cpsr(s), true, before, up, rn, Listed(ld));
    StoreMultipleRefines(host, s, st, Singles(false, before, up, rn, Listed(st)), before, up, rn, Listed(st));
    LoadMultipleRefines(host, s, ld, Singles(true, before, up, rn, Listed(ld)), before, up, rn, Listed(ld));
  }

  // ----- The addition program -----

  /** ADCS rd, rn, rm */
  function Adcs(rd: nat, rn: nat, rm: nat): Word
    requires rd < 16 && rn < 16 && rm < 16
  {
    Encoded(0, 0, 1, 0, 1, 1, rn, 0x1000 * rd + rm)
  }

  lemma EncodedOpcode(ins: nat, op: nat, x6: nat, rest: nat)
    requires ins == 0x20_0000 * (op + 16 * x6) + rest && rest < 0x20_0000 && op < 16
    ensures GetBits(ins, 24, 21) == op
  {
    Pow2Table();
    FieldOfParts(ins, 24, 21, 0x20_0000, 0x10, x6, op, rest);
  }

  lemma EncodedOperand(ins: nat, x: nat, rm: nat)
    requires ins == 0x1000 * x + rm && rm < 16
    ensures GetBits(ins, 11, 7) == 0 && GetBits(ins, 7, 4) == 0 && GetBits(ins, 3, 0) == rm
    ensures GetBit(ins, 6) == 0 && GetBit(ins, 4) == 0
  {
    Pow2Table();
    FieldOfParts(ins, 11, 7, 0x80, 0x20, x, 0, rm);
    FieldOfParts(ins, 7, 4, 0x10, 0x10, 0x10 * x, 0, rm);
    FieldOfParts(ins, 3, 0, 1, 0x10, 0x100 * x, rm, 0);
    BitOfParts(ins, 6, 0x40, 0x20 * x, 0, rm);
    BitOfParts(ins, 4, 0x10, 0x80 * x, 0, rm);
  }

  lemma AdcsExists(rd: nat, rn: nat, rm: nat)
    requires rd < 16 && rn < 16 && rm < 16
    ensures IsAdcs(Adcs(rd, rn, rm), rd, rn, rm) && Always(Adcs(rd, rn, rm))
  {
    var ins, up := Adcs(rd, rn, rm), Upper(0, 0, 1, 0, 1, 1, rn);
    EncodedFields(0, 0, 1, 0, 1, 1, rn, 0x1000 * rd + rm);
    EncodedOpcode(ins, 5, 8 * 14, 0x1_0000 * (rn + 16) + 0x1000 * rd + rm);
    EncodedOperand(ins, 0x10 * up + rd, rm);
    AdcsDestination(ins, up, rd, rm);
  }

  lemma AdcsDestination(ins: nat, up: nat, rd: nat, rm: nat)
    requires ins == 0x1_0000 * up + (0x1000 * rd + rm) && rd < 16 && rm < 16
    ensures GetBits(ins, 15, 12) == rd
  {
    EncodedSingle(ins, up, rd, rm);
  }

  /** The four words of one round of the addition program. */
  function LimbCode(g: Allocation): seq<Word>
    requires Separate(g)
  {
    [Single(true, false, true, g.pa, g.xa), Single(true, false, true, g.pb, g.xb),
     Adcs(g.xd, g.xa, g.xb), Single(false, false, true, g.pd, g.xd)]
  }

  lemma FourWords(code: seq<Word>, g: Allocation)
    requires |code| == 4 && Separate(g)
    requires IsSingle(code[0], true, false, true, g.pa, g.xa) && Always(code[0])
    requires IsSingle(code[1], true, false, true, g.pb, g.xb) && Always(code[1])
    requires IsAdcs(code[2], g.xd, g.xa, g.xb) && Always(code[2])
    requires IsSingle(code[3], false, false, true, g.pd, g.xd) && Always(code[3])
    ensures IsLimbCode(code, g)
  {
  }

  lemma SingleAlways(load: bool, rn: nat, rd: nat, w: Word)
    requires rn < 16 && rd < 16 && w == Single(load, false, true, rn, rd)
    ensures IsSingle(w, load, false, true, rn, rd) && Always(w)
  {
    SingleExists(load, false, true, rn, rd);
    EncodedFields(2, 0, 1, 0, 0, BitOf(load), rn, 0x1000 * rd + 4);
  }

  /** The addition program exists for every allocation of separate registers. */
  lemma LimbCodeExists(g: Allocation)
    requires Separate(g)
    ensures IsLimbCode(LimbCode(g), g)
  {
    var code := LimbCode(g);
    SingleAlways(true, g.pa, g.xa, code[0]);
    SingleAlways(true, g.pb, g.xb, code[1]);
    AdcsExists(g.xd, g.xa, g.xb);
    SingleAlways(false, g.pd, g.xd, code[3]);
    FourWords(code, g);
  }

  /** Numbers that do not overlap the result, or lie under it, and a result that fits in memory. */
  ghost predicate LaidOut(s: State, g: Allocation, n: nat)
    requires Separate(g)
  {
    var pd := s.cells[g.pd];
    && n <= 0x4000_0000 && pd % 4 == 0 && pd + 4 * n <= |s.mem| && pd + 4 * n <= BASE
    && forall p :: p in {g.pa, g.pb} ==>
         s.cells[p] == pd || s.cells[p] + 4 * n <= pd || (pd + 4 * n <= s.cells[p] && s.cells[p] + 4 * n <= BASE)
  }

  lemma LaidOutReady(s: State, g: Allocation, n: nat)
    requires Separate(g) && LaidOut(s, g, n)
    ensures Ready(s, g, n)
  {
    InPlaceOrApart(s.cells[g.pd], s.cells[g.pa], n);
    InPlaceOrApart(s.cells[g.pd], s.cells[g.pb], n);
    forall i | 0 <= i < n
      ensures WordOk(s.mem, Slot(s.cells[g.pd], i))
    {
      assert Slot(s.cells[g.pd], i) == s.cells[g.pd] + 4 * i;
    }
  }

  /**
   The addition theorem with its program spelled out, for numbers that do not overlap or are added in
   place, in a memory that holds the result.
   */
  lemma AdditionApplies(host: Host, s: State, g: Allocation, n: nat)
    requires Separate(g) && LaidOut(s, g, n)
    ensures var a, b := Words(s, s.cells[g.pa], n), Words(s, s.cells[g.pb], n);
      var t := Run(host, s, Unrolled(LimbCode(g), n));
      (Value(a) + Value(b) + GetBit(Cpsr(s), C) ==
        Value(Words(t, s.cells[g.pd], n)) + BasePower(n) * GetBit(Cpsr(t), C))
      <==> Lossless(a, b, Flag(Cpsr(s), C))
  {
    LimbCodeExists(g);
    LaidOutReady(s, g, n);
    AdditionProgram(host, s, LimbCode(g), g, n);
  }
}
