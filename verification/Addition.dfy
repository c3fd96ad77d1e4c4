/**
 Multi-word addition: a chain of ADCS instructions, and the unrolled program that adds two numbers
 of any number of words in memory.
 */
module Addition {
  import opened Bits
  import opened Core
  import opened MemoryArea
  import opened DataProcessing
  import opened LoadStore
  import opened BlockTransfer
  import opened Instruction
  import opened Refinement
  import opened FlagLaws

  // ----- The chain on numbers -----

  /** The number with the given words, least significant first. */
  function Value(limbs: seq<Word>): nat {
    if limbs == [] then 0 else limbs[0] + BASE * Value(limbs[1..])
  }

  function BasePower(n: nat): nat {
    if n == 0 then 1 else BASE * BasePower(n - 1)
  }

  /** One ADCS after the other: the words left in the destinations, and the last CPSR. */
  function Chain(cpsr: Word, a: seq<Word>, b: seq<Word>): (r: (seq<Word>, Word))
    requires |a| == |b|
    ensures |r.0| == |a|
    decreases |a|
  {
    if a == [] then ([], cpsr)
    else
      var (rest, last) := Chain(Flags(5, cpsr, a[0], b[0]), a[1..], b[1..]);
      ([Result(5, a[0], b[0], Flag(cpsr, C))] + rest, last)
  }

  /** No word of the second number is 0xFFFFFFFF where the exact addition carries into it. */
  predicate Lossless(a: seq<Word>, b: seq<Word>, c: bool)
    requires |a| == |b|
  {
    a == [] || (!(c && b[0] == 0xFFFF_FFFF) && Lossless(a[1..], b[1..], Sum3(a[0], b[0], c) >= BASE))
  }

  /** What the chain drops: a carry for each word where 0xFFFFFFFF met a carry. */
  function Loss(cpsr: Word, a: seq<Word>, b: seq<Word>): nat
    requires |a| == |b|
    decreases |a|
  {
    if a == [] then 0
    else
      var lost := if Flag(cpsr, C) && b[0] == 0xFFFF_FFFF then 1 else 0;
      BASE * (lost + Loss(Flags(5, cpsr, a[0], b[0]), a[1..], b[1..]))
  }

  /** One word: result, carry out and what is lost add up to the three-operand sum. */
  lemma OneLimb(cpsr: Word, a: Word, b: Word)
    ensures var c, x := Flag(cpsr, C), Flags(5, cpsr, a, b);
      Sum3(a, b, c) == Result(5, a, b, c) + BASE * (GetBit(x, C) + if c && b == 0xFFFF_FFFF then 1 else 0)
  {
    var c, x := Flag(cpsr, C), Flags(5, cpsr, a, b);
    AddWithCarry(cpsr, a, b);
    var sum := Sum3(a, b, c);
    if sum < BASE {
      WrapUnique(sum, sum, 0);
    } else {
      WrapUnique(sum, sum - BASE, 1);
    }
  }

  /** The chain accounts for every bit of the sum: what is not in the words or the carry is the loss. */
  lemma {:induction false} ChainConserves(cpsr: Word, a: seq<Word>, b: seq<Word>)
    requires |a| == |b|
    ensures var (r, last) := Chain(cpsr, a, b);
      Value(a) + Value(b) + GetBit(cpsr, C) == Value(r) + BasePower(|a|) * GetBit(last, C) + Loss(cpsr, a, b)
    decreases |a|
  {
    if a == [] {
    } else {
      var x := Flags(5, cpsr, a[0], b[0]);
      var (rest, last) := Chain(x, a[1..], b[1..]);
      OneLimb(cpsr, a[0], b[0]);
      ChainConserves(x, a[1..], b[1..]);
      var r := [Result(5, a[0], b[0], Flag(cpsr, C))] + rest;
      assert r[1..] == rest;
      ScaledPower(|a|, GetBit(last, C));
    }
  }

  lemma ScaledPower(n: nat, c: Bit)
    requires n > 0
    ensures BasePower(n) * c == BASE * (BasePower(n - 1) * c)
  {
  }

  lemma {:induction false} LosslessIsNoLoss(cpsr: Word, a: seq<Word>, b: seq<Word>)
    requires |a| == |b|
    ensures Lossless(a, b, Flag(cpsr, C)) <==> Loss(cpsr, a, b) == 0
    decreases |a|
  {
    if a == [] || (Flag(cpsr, C) && b[0] == 0xFFFF_FFFF) {
    } else {
      AddWithCarry(cpsr, a[0], b[0]);
      LosslessIsNoLoss(Flags(5, cpsr, a[0], b[0]), a[1..], b[1..]);
    }
  }

  /**
   For any number of words and any carry-in, the chain leaves the exact sum and its carry if and only
   if no word of the second number is 0xFFFFFFFF where the exact addition carries into it.
   */
  lemma ChainExact(cpsr: Word, a: seq<Word>, b: seq<Word>)
    requires |a| == |b|
    ensures var (r, last) := Chain(cpsr, a, b);
      (Value(a) + Value(b) + GetBit(cpsr, C) == Value(r) + BasePower(|a|) * GetBit(last, C))
      <==> Lossless(a, b, Flag(cpsr, C))
  {
    ChainConserves(cpsr, a, b);
    LosslessIsNoLoss(cpsr, a, b);
  }

  /** The smallest failure: 1 + 0xFFFFFFFF with a carry coming in loses the carry going out. */
  lemma ChainLoses(cpsr: Word)
    requires Flag(cpsr, C)
    ensures var (r, last) := Chain(cpsr, [1], [0xFFFF_FFFF]);
      r == [1] && GetBit(last, C) == 0 && Value([1]) + Value([0xFFFF_FFFF]) + 1 == BASE + 1
  {
    AddWithCarry(cpsr, 1, 0xFFFF_FFFF);
    WrapUnique(BASE + 1, 1, 1);
    assert Chain(Flags(5, cpsr, 1, 0xFFFF_FFFF), [], []) == ([], Flags(5, cpsr, 1, 0xFFFF_FFFF));
  }

  // ----- The program -----

  /** The registers of the program: pointers to the operands and the result, and working registers. */
  datatype Allocation = Allocation(pa: nat, pb: nat, pd: nat, xa: nat, xb: nat, xd: nat)

  ghost predicate Separate(g: Allocation) {
    && g.pa < 15 && g.pb < 15 && g.pd < 15 && g.xa < 15 && g.xb < 15 && g.xd < 15
    && g.pa != g.pb && g.pa != g.pd && g.pb != g.pd
    && {g.xa, g.xb, g.xd} !! {g.pa, g.pb, g.pd} && g.xa != g.xb
  }

  ghost predicate Always(w: Word) {
    GetBits(w, 31, 28) == 14
  }

  /** ADCS rd, rn, rm with an unshifted register. */
  ghost predicate IsAdcs(w: Word, rd: nat, rn: nat, rm: nat) {
    && GetBits(w, 27, 25) == 0 && GetBits(w, 7, 4) == 0 && GetBits(w, 24, 21) == 5 && GetBit(w, 20) == 1
    && GetBit(w, 25) == 0 && GetBit(w, 4) == 0 && GetBit(w, 6) == 0 && GetBits(w, 11, 7) == 0
    && GetBits(w, 19, 16) == rn && GetBits(w, 15, 12) == rd && GetBits(w, 3, 0) == rm
  }

  /** LDR xa,[pa],#4; LDR xb,[pb],#4; ADCS xd,xa,xb; STR xd,[pd],#4. */
  ghost predicate IsLimbCode(code: seq<Word>, g: Allocation) {
    && |code| == 4 && Separate(g)
    && (forall i :: 0 <= i < 4 ==> Always(code[i]))
    && IsSingle(code[0], true, false, true, g.pa, g.xa)
    && IsSingle(code[1], true, false, true, g.pb, g.xb)
    && IsAdcs(code[2], g.xd, g.xa, g.xb)
    && IsSingle(code[3], false, false, true, g.pd, g.xd)
  }

  function Unrolled(code: seq<Word>, n: nat): seq<Word> {
    if n == 0 then [] else code + Unrolled(code, n - 1)
  }

  function Words(s: State, p: Word, n: nat): (w: seq<Word>)
    ensures |w| == n && forall i :: 0 <= i < n ==> w[i] == MemWord(s, Slot(p, i), 0)
  {
    seq(n, i requires 0 <= i < n => MemWord(s, Slot(p, i), 0))
  }

  lemma AdcsEffect(host: Host, s: State, w: Word, rd: nat, rn: nat, rm: nat)
    requires IsAdcs(w, rd, rn, rm) && Always(w) && rd < 15 && rn < 15 && rm < 15
    ensures Dispatch(host, s, w) == WithCpsr(
      WithReg(s, rd, Result(5, s.cells[rn], s.cells[rm], Flag(Cpsr(s), C))),
      Flags(5, Cpsr(s), s.cells[rn], s.cells[rm]))
  {
    assert Shl(host, s.cells[rm], 0) == s.cells[rm];
    assert Decode(host, s, w) == Operands(s.cells[rn], s.cells[rm]);
  }

  lemma {:induction false} RunAppend(host: Host, s: State, p: seq<Word>, q: seq<Word>)
    ensures Run(host, s, p + q) == Run(host, Run(host, s, p), q)
    decreases |q|
  {
    if q == [] {
      assert p + q == p;
    } else {
      var m := |q| - 1;
      assert (p + q)[..|p + q| - 1] == p + q[..m];
      RunAppend(host, s, p, q[..m]);
    }
  }

  lemma RunLast(host: Host, s: State, p: seq<Word>, w: Word)
    ensures Run(host, s, p + [w]) == Dispatch(host, Run(host, s, p), w)
  {
    assert (p + [w])[..|p|] == p;
  }

  lemma RunFour(host: Host, s: State, code: seq<Word>)
    requires |code| == 4
    ensures Run(host, s, code) ==
      Dispatch(host, Dispatch(host, Dispatch(host, Dispatch(host, s, code[0]), code[1]), code[2]), code[3])
  {
    RunLast(host, s, [], code[0]);
    RunLast(host, s, [code[0]], code[1]);
    RunLast(host, s, [code[0], code[1]], code[2]);
    RunLast(host, s, [code[0], code[1], code[2]], code[3]);
    assert [] + [code[0]] == [code[0]];
    assert [code[0]] + [code[1]] == [code[0], code[1]];
    assert [code[0], code[1]] + [code[2]] == [code[0], code[1], code[2]];
    assert [code[0], code[1], code[2]] + [code[3]] == code;
  }

  lemma LoadEffect(host: Host, s: State, w: Word, rn: nat, rd: nat)
    requires IsSingle(w, true, false, true, rn, rd) && Always(w) && rn < 15 && rd < 15 && rn != rd
    ensures Dispatch(host, s, w) == WithReg(WithReg(s, rn, Add(s.cells[rn], 4)), rd, MemWord(s, s.cells[rn], 0))
  {
    SingleDispatch(host, s, w, true, false, true, rn, rd);
  }

  lemma StoreEffect(host: Host, s: State, w: Word, rn: nat, rd: nat)
    requires IsSingle(w, false, false, true, rn, rd) && Always(w) && rn < 15 && rd < 15 && rn != rd
    ensures Dispatch(host, s, w) == PutWord(WithReg(s, rn, Add(s.cells[rn], 4)), s.cells[rn], s.cells[rd])
  {
    SingleDispatch(host, s, w, false, false, true, rn, rd);
  }

  /** The only word of memory that differs is the one at address a, which holds v if it exists. */
  ghost predicate OneWordWritten(s: State, t: State, a: Word, v: Word) {
    && |t.mem| == |s.mem| && t.bigEndian == s.bigEndian
    && (WordOk(s.mem, a) ==> MemWord(t, a, 0) == v)
    && forall x: Word :: x != a ==> MemWord(t, x, 0) == MemWord(s, x, 0)
  }

  lemma StoreWritesOne(s: State, t: State, a: Word, v: Word)
    requires t.bigEndian == s.bigEndian && t.mem == StoreWord(s.mem, s.bigEndian, a, v)
    ensures OneWordWritten(s, t, a, v)
  {
    if WordOk(s.mem, a) {
      LoadStoredWord(s.mem, s.bigEndian, a, v, 0);
    }
    forall x: Word | x != a
      ensures MemWord(t, x, 0) == MemWord(s, x, 0)
    {
      LoadOtherWord(s.mem, s.bigEndian, a, v, x, 0);
    }
  }

  /** One round of the program adds one word and moves the three pointers on. */
  ghost predicate RoundDone(s: State, t: State, g: Allocation)
    requires Separate(g)
  {
    var a, b := MemWord(s, s.cells[g.pa], 0), MemWord(s, s.cells[g.pb], 0);
    && t.cells[g.pa] == Add(s.cells[g.pa], 4) && t.cells[g.pb] == Add(s.cells[g.pb], 4)
    && t.cells[g.pd] == Add(s.cells[g.pd], 4)
    && Cpsr(t) == Flags(5, Cpsr(s), a, b)
    && OneWordWritten(s, t, s.cells[g.pd], Result(5, a, b, Flag(Cpsr(s), C)))
  }

  lemma Round(host: Host, s: State, code: seq<Word>, g: Allocation)
    requires IsLimbCode(code, g)
    ensures RoundDone(s, Run(host, s, code), g)
  {
    RunFour(host, s, code);
    LoadEffect(host, s, code[0], g.pa, g.xa);
    var s1 := Dispatch(host, s, code[0]);
    LoadEffect(host, s1, code[1], g.pb, g.xb);
    var s2 := Dispatch(host, s1, code[1]);
    AdcsEffect(host, s2, code[2], g.xd, g.xa, g.xb);
    var s3 := Dispatch(host, s2, code[2]);
    StoreEffect(host, s3, code[3], g.pd, g.xd);
    var s4 := Dispatch(host, s3, code[3]);
    RoundStates(s, s1, s2, s3, s4, g);
  }

  lemma RoundStates(s: State, s1: State, s2: State, s3: State, s4: State, g: Allocation)
    requires Separate(g)
    requires s1 == WithReg(WithReg(s, g.pa, Add(s.cells[g.pa], 4)), g.xa, MemWord(s, s.cells[g.pa], 0))
    requires s2 == WithReg(WithReg(s1, g.pb, Add(s1.cells[g.pb], 4)), g.xb, MemWord(s1, s1.cells[g.pb], 0))
    requires s3 == WithCpsr(
      WithReg(s2, g.xd, Result(5, s2.cells[g.xa], s2.cells[g.xb], Flag(Cpsr(s2), C))),
      Flags(5, Cpsr(s2), s2.cells[g.xa], s2.cells[g.xb]))
    requires s4 == PutWord(WithReg(s3, g.pd, Add(s3.cells[g.pd], 4)), s3.cells[g.pd], s3.cells[g.xd])
    ensures RoundDone(s, s4, g)
  {
    assert s2.cells[g.xa] == MemWord(s, s.cells[g.pa], 0) && s2.cells[g.xb] == MemWord(s, s.cells[g.pb], 0);
    assert Cpsr(s2) == Cpsr(s) && s3.mem == s.mem;
    StoreWritesOne(s, s4, s.cells[g.pd], s3.cells[g.xd]);
  }

  /** No word of an operand is overwritten before it is read; the result may lie on top of an operand. */
  ghost predicate NoClobber(pd: Word, p: Word, n: nat) {
    forall i: nat, j: nat :: i < j < n ==> Slot(pd, i) != Slot(p, j)
  }

  /** In place, or apart: both ways of laying out the result meet the condition. */
  lemma InPlaceOrApart(pd: Word, p: Word, n: nat)
    requires n <= 0x4000_0000
    requires pd == p || (pd + 4 * n <= p && p + 4 * n <= BASE) || (p + 4 * n <= pd && pd + 4 * n <= BASE)
    ensures NoClobber(pd, p, n)
  {
    forall i: nat, j: nat | i < j < n
      ensures Slot(pd, i) != Slot(p, j)
    {
      if pd == p {
        SlotsApart(p, i, j);
      }
    }
  }

  lemma TailWords(s: State, t: State, p: Word, pd: Word, v: Word, n: nat)
    requires n > 0 && NoClobber(pd, p, n) && OneWordWritten(s, t, pd, v)
    ensures Words(t, Add(p, 4), n - 1) == Words(s, p, n)[1..]
    ensures NoClobber(Add(pd, 4), Add(p, 4), n - 1)
  {
    SlotZero(pd);
    forall i: nat
      ensures Slot(Add(p, 4), i) == Slot(p, i + 1) && Slot(Add(pd, 4), i) == Slot(pd, i + 1)
    {
      SlotShift(p, 1, i);
      SlotShift(pd, 1, i);
    }
    forall i | 0 <= i < n - 1
      ensures Words(t, Add(p, 4), n - 1)[i] == Words(s, p, n)[1..][i]
    {
      assert Slot(pd, 0) != Slot(p, i + 1);
    }
  }

  /** The condition under which the program adds: accepted result words, and no operand word lost. */
  ghost predicate Ready(s: State, g: Allocation, n: nat)
    requires Separate(g)
  {
    && n <= 0x4000_0000
    && NoClobber(s.cells[g.pd], s.cells[g.pa], n) && NoClobber(s.cells[g.pd], s.cells[g.pb], n)
    && forall i :: 0 <= i < n ==> WordOk(s.mem, Slot(s.cells[g.pd], i))
  }

  /** The result words and the flags are those of the chain; no other word of memory has changed. */
  ghost predicate ProgramDone(s: State, t: State, g: Allocation, n: nat)
    requires Separate(g)
  {
    && (Words(t, s.cells[g.pd], n), Cpsr(t)) == Chain(Cpsr(s), Words(s, s.cells[g.pa], n), Words(s, s.cells[g.pb], n))
    && t.bigEndian == s.bigEndian && |t.mem| == |s.mem|
    && forall x: Word :: (forall i :: 0 <= i < n ==> Slot(s.cells[g.pd], i) != x) ==>
         MemWord(t, x, 0) == MemWord(s, x, 0)
  }

  lemma RoundReady(s: State, u: State, g: Allocation, n: nat)
    requires Separate(g) && n > 0 && Ready(s, g, n) && RoundDone(s, u, g)
    ensures Ready(u, g, n - 1)
    ensures Words(u, u.cells[g.pa], n - 1) == Words(s, s.cells[g.pa], n)[1..]
    ensures Words(u, u.cells[g.pb], n - 1) == Words(s, s.cells[g.pb], n)[1..]
  {
    var pd := s.cells[g.pd];
    var v := Result(5, MemWord(s, s.cells[g.pa], 0), MemWord(s, s.cells[g.pb], 0), Flag(Cpsr(s), C));
    TailWords(s, u, s.cells[g.pa], pd, v, n);
    TailWords(s, u, s.cells[g.pb], pd, v, n);
    ShiftedSlots(pd, n);
  }

  lemma ProgramStep(s: State, u: State, t: State, g: Allocation, n: nat)
    requires Separate(g) && n > 0 && Ready(s, g, n) && RoundDone(s, u, g)
    requires ProgramDone(u, t, g, n - 1)
    ensures ProgramDone(s, t, g, n)
  {
    var pa, pb, pd := s.cells[g.pa], s.cells[g.pb], s.cells[g.pd];
    RoundReady(s, u, g, n);
    WordsHead(s, pa, n);
    WordsHead(s, pb, n);
    WordsHead(t, pd, n);
    var a, b := Words(s, pa, n), Words(s, pb, n);
    var v := Result(5, a[0], b[0], Flag(Cpsr(s), C));
    SlotZero(pd);
    FirstWordStays(s, u, t, pd, v, n);
    ChainUnfold(Cpsr(s), a, b, Words(t, Add(pd, 4), n - 1), Cpsr(t));
    OthersStay(s, u, t, pd, v, n);
  }

  lemma ChainUnfold(cpsr: Word, a: seq<Word>, b: seq<Word>, rest: seq<Word>, last: Word)
    requires |a| == |b| > 0
    requires (rest, last) == Chain(Flags(5, cpsr, a[0], b[0]), a[1..], b[1..])
    ensures Chain(cpsr, a, b) == ([Result(5, a[0], b[0], Flag(cpsr, C))] + rest, last)
  {
  }

  lemma WordsHead(s: State, p: Word, n: nat)
    requires 0 < n <= 0x4000_0000
    ensures Words(s, p, n) == [MemWord(s, p, 0)] + Words(s, Add(p, 4), n - 1)
  {
    SlotZero(p);
    ShiftedSlots(p, n);
  }

  lemma OthersStay(s: State, u: State, t: State, pd: Word, v: Word, n: nat)
    requires 0 < n <= 0x4000_0000 && OneWordWritten(s, u, pd, v)
    requires forall x: Word :: (forall i :: 0 <= i < n - 1 ==> Slot(Add(pd, 4), i) != x) ==>
      MemWord(t, x, 0) == MemWord(u, x, 0)
    ensures forall x: Word :: (forall i :: 0 <= i < n ==> Slot(pd, i) != x) ==> MemWord(t, x, 0) == MemWord(s, x, 0)
  {
    SlotZero(pd);
    ShiftedSlots(pd, n);
    forall x: Word | forall i :: 0 <= i < n ==> Slot(pd, i) != x
      ensures MemWord(t, x, 0) == MemWord(s, x, 0)
    {
      assert Slot(pd, 0) != x;
    }
  }

  /** The unrolled program computes the chain on the words its pointers start at. */
  lemma {:induction false} ProgramIsChain(host: Host, s: State, code: seq<Word>, g: Allocation, n: nat)
    requires IsLimbCode(code, g) && Ready(s, g, n)
    ensures ProgramDone(s, Run(host, s, Unrolled(code, n)), g, n)
    decreases n
  {
    if n == 0 {
    } else {
      var u := Run(host, s, code);
      RunAppend(host, s, code, Unrolled(code, n - 1));
      Round(host, s, code, g);
      RoundReady(s, u, g, n);
      ProgramIsChain(host, u, code, g, n - 1);
      ProgramStep(s, u, Run(host, u, Unrolled(code, n - 1)), g, n);
    }
  }

  lemma ShiftedSlots(p: Word, n: nat)
    requires 0 < n <= 0x4000_0000
    ensures forall i: nat :: Slot(Add(p, 4), i) == Slot(p, i + 1)
    ensures forall i: nat :: i < n - 1 ==> Slot(Add(p, 4), i) != p
  {
    SlotZero(p);
    forall i: nat
      ensures Slot(Add(p, 4), i) == Slot(p, i + 1)
      ensures i < n - 1 ==> Slot(p, i + 1) != p
    {
      SlotShift(p, 1, i);
      if i < n - 1 {
        SlotsApart(p, 0, i + 1);
      }
    }
  }

  lemma FirstWordStays(s: State, u: State, t: State, pd: Word, v: Word, n: nat)
    requires 0 < n <= 0x4000_0000 && WordOk(s.mem, pd)
    requires OneWordWritten(s, u, pd, v)
    requires forall x: Word :: (forall i :: 0 <= i < n - 1 ==> Slot(Add(pd, 4), i) != x) ==>
      MemWord(t, x, 0) == MemWord(u, x, 0)
    ensures MemWord(t, pd, 0) == v
  {
    ShiftedSlots(pd, n);
  }

  /**
   The unrolled program, on numbers of any length anywhere in memory: the result words and the final
   carry are the exact sum if and only if no word of the second operand is 0xFFFFFFFF where the exact
   addition carries into it.
   */
  lemma AdditionProgram(host: Host, s: State, code: seq<Word>, g: Allocation, n: nat)
    requires IsLimbCode(code, g) && Ready(s, g, n)
    ensures var t, a, b := Run(host, s, Unrolled(code, n)), Words(s, s.cells[g.pa], n), Words(s, s.cells[g.pb], n);
      (Value(a) + Value(b) + GetBit(Cpsr(s), C) ==
        Value(Words(t, s.cells[g.pd], n)) + BasePower(n) * GetBit(Cpsr(t), C))
      <==> Lossless(a, b, Flag(Cpsr(s), C))
  {
    ProgramIsChain(host, s, code, g, n);
    ChainExact(Cpsr(s), Words(s, s.cells[g.pa], n), Words(s, s.cells[g.pb], n));
  }
}
