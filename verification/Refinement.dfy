/**
 A multiple transfer refines the sequence of single transfers that moves the same registers.
 */
module Refinement {
  import opened Bits
  import opened Core
  import opened MemoryArea
  import opened LoadStore
  import opened BlockTransfer
  import opened Instruction

  // ----- The instructions -----

  /** STR or LDR of a word with an immediate offset of 4 and write-back. */
  ghost predicate IsSingle(w: Word, load: bool, before: bool, up: bool, rn: nat, rd: nat) {
    GetBits(w, 27, 25) == 2 && IsWordTransfer(w, load, before, up, before, rn, rd, 4)
  }

  /** STM or LDM with write-back, r15 not listed. */
  ghost predicate IsMultiple(w: Word, load: bool, before: bool, up: bool, rn: nat, list: RegList) {
    && GetBits(w, 27, 25) == 4
    && GetBit(w, 24) == BitOf(before) && GetBit(w, 23) == BitOf(up)
    && GetBit(w, 21) == 1 && GetBit(w, 20) == BitOf(load)
    && Multiple(w, rn, list)
  }

  ghost predicate AllPass(cpsr: Word, program: seq<Word>) {
    forall k :: 0 <= k < |program| ==> ConditionPassed(cpsr, program[k])
  }

  /**
   The single transfers that move the registers of a list one by one, with the same kind of indexing:
   in ascending order if the base moves up, in descending order if it moves down.
   */
  ghost predicate AreSingles(program: seq<Word>, load: bool, before: bool, up: bool, rn: nat, list: RegList) {
    |program| == |list| &&
    forall k :: 0 <= k < |program| ==>
      IsSingle(program[k], load, before, up, rn, list[if up then k else |list| - 1 - k])
  }

  /** What one of these single transfers does, the data register being neither the base nor r15. */
  function SingleEffect(s: State, load: bool, before: bool, up: bool, rn: nat, rd: nat): State
    requires rn < 15 && rd < 15
  {
    var moved := if up then Add(s.cells[rn], 4) else Sub(s.cells[rn], 4);
    var address := if before then moved else s.cells[rn];
    var u := WithReg(s, rn, moved);
    if load then WithReg(u, rd, MemWord(s, address, 0)) else PutWord(u, address, s.cells[rd])
  }

  lemma SingleDispatch(host: Host, s: State, w: Word, load: bool, before: bool, up: bool, rn: nat, rd: nat)
    requires IsSingle(w, load, before, up, rn, rd) && ConditionPassed(Cpsr(s), w)
    requires rn < 15 && rd < 15 && rn != rd && (before ==> s.mode == USR)
    ensures Dispatch(host, s, w) == SingleEffect(s, load, before, up, rn, rd)
  {
    assert Index(host, s, w) == 4;
  }

  // ----- One register at a time -----

  /** The transfer of one register, without the base. */
  function One(s: State, load: bool, rd: nat, address: Word): State
    requires rd < 15
  {
    if load then WithReg(s, rd, MemWord(s, address, 0)) else PutWord(s, address, s.cells[rd])
  }

  /** A single transfer on a state whose base register has been moved to b. */
  lemma OneOnMoved(host: Host, s: State, w: Word, load: bool, before: bool, up: bool, rn: nat, rd: nat, b: Word)
    requires IsSingle(w, load, before, up, rn, rd) && ConditionPassed(Cpsr(s), w)
    requires rn < 15 && rd < 15 && rn != rd && (before ==> s.mode == USR)
    ensures var moved := if up then Add(b, 4) else Sub(b, 4);
      Dispatch(host, WithReg(s, rn, b), w) == WithReg(One(s, load, rd, if before then moved else b), rn, moved)
  {
    var t := WithReg(s, rn, b);
    var moved := if up then Add(b, 4) else Sub(b, 4);
    var address := if before then moved else b;
    SingleDispatch(host, t, w, load, before, up, rn, rd);
    assert t.cells[rn := moved] == s.cells[rn := moved];
    if load {
      var v := MemWord(s, address, 0);
      assert s.cells[rn := moved][rd := v] == s.cells[rd := v][rn := moved];
    }
  }

  /** The state after single loads of a block: a refused one gives 0. */
  function AfterSingleLoads(s: State, list: RegList, start: Word): (t: State)
    ensures t == s.(cells := t.cells) && Cpsr(t) == Cpsr(s)
    decreases |list|
  {
    if list == [] then s
    else
      var k := |list| - 1;
      WithReg(AfterSingleLoads(s, list[..k], start), list[k], MemWord(s, Slot(start, k), 0))
  }

  lemma {:induction false} SingleLoadsHit(s: State, list: RegList, start: Word, r: nat)
    requires Ascending(list) && r < 18
    ensures r !in list ==> AfterSingleLoads(s, list, start).cells[r] == s.cells[r]
    ensures forall k :: 0 <= k < |list| && list[k] == r ==>
      AfterSingleLoads(s, list, start).cells[r] == MemWord(s, Slot(start, k), 0)
    decreases |list|
  {
    if list == [] {
    } else {
      var m := |list| - 1;
      assert list[m] in list && forall x :: x in list[..m] ==> x in list;
      SingleLoadsHit(s, list[..m], start, r);
    }
  }

  /** The block moved one register at a time, lowest first. */
  function Moves(s: State, load: bool, list: RegList, start: Word): (t: State)
    ensures Cpsr(t) == Cpsr(s) && t.mode == s.mode && t.bigEndian == s.bigEndian
  {
    if load then AfterSingleLoads(s, list, start) else AfterStores(s, list, start)
  }

  lemma MovesLast(s: State, load: bool, list: RegList, start: Word)
    requires list != []
    ensures var m := |list| - 1;
      Moves(s, load, list, start) == One(Moves(s, load, list[..m], start), load, list[m], Slot(start, m))
  {
  }

  lemma StoreWordCommutes(m: Contents, big: bool, a: Word, v: Word, b: Word, w: Word)
    requires a != b
    ensures StoreWord(StoreWord(m, big, a, v), big, b, w) == StoreWord(StoreWord(m, big, b, w), big, a, v)
  {
    var x, y := StoreWord(StoreWord(m, big, a, v), big, b, w), StoreWord(StoreWord(m, big, b, w), big, a, v);
    if WordOk(m, a) && WordOk(m, b) {
      forall i | 0 <= i < |m|
        ensures x[i] == y[i]
      {
        StoreWordCommutesAt(m, big, a, v, b, w, i);
      }
    }
  }

  lemma StoreWordCommutesAt(m: Contents, big: bool, a: Word, v: Word, b: Word, w: Word, i: nat)
    requires a != b && WordOk(m, a) && WordOk(m, b) && i < |m|
    ensures StoreWord(StoreWord(m, big, a, v), big, b, w)[i] == StoreWord(StoreWord(m, big, b, w), big, a, v)[i]
  {
    assert a + 4 <= b || b + 4 <= a;
    StoreWordAt(m, big, a, v, i);
    StoreWordAt(m, big, b, w, i);
    StoreWordAt(StoreWord(m, big, a, v), big, b, w, i);
    StoreWordAt(StoreWord(m, big, b, w), big, a, v, i);
  }

  /** Storing the first register last gives the same memory. */
  lemma {:induction false} StoreFirstLast(s: State, list: RegList, start: Word)
    requires 0 < |list| <= 15
    ensures AfterStores(s, list, start) ==
      PutWord(AfterStores(s, list[1..], Slot(start, 1)), Slot(start, 0), s.cells[list[0]])
    decreases |list|
  {
    var m := |list| - 1;
    if m == 0 {
      assert list[..0] == [] && list[1..] == [];
    } else {
      var rest := list[1..];
      assert list[..m][1..] == rest[..m - 1];
      StoreFirstLast(s, list[..m], start);
      SlotShift(start, 1, m - 1);
      SlotsApart(start, 0, m);
      var t := AfterStores(s, rest[..m - 1], Slot(start, 1));
      StoreWordCommutes(t.mem, t.bigEndian, Slot(start, 0), s.cells[list[0]], Slot(start, m), s.cells[list[m]]);
    }
  }

  lemma LoadFirstLastAt(s: State, list: RegList, start: Word, r: nat)
    requires Ascending(list) && list != [] && r < 18 && r != list[0]
    ensures AfterSingleLoads(s, list, start).cells[r] == AfterSingleLoads(s, list[1..], Slot(start, 1)).cells[r]
  {
    var rest := list[1..];
    SingleLoadsHit(s, list, start, r);
    SingleLoadsHit(s, rest, Slot(start, 1), r);
    if r in list {
      var k :| 0 <= k < |list| && list[k] == r;
      assert rest[k - 1] == r;
      SlotShift(start, 1, k - 1);
    }
  }

  /** Loading the first register last gives the same registers. */
  lemma LoadFirstLast(s: State, list: RegList, start: Word)
    requires Ascending(list) && list != []
    ensures AfterSingleLoads(s, list, start) ==
      WithReg(AfterSingleLoads(s, list[1..], Slot(start, 1)), list[0], MemWord(s, Slot(start, 0), 0))
  {
    var t := AfterSingleLoads(s, list, start);
    var u := WithReg(AfterSingleLoads(s, list[1..], Slot(start, 1)), list[0], MemWord(s, Slot(start, 0), 0));
    SingleLoadsHit(s, list, start, list[0]);
    forall r: nat | r < 18 && r != list[0]
      ensures t.cells[r] == u.cells[r]
    {
      LoadFirstLastAt(s, list, start, r);
    }
    assert t.cells == u.cells;
  }

  lemma MovesFirst(s: State, load: bool, list: RegList, start: Word)
    requires Ascending(list) && list != []
    ensures Moves(s, load, list, start) ==
      One(Moves(s, load, list[1..], Slot(start, 1)), load, list[0], Slot(start, 0))
  {
    if load {
      LoadFirstLast(s, list, start);
    } else {
      StoreFirstLast(s, list, start);
    }
  }

  lemma SlotShift(start: Word, i: nat, j: nat)
    ensures Slot(Slot(start, i), j) == Slot(start, i + j)
  {
    WrapInner(start + 4 * i, 4 * j);
  }

  lemma SlotZero(base: Word)
    ensures Slot(base, 0) == base
  {
    assert Add(base, 0) == base;
  }

  /** One more single transfer at the end of a program. */
  lemma OneMore(host: Host, s: State, program: seq<Word>, w: Word, t: State, load: bool, before: bool, up: bool,
          rn: nat, rd: nat, b: Word)
    requires Run(host, s, program) == WithReg(t, rn, b)
    requires IsSingle(w, load, before, up, rn, rd) && ConditionPassed(Cpsr(t), w)
    requires rn < 15 && rd < 15 && rn != rd && (before ==> t.mode == USR)
    ensures var moved := if up then Add(b, 4) else Sub(b, 4);
      Run(host, s, program + [w]) == WithReg(One(t, load, rd, if before then moved else b), rn, moved)
  {
    assert (program + [w])[..|program|] == program;
    OneOnMoved(host, t, w, load, before, up, rn, rd, b);
  }

  lemma NothingMoved(host: Host, s: State, rn: nat)
    requires rn < 15
    ensures Run(host, s, []) == WithReg(s, rn, Slot(s.cells[rn], 0)) == WithReg(s, rn, Sub(s.cells[rn], 0))
  {
    var base := s.cells[rn];
    SlotZero(base);
    assert Sub(base, 0) == base && s.cells[rn := base] == s.cells;
  }

  // ----- Upwards -----

  lemma UpwardPrefix(cpsr: Word, program: seq<Word>, load: bool, before: bool, rn: nat, list: RegList)
    requires AreSingles(program, load, before, true, rn, list) && AllPass(cpsr, program)
    requires rn !in list && list != []
    ensures var m := |list| - 1;
      && AreSingles(program[..m], load, before, true, rn, list[..m]) && AllPass(cpsr, program[..m])
      && IsSingle(program[m], load, before, true, rn, list[m]) && ConditionPassed(cpsr, program[m])
      && list[m] != rn && rn !in list[..m]
  {
    var m := |list| - 1;
    assert list[m] in list && forall x :: x in list[..m] ==> x in list;
  }

  lemma UpwardSlot(base: Word, start: Word, m: nat, before: bool)
    requires start == if before then Add(base, 4) else base
    ensures Slot(start, m) == if before then Slot(base, m + 1) else Slot(base, m)
  {
    SlotZero(base);
    SlotShift(base, 1, m);
  }

  lemma UpwardStep(host: Host, s: State, program: seq<Word>, w: Word, load: bool, before: bool, rn: nat,
          list: RegList, start: Word)
    requires list != [] && rn < 15 && list[|list| - 1] != rn && (before ==> s.mode == USR)
    requires start == if before then Add(s.cells[rn], 4) else s.cells[rn]
    requires IsSingle(w, load, before, true, rn, list[|list| - 1]) && ConditionPassed(Cpsr(s), w)
    requires Run(host, s, program) ==
      WithReg(Moves(s, load, list[..|list| - 1], start), rn, Slot(s.cells[rn], |list| - 1))
    ensures Run(host, s, program + [w]) == WithReg(Moves(s, load, list, start), rn, Slot(s.cells[rn], |list|))
  {
    var base, m := s.cells[rn], |list| - 1;
    UpwardSlot(base, start, m, before);
    SlotNext(base, m);
    OneMore(host, s, program, w, Moves(s, load, list[..m], start), load, before, true, rn, list[m], Slot(base, m));
    MovesLast(s, load, list, start);
  }

  lemma {:induction false} Upwards(host: Host, s: State, program: seq<Word>, load: bool, before: bool, rn: nat,
          list: RegList)
    requires AreSingles(program, load, before, true, rn, list) && AllPass(Cpsr(s), program)
    requires rn < 15 && rn !in list && (before ==> s.mode == USR)
    ensures var base := s.cells[rn];
      Run(host, s, program) ==
        WithReg(Moves(s, load, list, if before then Add(base, 4) else base), rn, Slot(base, |list|))
    decreases |list|
  {
    var base := s.cells[rn];
    if list == [] {
      NothingMoved(host, s, rn);
    } else {
      var m := |list| - 1;
      assert program == program[..m] + [program[m]];
      UpwardPrefix(Cpsr(s), program, load, before, rn, list);
      Upwards(host, s, program[..m], load, before, rn, list[..m]);
      UpwardStep(host, s, program[..m], program[m], load, before, rn, list, if before then Add(base, 4) else base);
    }
  }

  // ----- Downwards -----

  /** The first word of a block of n words that ends below, or at, the base. */
  function BlockBelow(base: Word, n: nat, before: bool): Word {
    if before then Sub(base, 4 * n) else Add(Sub(base, 4 * n), 4)
  }

  lemma BlockBelowNext(base: Word, n: nat, before: bool)
    ensures Slot(BlockBelow(base, n + 1, before), 1) == BlockBelow(base, n, before)
    ensures Sub(Sub(base, 4 * n), 4) == Sub(base, 4 * (n + 1))
    ensures Slot(BlockBelow(base, n + 1, before), 0) == (if before then Sub(base, 4 * (n + 1)) else Sub(base, 4 * n))
  {
    var x: int := base - 4 * n;
    WrapInner(x - 4, 4);
    WrapInner(x, 4);
    SlotZero(BlockBelow(base, n + 1, before));
  }

  lemma DownwardPrefix(cpsr: Word, program: seq<Word>, load: bool, before: bool, rn: nat, list: RegList)
    requires AreSingles(program, load, before, false, rn, list) && AllPass(cpsr, program)
    requires list != []
    ensures var m := |list| - 1;
      && AreSingles(program[..m], load, before, false, rn, list[1..]) && AllPass(cpsr, program[..m])
      && IsSingle(program[m], load, before, false, rn, list[0]) && ConditionPassed(cpsr, program[m])
  {
    var rest, n, shorter := list[1..], |list|, program[..|list| - 1];
    forall k | 0 <= k < |shorter|
      ensures IsSingle(shorter[k], load, before, false, rn, rest[|rest| - 1 - k])
    {
      assert IsSingle(program[k], load, before, false, rn, list[n - 1 - k]);
    }
  }

  lemma WithoutFirst(list: RegList, rn: nat)
    requires list != [] && rn !in list && Ascending(list)
    ensures list[0] != rn && rn !in list[1..] && Ascending(list[1..])
  {
    assert list[0] in list && forall x :: x in list[1..] ==> x in list;
  }

  lemma DownwardStep(host: Host, s: State, program: seq<Word>, w: Word, load: bool, before: bool, rn: nat,
          list: RegList)
    requires Ascending(list) && list != [] && rn < 15 && list[0] != rn && (before ==> s.mode == USR)
    requires IsSingle(w, load, before, false, rn, list[0]) && ConditionPassed(Cpsr(s), w)
    requires var base, m := s.cells[rn], |list| - 1;
      Run(host, s, program) == WithReg(Moves(s, load, list[1..], BlockBelow(base, m, before)), rn, Sub(base, 4 * m))
    ensures var base, n := s.cells[rn], |list|;
      Run(host, s, program + [w]) == WithReg(Moves(s, load, list, BlockBelow(base, n, before)), rn, Sub(base, 4 * n))
  {
    var base, m := s.cells[rn], |list| - 1;
    var start := BlockBelow(base, m + 1, before);
    BlockBelowNext(base, m, before);
    OneMore(host, s, program, w, Moves(s, load, list[1..], Slot(start, 1)), load, before, false, rn, list[0],
      Sub(base, 4 * m));
    MovesFirst(s, load, list, start);
  }

  lemma {:induction false} Downwards(host: Host, s: State, program: seq<Word>, load: bool, before: bool,
          rn: nat, list: RegList)
    requires AreSingles(program, load, before, false, rn, list) && AllPass(Cpsr(s), program)
    requires rn < 15 && rn !in list && Ascending(list) && (before ==> s.mode == USR)
    ensures var base, n := s.cells[rn], |list|;
      Run(host, s, program) == WithReg(Moves(s, load, list, BlockBelow(base, n, before)), rn, Sub(base, 4 * n))
    decreases |list|
  {
    if list == [] {
      NothingMoved(host, s, rn);
    } else {
      var m := |list| - 1;
      assert program == program[..m] + [program[m]];
      WithoutFirst(list, rn);
      DownwardPrefix(Cpsr(s), program, load, before, rn, list);
      Downwards(host, s, program[..m], load, before, rn, list[1..]);
      DownwardStep(host, s, program[..m], program[m], load, before, rn, list);
    }
  }

  // ----- All modes -----

  /** The single transfers move the same block as the multiple one and leave the base where it does. */
  lemma SinglesMoveBlock(host: Host, s: State, w: Word, program: seq<Word>, load: bool, before: bool, up: bool,
          rn: nat, list: RegList)
    requires IsMultiple(w, load, before, up, rn, list)
    requires AreSingles(program, load, before, up, rn, list) && AllPass(Cpsr(s), program)
    requires rn < 15 && rn !in list && (before ==> s.mode == USR)
    ensures Run(host, s, program) == WithReg(Moves(s, load, list, Block(s, w)), rn, MovedBase(s.cells[rn], |list|, up))
  {
    ListedAscending(w);
    if up {
      Upwards(host, s, program, load, before, rn, list);
    } else {
      Downwards(host, s, program, load, before, rn, list);
      WrapInner(s.cells[rn] - 4 * |list|, 4);
    }
  }

  /** The stores do not read the base register: writing it back before or after them is the same. */
  lemma {:induction false} StoresIgnoreBase(s: State, list: RegList, start: Word, rn: nat, v: Word)
    requires rn < 15 && rn !in list
    ensures AfterStores(WithReg(s, rn, v), list, start) == WithReg(AfterStores(s, list, start), rn, v)
    decreases |list|
  {
    if list == [] {
    } else {
      var m := |list| - 1;
      assert list[m] in list && forall x :: x in list[..m] ==> x in list;
      StoresIgnoreBase(s, list[..m], start, rn, v);
    }
  }

  /**
   STM with write-back in any mode is the sequence of single stores with the same indexing, ascending
   for IA and IB and descending for DA and DB: the same registers, flags and memory. The forms with
   pre-indexing write the user bank.
   */
  lemma StoreMultipleRefines(host: Host, s: State, stm: Word, program: seq<Word>, before: bool, up: bool,
          rn: nat, list: RegList)
    requires IsMultiple(stm, false, before, up, rn, list) && ConditionPassed(Cpsr(s), stm)
    requires AreSingles(program, false, before, up, rn, list) && AllPass(Cpsr(s), program)
    requires rn < 15 && rn !in list && (before ==> s.mode == USR)
    ensures Dispatch(host, s, stm) == Run(host, s, program)
  {
    SinglesMoveBlock(host, s, stm, program, false, before, up, rn, list);
    StoresIgnoreBase(s, list, Block(s, stm), rn, MovedBase(s.cells[rn], |list|, up));
  }

  /** An accepted word at k followed by a refused one is 0. */
  ghost predicate QuietAt(s: State, start: Word, k: nat) {
    WordOk(s.mem, Slot(start, k)) && !WordOk(s.mem, Slot(start, k + 1)) ==> MemWord(s, Slot(start, k), 0) == 0
  }

  ghost predicate QuietEdge(s: State, start: Word, n: nat) {
    forall k: nat :: k + 1 < n ==> QuietAt(s, start, k)
  }

  ghost predicate SameLoad(s: State, start: Word, k: nat) {
    Loaded(s, start, k) == MemWord(s, Slot(start, k), 0)
  }

  lemma {:induction false} SameLoads(s: State, start: Word, n: nat)
    ensures (forall k: nat :: k < n ==> SameLoad(s, start, k)) <==> QuietEdge(s, start, n)
    decreases n
  {
    if n == 0 {
    } else if n == 1 {
      assert SameLoad(s, start, 0);
    } else {
      var m := n - 1;
      SameLoads(s, start, m);
      QuietStep(s, start, m);
      if QuietEdge(s, start, m) {
        assert SameLoad(s, start, m - 1);
        NextLoad(s, start, m - 1);
      } else {
        var k: nat :| k < m && !SameLoad(s, start, k);
        assert k < n;
      }
    }
  }

  lemma QuietStep(s: State, start: Word, m: nat)
    requires m > 0
    ensures QuietEdge(s, start, m + 1) <==> QuietEdge(s, start, m) && QuietAt(s, start, m - 1)
  {
    if QuietEdge(s, start, m) && QuietAt(s, start, m - 1) {
      forall k: nat | k + 1 < m + 1
        ensures QuietAt(s, start, k)
      {
        assert k == m - 1 || k + 1 < m;
      }
    }
  }

  lemma NextLoad(s: State, start: Word, k: nat)
    requires SameLoad(s, start, k)
    ensures SameLoad(s, start, k + 1) <==> QuietAt(s, start, k)
  {
    assert Loaded(s, start, k + 1) == MemWord(s, Slot(start, k + 1), Loaded(s, start, k));
  }

  /**
   LDM with write-back in any mode against the sequence of single loads. They agree if and only if no
   accepted word other than 0 is followed by a refused one in the block: the multiple load keeps the last
   word it read, the single loads start from 0 again.
   */
  lemma LoadMultipleRefines(host: Host, s: State, ldm: Word, program: seq<Word>, before: bool, up: bool,
          rn: nat, list: RegList)
    requires IsMultiple(ldm, true, before, up, rn, list) && ConditionPassed(Cpsr(s), ldm)
    requires AreSingles(program, true, before, up, rn, list) && AllPass(Cpsr(s), program)
    requires rn < 15 && rn !in list && (before ==> s.mode == USR)
    ensures Dispatch(host, s, ldm) == Run(host, s, program) <==> QuietEdge(s, Block(s, ldm), |list|)
  {
    var start := Block(s, ldm);
    SinglesMoveBlock(host, s, ldm, program, true, before, up, rn, list);
    ListedAscending(ldm);
    SameLoads(s, start, |list|);
    LoadsAgree(s, list, start, rn, MovedBase(s.cells[rn], |list|, up));
  }

  lemma LoadsAgree(s: State, list: RegList, start: Word, rn: nat, moved: Word)
    requires Ascending(list) && rn < 15 && rn !in list
    ensures AfterLoads(WithReg(s, rn, moved), list, start) == WithReg(AfterSingleLoads(s, list, start), rn, moved)
      <==> (forall k: nat :: k < |list| ==> SameLoad(s, start, k))
  {
    var s1 := WithReg(s, rn, moved);
    var t, u := AfterLoads(s1, list, start), WithReg(AfterSingleLoads(s, list, start), rn, moved);
    forall r | 0 <= r < 18
      ensures r !in list ==> t.cells[r] == u.cells[r]
    {
      SingleLoadsHit(s, list, start, r);
      if r !in list {
        LoadsMiss(s1, list, start, r);
      }
    }
    forall k | 0 <= k < |list|
      ensures t.cells[list[k]] == u.cells[list[k]] <==> SameLoad(s, start, k)
    {
      SingleLoadsHit(s, list, start, list[k]);
      LoadsHit(s1, list, start, k);
      LoadedByMemory(s, s1, start, k);
    }
    if forall k: nat :: k < |list| ==> SameLoad(s, start, k) {
      assert forall r :: 0 <= r < 18 ==> t.cells[r] == u.cells[r];
      assert t.cells == u.cells;
    }
  }

  /** Where they differ: LDMIA of two registers from the last word of any memory, if that word is not 0. */
  lemma LoadsDiffer(host: Host, s: State, ldm: Word, program: seq<Word>, rn: nat, list: RegList)
    requires IsMultiple(ldm, true, false, true, rn, list) && ConditionPassed(Cpsr(s), ldm)
    requires AreSingles(program, true, false, true, rn, list) && AllPass(Cpsr(s), program)
    requires rn < 15 && rn !in list && |list| >= 2
    requires |s.mem| < BASE && s.cells[rn] == |s.mem| - 4 && MemWord(s, s.cells[rn], 0) != 0
    ensures Dispatch(host, s, ldm) != Run(host, s, program)
  {
    LoadMultipleRefines(host, s, ldm, program, false, true, rn, list);
    SlotZero(s.cells[rn]);
    assert Slot(s.cells[rn], 1) == |s.mem|;
    assert !QuietAt(s, s.cells[rn], 0);
  }
}
