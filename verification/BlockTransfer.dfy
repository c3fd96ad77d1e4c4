/**
 What a multiple transfer does, whatever its mode: where each register goes, what stays, and
 what a store followed by the matching load restores.
 */
module BlockTransfer {
  import opened Bits
  import opened Core
  import opened MemoryArea
  import opened LoadStore
  import opened Manual

  // ----- The register list -----

  /** The list holds exactly the registers whose bit is set, each one once, in ascending order. */
  lemma {:induction false} ListedExactly(ins: Word, n: nat)
    ensures forall r: nat :: r in ListedBelow(ins, n) <==> r < n && GetBit(ins, r) == 1
    ensures forall i, j :: 0 <= i < j < |ListedBelow(ins, n)| ==> ListedBelow(ins, n)[i] < ListedBelow(ins, n)[j]
    decreases n
  {
    if n == 0 {
    } else {
      ListedExactly(ins, n - 1);
    }
  }

  ghost predicate Ascending(list: RegList) {
    |list| <= 15 && forall i, j :: 0 <= i < j < |list| ==> list[i] < list[j]
  }

  lemma ListedAscending(ins: Word)
    ensures Ascending(Listed(ins))
  {
    ListedExactly(ins, 15);
  }

  // ----- Slots -----

  lemma SlotsApart(start: Word, i: nat, j: nat)
    requires i < j < 0x4000_0000
    ensures Slot(start, i) != Slot(start, j)
  {
    WrapApart(start + 4 * i, 4 * (j - i));
  }

  /** Slots agree modulo 4 with the start of the block, so different ones do not overlap. */
  lemma SlotsDisjoint(start: Word, i: nat, j: nat)
    requires i < j < 0x4000_0000
    ensures Slot(start, i) % 4 == start % 4
    ensures Slot(start, i) + 4 <= Slot(start, j) || Slot(start, j) + 4 <= Slot(start, i)
  {
    SlotsApart(start, i, j);
    SlotModulo(start, i);
    SlotModulo(start, j);
  }

  lemma SlotModulo(start: Word, i: nat)
    ensures Slot(start, i) % 4 == start % 4
  {
    var k := WrapMultiple(start + 4 * i);
    var d: int := i - k * 0x4000_0000;
    assert Slot(start, i) == start + 4 * d;
    SameModulo4(Slot(start, i), start, d);
  }

  lemma SameModulo4(x: int, y: int, d: int)
    requires x == y + 4 * d
    ensures x % 4 == y % 4
  {
    DivUnique(x, 4, y / 4 + d, y % 4);
  }

  // ----- Stores -----

  lemma {:induction false} StoresHit(s: State, list: RegList, start: Word, k: nat, former: Word)
    requires k < |list| <= 15 && WordOk(s.mem, Slot(start, k))
    ensures MemWord(AfterStores(s, list, start), Slot(start, k), former) == s.cells[list[k]]
    decreases |list|
  {
    var m := |list| - 1;
    var t := AfterStores(s, list[..m], start);
    if k == m {
      LoadStoredWord(t.mem, t.bigEndian, Slot(start, m), s.cells[list[m]], former);
    } else {
      StoresHit(s, list[..m], start, k, former);
      SlotsApart(start, k, m);
      LoadOtherWord(t.mem, t.bigEndian, Slot(start, m), s.cells[list[m]], Slot(start, k), former);
    }
  }

  lemma {:induction false} StoresMiss(s: State, list: RegList, start: Word, a: Word, former: Word)
    requires forall k :: 0 <= k < |list| ==> Slot(start, k) != a
    ensures MemWord(AfterStores(s, list, start), a, former) == MemWord(s, a, former)
    decreases |list|
  {
    if list == [] {
    } else {
      var m := |list| - 1;
      var t := AfterStores(s, list[..m], start);
      StoresMiss(s, list[..m], start, a, former);
      LoadOtherWord(t.mem, t.bigEndian, Slot(start, m), s.cells[list[m]], a, former);
    }
  }

  lemma {:induction false} StoresFrame(s: State, list: RegList, start: Word, i: nat)
    requires i < |s.mem|
    requires forall k :: 0 <= k < |list| ==> !(Slot(start, k) <= i < Slot(start, k) + 4)
    ensures AfterStores(s, list, start).mem[i] == s.mem[i]
    decreases |list|
  {
    if list == [] {
    } else {
      var m := |list| - 1;
      var t := AfterStores(s, list[..m], start);
      StoresFrame(s, list[..m], start, i);
      StoreWordFrame(t.mem, t.bigEndian, Slot(start, m), s.cells[list[m]], i);
    }
  }

  /** The effect of STM in terms of the model's block. */
  lemma StoresPlaced(s: State, ins: Word)
    requires ConditionPassed(Cpsr(s), ins) && GetBit(ins, 20) == 0
    ensures var (t, status) := MultipleStep(s, ins);
      var list, start, s1 := Listed(ins), Block(s, ins), MultipleBack(s, ins);
      && status == 0
      && t.cells == s1.cells
      && t == s1.(mem := t.mem) && |t.mem| == |s.mem|
      && (forall k, former: Word :: 0 <= k < |list| && WordOk(s.mem, Slot(start, k)) ==>
            MemWord(t, Slot(start, k), former) == s1.cells[list[k]])
      && (forall i ::
            0 <= i < |s.mem| && (forall k :: 0 <= k < |list| ==> !(Slot(start, k) <= i < Slot(start, k) + 4)) ==>
            t.mem[i] == s.mem[i])
  {
    var list, start, s1 := Listed(ins), Block(s, ins), MultipleBack(s, ins);
    ListedAscending(ins);
    forall k, former: Word | 0 <= k < |list| && WordOk(s.mem, Slot(start, k))
      ensures MemWord(AfterStores(s1, list, start), Slot(start, k), former) == s1.cells[list[k]]
    {
      StoresHit(s1, list, start, k, former);
    }
    forall i | 0 <= i < |s.mem| && (forall k :: 0 <= k < |list| ==> !(Slot(start, k) <= i < Slot(start, k) + 4))
      ensures AfterStores(s1, list, start).mem[i] == s.mem[i]
    {
      StoresFrame(s1, list, start, i);
    }
  }

  // ----- Loads -----

  lemma {:induction false} LoadsHit(s: State, list: RegList, start: Word, k: nat)
    requires Ascending(list) && k < |list|
    ensures AfterLoads(s, list, start).cells[list[k]] == Loaded(s, start, k)
    decreases |list|
  {
    var m := |list| - 1;
    if k == m {
    } else {
      LoadsHit(s, list[..m], start, k);
    }
  }

  lemma {:induction false} LoadsMiss(s: State, list: RegList, start: Word, r: nat)
    requires r < 18 && r !in list
    ensures AfterLoads(s, list, start).cells[r] == s.cells[r]
    decreases |list|
  {
    if list == [] {
    } else {
      var m := |list| - 1;
      assert list[m] in list;
      assert forall x :: x in list[..m] ==> x in list;
      LoadsMiss(s, list[..m], start, r);
    }
  }

  /** A block whose words are all accepted is read word for word. */
  lemma LoadedAccepted(s: State, start: Word, k: nat)
    requires WordOk(s.mem, Slot(start, k))
    ensures forall former: Word :: Loaded(s, start, k) == MemWord(s, Slot(start, k), former)
  {
  }

  /** The effect of LDM in terms of the model's block. */
  lemma LoadsPlaced(s: State, ins: Word)
    requires ConditionPassed(Cpsr(s), ins) && GetBit(ins, 20) == 1
    ensures var (t, status) := MultipleStep(s, ins);
      var list, start, s1 := Listed(ins), Block(s, ins), MultipleBack(s, ins);
      && status == 1
      && t.mem == s.mem && t.mode == s.mode && t.bigEndian == s.bigEndian && t.cycles == s.cycles
      && (forall k :: 0 <= k < |list| ==> t.cells[list[k]] == Loaded(s, start, k))
      && (forall r :: 0 <= r < 15 && r !in list ==> t.cells[r] == s1.cells[r])
      && t.cells[17] == s.cells[17]
      && (GetBit(ins, 15) == 0 ==> t.cells[15] == s1.cells[15] && Cpsr(t) == Cpsr(s))
      && (GetBit(ins, 15) == 1 ==>
            var v := Loaded(s, start, |list|);
            t.cells[15] == BitOf(v != 0) && Cpsr(t) == Put(Cpsr(s), T, GetBit(v, 0) == 1))
  {
    var list, start, s1 := Listed(ins), Block(s, ins), MultipleBack(s, ins);
    ListedAscending(ins);
    forall k: nat
      ensures Loaded(s1, start, k) == Loaded(s, start, k)
    {
      LoadedByMemory(s, s1, start, k);
    }
    forall k | 0 <= k < |list|
      ensures AfterLoads(s1, list, start).cells[list[k]] == Loaded(s1, start, k)
    {
      LoadsHit(s1, list, start, k);
    }
    forall r | 0 <= r < 18 && r !in list
      ensures AfterLoads(s1, list, start).cells[r] == s1.cells[r]
    {
      LoadsMiss(s1, list, start, r);
    }
    assert 15 !in list && 16 !in list && 17 !in list;
  }

  lemma {:induction false} LoadedByMemory(s: State, t: State, start: Word, k: nat)
    requires s.mem == t.mem && s.bigEndian == t.bigEndian
    ensures Loaded(s, start, k) == Loaded(t, start, k)
    decreases k
  {
    if k == 0 {
    } else {
      LoadedByMemory(s, t, start, k - 1);
    }
  }

  // ----- The effect, from the fields of the word -----

  /** The registers after the write-back, which needs W. */
  function MeantCells(s: State, ins: Word): (c: seq<Word>)
    ensures |c| == 18
  {
    var rn := GetBits(ins, 19, 16);
    if GetBit(ins, 21) == 0 then s.cells
    else s.cells[rn := MovedBy(Reg(s, rn), GetBit(ins, 23) == 1, 4 * |Listed(ins)|)]
  }

  /** The address of the k-th word that a multiple transfer moves. */
  function MeantSlot(s: State, ins: Word, k: nat): Word {
    var base := Reg(s, GetBits(ins, 19, 16));
    Wrap(MeantStart(base, |Listed(ins)|, GetBit(ins, 24) == 1, GetBit(ins, 23) == 1) + 4 * k)
  }

  /** No word of the block covers the byte at i. */
  ghost predicate Outside(s: State, ins: Word, i: nat) {
    forall k :: 0 <= k < |Listed(ins)| ==> !(MeantSlot(s, ins, k) <= i < MeantSlot(s, ins, k) + 4)
  }

  lemma BlockMeant(s: State, ins: Word)
    ensures MultipleBack(s, ins) == s.(cells := MeantCells(s, ins))
    ensures forall k: nat :: Slot(Block(s, ins), k) == MeantSlot(s, ins, k)
  {
    var base, n := Reg(s, GetBits(ins, 19, 16)), |Listed(ins)|;
    assert Wrap(base + 4 * 0) == base;
  }

  /**
   STM in every mode, with and without W, for every list and base: the k-th listed register goes to the
   k-th word of the block, no other byte changes, no register but a written-back base does, status 0.
   */
  lemma StoreMultiple(s: State, ins: Word)
    requires ConditionPassed(Cpsr(s), ins) && GetBit(ins, 20) == 0
    ensures var (t, status) := MultipleStep(s, ins);
      var list := Listed(ins);
      && status == 0 && |t.mem| == |s.mem|
      && t == s.(cells := MeantCells(s, ins), mem := t.mem)
      && (forall k, former: Word :: 0 <= k < |list| && WordOk(s.mem, MeantSlot(s, ins, k)) ==>
            MemWord(t, MeantSlot(s, ins, k), former) == t.cells[list[k]])
      && (forall i :: 0 <= i < |s.mem| && Outside(s, ins, i) ==> t.mem[i] == s.mem[i])
  {
    StoresPlaced(s, ins);
    BlockMeant(s, ins);
  }

  /** The k-th loaded register: its word, or what the one before got, or 0, if the memory refuses. */
  ghost predicate LoadedInto(s: State, ins: Word, cells: seq<Word>, k: nat)
    requires |cells| == 18 && k < |Listed(ins)|
  {
    var list := Listed(ins);
    cells[list[k]] ==
      if WordOk(s.mem, MeantSlot(s, ins, k)) then MemWord(s, MeantSlot(s, ins, k), 0)
      else if k == 0 then 0
      else cells[list[k - 1]]
  }

  /**
   LDM in every mode, with and without W, for every list and base: the k-th listed register gets the k-th
   word of the block, a base outside the list is written back if W, r15 and T follow bit 15 of the list,
   nothing else changes; and the closing check fails.
   */
  lemma LoadMultipleEffect(s: State, ins: Word)
    requires ConditionPassed(Cpsr(s), ins) && GetBit(ins, 20) == 1
    ensures var (t, status) := MultipleStep(s, ins);
      var list := Listed(ins);
      && status == 1 && t == s.(cells := t.cells)
      && (forall k: nat :: k < |list| ==> LoadedInto(s, ins, t.cells, k))
      && (forall r :: 0 <= r < 15 && r !in list ==> t.cells[r] == MeantCells(s, ins)[r])
      && t.cells[17] == s.cells[17]
      && (GetBit(ins, 15) == 0 ==> t.cells[15] == MeantCells(s, ins)[15] && Cpsr(t) == Cpsr(s))
      && (GetBit(ins, 15) == 1 ==>
            var a, former := MeantSlot(s, ins, |list|), if list == [] then 0 else t.cells[list[|list| - 1]];
            var v := MemWord(s, a, former);
            t.cells[15] == BitOf(v != 0) && Cpsr(t) == Put(Cpsr(s), T, v % 2 == 1))
  {
    LoadsPlaced(s, ins);
    BlockMeant(s, ins);
    var t, list, start := MultipleStep(s, ins).0, Listed(ins), Block(s, ins);
    forall k: nat | k < |list|
      ensures LoadedInto(s, ins, t.cells, k)
    {
      assert Loaded(s, start, k) == MemWord(s, Slot(start, k), if k == 0 then 0 else Loaded(s, start, k - 1));
    }
    var n := |list|;
    assert Loaded(s, start, n) == MemWord(s, Slot(start, n), if n == 0 then 0 else Loaded(s, start, n - 1));
  }

  // ----- A store and the load that undoes it -----

  ghost predicate Multiple(ins: Word, rn: nat, list: RegList) {
    GetBits(ins, 19, 16) == rn && Listed(ins) == list && GetBit(ins, 15) == 0
  }

  /** IA with DB, IB with DA, DA with IB, DB with IA: both P and U are opposite. */
  ghost predicate Matching(st: Word, ld: Word) {
    && GetBit(st, 20) == 0 && GetBit(ld, 20) == 1
    && GetBit(st, 21) == 1 && GetBit(ld, 21) == 1
    && GetBit(st, 24) != GetBit(ld, 24) && GetBit(st, 23) != GetBit(ld, 23)
  }

  /** Both transfers of a matching pair work on the same block, and the second moves the base back. */
  lemma SameBlock(base: Word, n: nat, before: bool, up: bool)
    ensures StartAddress(MovedBase(base, n, up), n, !before, !up) == StartAddress(base, n, before, up)
    ensures MovedBase(MovedBase(base, n, up), n, !up) == base
  {
    var d := if up then 4 * n else -4 * n;
    var moved := MovedBase(base, n, up);
    assert moved == Wrap(base + d);
    BlockForms(base, n, before, up);
    BlockForms(moved, n, !before, !up);
    WrapInner(base + d, StartOffset(n, !before, !up));
    WrapInner(base + d, 4 * n);
    assert Wrap(base + 0) == base;
  }

  /**
   When the k-th word of the block is refused, the load repeats the register before it, or gives 0.
   Restoring succeeds exactly when that is the right value.
   */
  ghost predicate RestorableAt(s: State, list: RegList, start: Word, k: nat)
    requires k < |list|
  {
    WordOk(s.mem, Slot(start, k)) || s.cells[list[k]] == (if k == 0 then 0 else s.cells[list[k - 1]])
  }

  ghost predicate Restorable(s: State, list: RegList, start: Word) {
    forall k :: 0 <= k < |list| ==> RestorableAt(s, list, start, k)
  }

  /** The words that t holds in the accepted slots of a block are the registers listed in s. */
  ghost predicate Holds(s: State, t: State, list: RegList, start: Word) {
    && t.bigEndian == s.bigEndian && |t.mem| == |s.mem|
    && forall k :: 0 <= k < |list| && WordOk(s.mem, Slot(start, k)) ==>
         MemWord(t, Slot(start, k), 0) == s.cells[list[k]]
  }

  ghost predicate ReloadedAt(s: State, t: State, list: RegList, start: Word, k: nat)
    requires k < |list|
  {
    Loaded(t, start, k) == s.cells[list[k]]
  }

  lemma ReloadStep(s: State, t: State, list: RegList, start: Word, k: nat)
    requires k < |list| && Holds(s, t, list, start)
    requires k > 0 ==> ReloadedAt(s, t, list, start, k - 1)
    ensures ReloadedAt(s, t, list, start, k) <==> RestorableAt(s, list, start, k)
  {
    if WordOk(s.mem, Slot(start, k)) {
      LoadedAccepted(t, start, k);
    } else {
      assert Loaded(t, start, k) == if k == 0 then 0 else Loaded(t, start, k - 1);
    }
  }

  lemma {:induction false} ReloadedUpTo(s: State, t: State, list: RegList, start: Word, n: nat)
    requires n <= |list| && Holds(s, t, list, start)
    ensures (forall k: nat :: k < n ==> ReloadedAt(s, t, list, start, k)) <==>
      (forall k: nat :: k < n ==> RestorableAt(s, list, start, k))
    decreases n
  {
    if n == 0 {
    } else {
      var m := n - 1;
      ReloadedUpTo(s, t, list, start, m);
      if forall k: nat :: k < m ==> ReloadedAt(s, t, list, start, k) {
        ReloadStep(s, t, list, start, m);
      } else {
        var k: nat :| k < m && !ReloadedAt(s, t, list, start, k);
        var j: nat :| j < m && !RestorableAt(s, list, start, j);
        assert k < n && j < n;
      }
    }
  }

  lemma StoreHolds(s: State, st: Word, rn: nat, list: RegList)
    requires Multiple(st, rn, list) && GetBit(st, 20) == 0 && rn < 15 && rn !in list
    requires ConditionPassed(Cpsr(s), st)
    ensures Holds(s, MultipleStep(s, st).0, list, Block(s, st))
  {
    var s1, start := MultipleBack(s, st), Block(s, st);
    ListedAscending(st);
    forall k | 0 <= k < |list| && WordOk(s.mem, Slot(start, k))
      ensures MemWord(MultipleStep(s, st).0, Slot(start, k), 0) == s.cells[list[k]]
    {
      assert list[k] != rn;
      StoresHit(s1, list, start, k, 0);
    }
  }

  /**
   For each of the four matching pairs with write-back: the load brings the base register back,
   whatever happened to the other registers and to the flags in between, and it restores the listed
   registers if and only if they were restorable when the store was made.
   */
  lemma StoreThenLoad(s: State, t: State, st: Word, ld: Word, rn: nat, list: RegList)
    requires Multiple(st, rn, list) && Multiple(ld, rn, list) && Matching(st, ld)
    requires rn < 15 && rn !in list
    requires ConditionPassed(Cpsr(s), st) && ConditionPassed(Cpsr(t), ld)
    requires t.mem == MultipleStep(s, st).0.mem && t.bigEndian == s.bigEndian
    requires t.cells[rn] == MultipleStep(s, st).0.cells[rn]
    ensures var u := MultipleStep(t, ld).0;
      && u.cells[rn] == s.cells[rn]
      && ((forall k :: 0 <= k < |list| ==> u.cells[list[k]] == s.cells[list[k]]) <==> Restorable(s, list, Block(s, st)))
  {
    var start := Block(s, st);
    SameBlock(s.cells[rn], |list|, GetBit(st, 24) == 1, GetBit(st, 23) == 1);
    assert Block(t, ld) == start;
    StoreHolds(s, st, rn, list);
    ReloadedUpTo(s, t, list, start, |list|);
    LoadsPlaced(t, ld);
    assert forall k: nat :: k < |list| ==>
      (ReloadedAt(s, t, list, start, k) <==> MultipleStep(t, ld).0.cells[list[k]] == s.cells[list[k]]);
  }

  /** STMIA and LDMDB past the end of memory: a listed register other than 0 is lost. */
  lemma StoreThenLoadFails(s: State, t: State, st: Word, ld: Word, rn: nat, list: RegList)
    requires Multiple(st, rn, list) && Multiple(ld, rn, list) && Matching(st, ld)
    requires rn < 15 && rn !in list && |list| >= 1
    requires ConditionPassed(Cpsr(s), st) && ConditionPassed(Cpsr(t), ld)
    requires t == MultipleStep(s, st).0
    requires GetBit(st, 24) == 0 && GetBit(st, 23) == 1 && s.cells[rn] == |s.mem| && s.cells[list[0]] == 1
    ensures exists k :: 0 <= k < |list| && MultipleStep(t, ld).0.cells[list[k]] != s.cells[list[k]]
  {
    StoreThenLoad(s, t, st, ld, rn, list);
    WrapUnique(s.cells[rn], s.cells[rn], 0);
    assert Slot(Block(s, st), 0) == s.cells[rn];
    assert !RestorableAt(s, list, Block(s, st), 0);
  }
}
