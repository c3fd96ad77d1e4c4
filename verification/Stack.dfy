/**
 STMDB rn! and LDMIA rn! as push and pop: every run of them, with anything in between that keeps
 the base register and the words on the stack, refines an abstract stack of words.
 */
module Stack {
  import opened Bits
  import opened Core
  import opened MemoryArea
  import opened LoadStore
  import opened BlockTransfer
  import opened Instruction
  import opened Refinement
  import opened DataProcessing
  import opened RunInvariants

  /** The stack pointer rn is at a word boundary, base is the first address above the stack, and the
      i-th word from the pointer up is the i-th entry. */
  ghost predicate Represents(s: State, rn: nat, base: Word, st: seq<Word>) {
    && rn < 15
    && s.cells[rn] + 4 * |st| == base <= |s.mem|
    && s.cells[rn] % 4 == 0
    && forall i :: 0 <= i < |st| ==> Entry(s, rn, i) == st[i]
  }

  function Entry(s: State, rn: nat, i: nat): Word
    requires rn < 15
  {
    MemWord(s, Slot(s.cells[rn], i), 0)
  }

  function Values(s: State, list: RegList): (v: seq<Word>)
    ensures |v| == |list| && forall k :: 0 <= k < |list| ==> v[k] == s.cells[list[k]]
  {
    seq(|list|, k requires 0 <= k < |list| => s.cells[list[k]])
  }

  // ----- One step -----

  /** Other stands for any sequence of other instructions, given by the state it leads to. */
  datatype Event = Push(ins: Word) | Pop(ins: Word) | Other(after: State)

  ghost predicate Enabled(s: State, rn: nat, st: seq<Word>, e: Event)
    requires rn < 15
  {
    match e
    case Push(ins) =>
      && IsMultiple(ins, false, true, false, rn, Listed(ins)) && ConditionPassed(Cpsr(s), ins)
      && rn !in Listed(ins) && 4 * |Listed(ins)| <= s.cells[rn]
    case Pop(ins) =>
      && IsMultiple(ins, true, false, true, rn, Listed(ins)) && ConditionPassed(Cpsr(s), ins)
      && rn !in Listed(ins) && |Listed(ins)| <= |st|
    case Other(t) =>
      && t.cells[rn] == s.cells[rn] && |t.mem| == |s.mem|
      && forall i :: 0 <= i < |st| ==> Entry(t, rn, i) == Entry(s, rn, i)
  }

  function Next(host: Host, s: State, e: Event): State {
    match e
    case Push(ins) => Dispatch(host, s, ins)
    case Pop(ins) => Dispatch(host, s, ins)
    case Other(t) => t
  }

  /** The abstract stack, top first; a push puts the lowest register on top. */
  ghost function NextStack(s: State, rn: nat, st: seq<Word>, e: Event): seq<Word>
    requires rn < 15 && Enabled(s, rn, st, e)
  {
    match e
    case Push(ins) => Values(s, Listed(ins)) + st
    case Pop(ins) => st[|Listed(ins)|..]
    case Other(_) => st
  }

  lemma SlotExact(start: Word, k: nat)
    requires start + 4 * k < BASE
    ensures Slot(start, k) == start + 4 * k
  {
  }

  lemma PushEffect(host: Host, s: State, rn: nat, st: seq<Word>, ins: Word)
    requires rn < 15 && Enabled(s, rn, st, Push(ins))
    ensures var list := Listed(ins);
      var low := s.cells[rn] - 4 * |list|;
      Dispatch(host, s, ins) == AfterStores(WithReg(s, rn, low), list, low)
  {
  }

  lemma PushedEntry(s: State, rn: nat, base: Word, st: seq<Word>, list: RegList, low: Word, i: nat)
    requires Represents(s, rn, base, st) && Ascending(list) && rn !in list
    requires s.cells[rn] == low + 4 * |list| && i < |list| + |st|
    ensures MemWord(AfterStores(WithReg(s, rn, low), list, low), Slot(low, i), 0)
         == if i < |list| then s.cells[list[i]] else st[i - |list|]
  {
    var s1 := WithReg(s, rn, low);
    if i < |list| {
      NewEntry(s1, list, low, i);
      assert list[i] != rn;
    } else {
      OldEntry(s, rn, base, st, low, |list|, i);
      OldEntryKept(s1, list, low, i);
    }
  }

  /** Storing registers just below a stack pushes their values. */
  lemma StoresPush(s: State, rn: nat, base: Word, st: seq<Word>, list: RegList, low: Word)
    requires Represents(s, rn, base, st) && Ascending(list) && rn !in list && s.cells[rn] == low + 4 * |list|
    ensures Represents(AfterStores(WithReg(s, rn, low), list, low), rn, base, Values(s, list) + st)
  {
    var v := Values(s, list);
    forall i | 0 <= i < |v + st|
      ensures MemWord(AfterStores(WithReg(s, rn, low), list, low), Slot(low, i), 0) == (v + st)[i]
    {
      PushedEntry(s, rn, base, st, list, low, i);
    }
    Grown(s, AfterStores(WithReg(s, rn, low), list, low), rn, base, st, v, low);
  }

  lemma Grown(s: State, t: State, rn: nat, base: Word, st: seq<Word>, v: seq<Word>, low: Word)
    requires Represents(s, rn, base, st) && s.cells[rn] == low + 4 * |v|
    requires t.cells[rn] == low && |t.mem| == |s.mem|
    requires forall i :: 0 <= i < |v + st| ==> MemWord(t, Slot(low, i), 0) == (v + st)[i]
    ensures Represents(t, rn, base, v + st)
  {
  }

  lemma OldEntryKept(s: State, list: RegList, low: Word, i: nat)
    requires |list| <= i < 0x4000_0000
    ensures MemWord(AfterStores(s, list, low), Slot(low, i), 0) == MemWord(s, Slot(low, i), 0)
  {
    forall k | 0 <= k < |list|
      ensures Slot(low, k) != Slot(low, i)
    {
      SlotsApart(low, k, i);
    }
    StoresMiss(s, list, low, Slot(low, i), 0);
  }

  /** A push stores below the stack: the new entries are in place and the old ones are not touched. */
  lemma PushKeeps(host: Host, s: State, rn: nat, base: Word, st: seq<Word>, ins: Word)
    requires Represents(s, rn, base, st) && Enabled(s, rn, st, Push(ins))
    ensures Represents(Dispatch(host, s, ins), rn, base, Values(s, Listed(ins)) + st)
  {
    ListedAscending(ins);
    PushEffect(host, s, rn, st, ins);
    StoresPush(s, rn, base, st, Listed(ins), s.cells[rn] - 4 * |Listed(ins)|);
  }

  lemma NewEntry(s: State, list: RegList, low: Word, i: nat)
    requires i < |list| <= 15 && low % 4 == 0 && low + 4 * |list| <= |s.mem| && low + 4 * |list| < BASE
    ensures MemWord(AfterStores(s, list, low), Slot(low, i), 0) == s.cells[list[i]]
  {
    SlotExact(low, i);
    StoresHit(s, list, low, i, 0);
  }

  lemma OldEntry(s: State, rn: nat, base: Word, st: seq<Word>, low: Word, n: nat, i: nat)
    requires Represents(s, rn, base, st) && s.cells[rn] == low + 4 * n
    requires n <= i < n + |st|
    ensures MemWord(s, Slot(low, i), 0) == st[i - n] && i < 0x4000_0000
  {
    SlotExact(low, i);
    SlotExact(s.cells[rn], i - n);
    assert Entry(s, rn, i - n) == st[i - n];
  }

  lemma PopEffect(host: Host, s: State, rn: nat, st: seq<Word>, ins: Word)
    requires rn < 15 && Enabled(s, rn, st, Pop(ins))
    ensures var t, list := Dispatch(host, s, ins), Listed(ins);
      && t.mem == s.mem && t.bigEndian == s.bigEndian
      && t.cells[rn] == Add(s.cells[rn], 4 * |list|)
      && forall k :: 0 <= k < |list| ==> t.cells[list[k]] == Loaded(s, s.cells[rn], k)
  {
    LoadsPlaced(s, ins);
    assert Block(s, ins) == s.cells[rn];
  }

  /** A pop delivers the top entries, lowest register first, and leaves the others. */
  lemma PopDelivers(host: Host, s: State, rn: nat, base: Word, st: seq<Word>, ins: Word)
    requires Represents(s, rn, base, st) && Enabled(s, rn, st, Pop(ins))
    ensures Represents(Dispatch(host, s, ins), rn, base, st[|Listed(ins)|..])
    ensures Values(Dispatch(host, s, ins), Listed(ins)) == st[..|Listed(ins)|]
  {
    PopEffect(host, s, rn, st, ins);
    PopRepresents(s, Dispatch(host, s, ins), rn, base, st, Listed(ins));
  }

  lemma PopRepresents(s: State, t: State, rn: nat, base: Word, st: seq<Word>, list: RegList)
    requires Represents(s, rn, base, st) && |list| <= |st|
    requires t.mem == s.mem && t.bigEndian == s.bigEndian && t.cells[rn] == Add(s.cells[rn], 4 * |list|)
    requires forall k :: 0 <= k < |list| ==> t.cells[list[k]] == Loaded(s, s.cells[rn], k)
    ensures Represents(t, rn, base, st[|list|..]) && Values(t, list) == st[..|list|]
  {
    var n, sp := |list|, s.cells[rn];
    forall k | 0 <= k < n
      ensures t.cells[list[k]] == st[k]
    {
      EntryAccepted(s, rn, base, st, k);
      LoadedAccepted(s, sp, k);
      assert Entry(s, rn, k) == st[k];
    }
    PoppedPointer(s, rn, base, st, n);
    forall i | 0 <= i < |st| - n
      ensures Entry(t, rn, i) == st[n..][i]
    {
      SlotShift(sp, n, i);
      assert Entry(s, rn, n + i) == st[n + i];
    }
  }

  lemma EntryAccepted(s: State, rn: nat, base: Word, st: seq<Word>, i: nat)
    requires Represents(s, rn, base, st) && i < |st|
    ensures WordOk(s.mem, Slot(s.cells[rn], i))
  {
    SlotExact(s.cells[rn], i);
  }

  lemma PoppedPointer(s: State, rn: nat, base: Word, st: seq<Word>, n: nat)
    requires Represents(s, rn, base, st) && n <= |st|
    ensures Add(s.cells[rn], 4 * n) == s.cells[rn] + 4 * n
  {
  }

  // ----- Instructions between pushes and pops -----

  lemma SameEntries(s: State, t: State, rn: nat, st: seq<Word>)
    requires rn < 15 && t.cells[rn] == s.cells[rn] && t.mem == s.mem && t.bigEndian == s.bigEndian
    ensures Enabled(s, rn, st, Other(t))
  {
    assert forall i :: 0 <= i < |st| ==> Entry(t, rn, i) == Entry(s, rn, i);
  }

  /** Data processing may stand between pushes and pops unless its destination is rn, or it is RSC. */
  lemma DataIsOther(host: Host, s: State, rn: nat, st: seq<Word>, ins: Word)
    requires rn < 15 && IsDataProcessing(ins)
    requires GetBits(ins, 24, 21) != 7 && (GetBits(ins, 15, 12) != rn || IsCompare(GetBits(ins, 24, 21)))
    ensures Enabled(s, rn, st, Other(Dispatch(host, s, ins)))
  {
    DataStepKeeps(host, s, ins);
    SameEntries(s, DataStep(host, s, ins).0, rn, st);
  }

  /** A load may, if it neither loads rn nor writes it back. */
  lemma LoadIsOther(host: Host, s: State, rn: nat, st: seq<Word>, ins: Word)
    requires rn < 15 && GetBits(ins, 27, 25) in {2, 3} && GetBit(ins, 20) == 1
    requires GetBits(ins, 15, 12) != rn && GetBits(ins, 19, 16) != rn
    ensures Enabled(s, rn, st, Other(Dispatch(host, s, ins)))
  {
    SingleStepKeeps(host, s, ins);
    SameEntries(s, SingleStep(host, s, ins), rn, st);
  }

  /** A store of a word may, if it does not write rn back and its address is no entry of the stack. */
  lemma StoreIsOther(host: Host, s: State, rn: nat, st: seq<Word>, ins: Word)
    requires rn < 15 && GetBits(ins, 27, 25) in {2, 3} && GetBit(ins, 20) == 0 && GetBit(ins, 22) == 0
    requires GetBits(ins, 19, 16) != rn
    requires forall i :: 0 <= i < |st| ==> Slot(s.cells[rn], i) != Address(host, s, ins)
    ensures Enabled(s, rn, st, Other(Dispatch(host, s, ins)))
  {
    if ConditionPassed(Cpsr(s), ins) {
      var s1, a := WrittenBack(host, s, ins), Address(host, s, ins);
      StoredElsewhere(s, s1, rn, st, a, Reg(s1, GetBits(ins, 15, 12)));
    } else {
      SameEntries(s, s, rn, st);
    }
  }

  lemma StoredElsewhere(s: State, s1: State, rn: nat, st: seq<Word>, a: Word, v: Word)
    requires rn < 15 && s1.cells[rn] == s.cells[rn] && s1.mem == s.mem && s1.bigEndian == s.bigEndian
    requires forall i :: 0 <= i < |st| ==> Slot(s.cells[rn], i) != a
    ensures Enabled(s, rn, st, Other(PutWord(s1, a, v)))
  {
    var t := PutWord(s1, a, v);
    forall i | 0 <= i < |st|
      ensures Entry(t, rn, i) == Entry(s, rn, i)
    {
      LoadOtherWord(s.mem, s.bigEndian, a, v, Slot(s.cells[rn], i), 0);
    }
  }

  // ----- Runs -----

  /** Every event of a run is allowed in the state that the events before it lead to. */
  ghost predicate Legal(host: Host, s: State, rn: nat, st: seq<Word>, events: seq<Event>)
    requires rn < 15
    decreases |events|
  {
    events == [] ||
    (Enabled(s, rn, st, events[0]) &&
     Legal(host, Next(host, s, events[0]), rn, NextStack(s, rn, st, events[0]), events[1..]))
  }

  ghost function After(host: Host, s: State, rn: nat, st: seq<Word>, events: seq<Event>): (State, seq<Word>)
    requires rn < 15 && Legal(host, s, rn, st, events)
    decreases |events|
  {
    if events == [] then (s, st)
    else After(host, Next(host, s, events[0]), rn, NextStack(s, rn, st, events[0]), events[1..])
  }

  lemma StepRefines(host: Host, s: State, rn: nat, base: Word, st: seq<Word>, e: Event)
    requires Represents(s, rn, base, st) && Enabled(s, rn, st, e)
    ensures Represents(Next(host, s, e), rn, base, NextStack(s, rn, st, e))
  {
    match e
    case Push(ins) => PushKeeps(host, s, rn, base, st, ins);
    case Pop(ins) => PopDelivers(host, s, rn, base, st, ins);
    case Other(t) =>
  }

  /** Every run refines the abstract stack: at its end the word at rn + 4i is the i-th entry. */
  lemma {:induction false} RunRefines(host: Host, s: State, rn: nat, base: Word, st: seq<Word>, events: seq<Event>)
    requires Represents(s, rn, base, st) && Legal(host, s, rn, st, events)
    ensures var (t, st') := After(host, s, rn, st, events); Represents(t, rn, base, st')
    decreases |events|
  {
    if events == [] {
    } else {
      StepRefines(host, s, rn, base, st, events[0]);
      RunRefines(host, Next(host, s, events[0]), rn, base, NextStack(s, rn, st, events[0]), events[1..]);
    }
  }

  // ----- Well-nested code -----

  /** Straight code, two pieces in sequence, or a body framed by a push and a pop of the same registers. */
  datatype Code = Straight(after: State) | Sequence(first: Code, second: Code) |
    Framed(push: Word, body: Code, pop: Word)

  function Executed(host: Host, s: State, code: Code): State
    decreases code
  {
    match code
    case Straight(t) => t
    case Sequence(c, d) => Executed(host, Executed(host, s, c), d)
    case Framed(push, body, pop) => Dispatch(host, Executed(host, Dispatch(host, s, push), body), pop)
  }

  ghost predicate WellNested(host: Host, s: State, rn: nat, st: seq<Word>, code: Code)
    requires rn < 15
    decreases code
  {
    match code
    case Straight(t) => Enabled(s, rn, st, Other(t))
    case Sequence(c, d) => WellNested(host, s, rn, st, c) && WellNested(host, Executed(host, s, c), rn, st, d)
    case Framed(push, body, pop) =>
      && Listed(push) == Listed(pop) && Enabled(s, rn, st, Push(push))
      && WellNested(host, Dispatch(host, s, push), rn, Values(s, Listed(push)) + st, body)
      && Enabled(Executed(host, Dispatch(host, s, push), body), rn, Values(s, Listed(push)) + st, Pop(pop))
  }

  /**
   Saving and restoring nests to any depth: code that is well nested leaves the stack and its pointer
   as they were, and a frame gives back the registers it saved, whatever its body did to them.
   */
  lemma {:induction false} FramesRestore(host: Host, s: State, rn: nat, base: Word, st: seq<Word>, code: Code)
    requires Represents(s, rn, base, st) && WellNested(host, s, rn, st, code)
    ensures Represents(Executed(host, s, code), rn, base, st)
    ensures Executed(host, s, code).cells[rn] == s.cells[rn]
    ensures code.Framed? ==> Values(Executed(host, s, code), Listed(code.push)) == Values(s, Listed(code.push))
    decreases code
  {
    match code
    case Straight(t) =>
    case Sequence(c, d) =>
      FramesRestore(host, s, rn, base, st, c);
      FramesRestore(host, Executed(host, s, c), rn, base, st, d);
    case Framed(push, body, pop) =>
      var st' := Values(s, Listed(push)) + st;
      PushKeeps(host, s, rn, base, st, push);
      FramesRestore(host, Dispatch(host, s, push), rn, base, st', body);
      PopDelivers(host, Executed(host, Dispatch(host, s, push), body), rn, base, st', pop);
      assert st'[|Listed(pop)|..] == st && st'[..|Listed(pop)|] == Values(s, Listed(push));
  }
}
