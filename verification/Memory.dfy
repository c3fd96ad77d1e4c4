/**
 The memory area (memory.c): a buffer of bytes with its own byte order.

 The functions say what an access means in the byte order of the memory alone. The class
 works as the source does, through the representation of integers on the host, and its
 contracts show that the byte order of the host cancels out.
 */
module MemoryArea {
  import opened Bits

  // ----- What accesses mean -----

  /** Byte number k of a word, from the least significant one: (v >> 8k) & 0xFF. */
  function Lane(v: Word, k: nat): Byte
    requires k < 4
  {
    if k == 0 then v % 0x100
    else if k == 1 then v / 0x100 % 0x100
    else if k == 2 then v / 0x100 / 0x100 % 0x100
    else v / 0x100 / 0x100 / 0x100
  }

  function FromLanes(l0: Byte, l1: Byte, l2: Byte, l3: Byte): Word {
    var x3: int := l3;
    var x2 := x3 * 0x100 + l2;
    var x1 := x2 * 0x100 + l1;
    x1 * 0x100 + l0
  }

  lemma FromLanesLane(l0: Byte, l1: Byte, l2: Byte, l3: Byte)
    ensures Lane(FromLanes(l0, l1, l2, l3), 0) == l0
    ensures Lane(FromLanes(l0, l1, l2, l3), 1) == l1
    ensures Lane(FromLanes(l0, l1, l2, l3), 2) == l2
    ensures Lane(FromLanes(l0, l1, l2, l3), 3) == l3
  {
    var x3: int := l3;
    var x2 := x3 * 0x100 + l2;
    var x1 := x2 * 0x100 + l1;
    var x0 := x1 * 0x100 + l0;
    assert x0 / 0x100 == x1 && x0 % 0x100 == l0;
    assert x1 / 0x100 == x2 && x1 % 0x100 == l1;
    assert x2 / 0x100 == x3 && x2 % 0x100 == l2;
  }

  /** The four bytes of a word, from the lowest address up, in the given byte order. */
  function WordBytes(big: bool, v: Word): (b: seq<Byte>)
    ensures |b| == 4
  {
    if big
    then [Lane(v, 3), Lane(v, 2), Lane(v, 1), Lane(v, 0)]
    else [Lane(v, 0), Lane(v, 1), Lane(v, 2), Lane(v, 3)]
  }

  function JoinWord(big: bool, b: seq<Byte>): Word
    requires |b| == 4
  {
    if big then FromLanes(b[3], b[2], b[1], b[0]) else FromLanes(b[0], b[1], b[2], b[3])
  }

  function HalfBytes(big: bool, v: Half): (b: seq<Byte>)
    ensures |b| == 2
  {
    if big then [v / 0x100, v % 0x100] else [v % 0x100, v / 0x100]
  }

  function JoinHalf(big: bool, b: seq<Byte>): Half
    requires |b| == 2
  {
    var low: int, high: int := if big then b[1] else b[0], if big then b[0] else b[1];
    high * 0x100 + low
  }

  /** Contents of a memory: the source never reads or writes past the end when the size is a multiple of 4. */
  type Contents = m: seq<Byte> | |m| % 4 == 0

  predicate ByteOk(m: Contents, a: Word) {
    a < |m|
  }

  predicate HalfOk(m: Contents, a: Word) {
    a < |m| && a % 2 == 0
  }

  predicate WordOk(m: Contents, a: Word) {
    a < |m| && a % 4 == 0
  }

  /** A word access that is refused leaves the variable it reads into at its former value. */
  function LoadWord(m: Contents, big: bool, a: Word, former: Word): Word {
    if WordOk(m, a) then JoinWord(big, m[a..a + 4]) else former
  }

  function LoadHalf(m: Contents, big: bool, a: Word, former: Half): Half {
    if HalfOk(m, a) then JoinHalf(big, m[a..a + 2]) else former
  }

  function LoadByte(m: Contents, a: Word, former: Byte): Byte {
    if ByteOk(m, a) then m[a] else former
  }

  function StoreWord(m: Contents, big: bool, a: Word, v: Word): Contents {
    if WordOk(m, a) then
      var b := WordBytes(big, v);
      m[a := b[0]][a + 1 := b[1]][a + 2 := b[2]][a + 3 := b[3]]
    else m
  }

  function StoreHalf(m: Contents, big: bool, a: Word, v: Half): Contents {
    if HalfOk(m, a) then
      var b := HalfBytes(big, v);
      assert a + 1 < |m|;
      m[a := b[0]][a + 1 := b[1]]
    else m
  }

  function StoreByte(m: Contents, a: Word, v: Byte): Contents {
    if ByteOk(m, a) then m[a := v] else m
  }

  // ----- Laws of the accesses -----

  lemma WordBytesInverse(big: bool, v: Word)
    ensures JoinWord(big, WordBytes(big, v)) == v
  {
    assert FromLanes(Lane(v, 0), Lane(v, 1), Lane(v, 2), Lane(v, 3)) == v;
  }

  lemma LoadStoredWord(m: Contents, big: bool, a: Word, v: Word, former: Word)
    requires WordOk(m, a)
    ensures LoadWord(StoreWord(m, big, a, v), big, a, former) == v
  {
    assert StoreWord(m, big, a, v)[a..a + 4] == WordBytes(big, v);
    WordBytesInverse(big, v);
  }

  lemma LoadStoredHalf(m: Contents, big: bool, a: Word, v: Half, former: Half)
    requires HalfOk(m, a)
    ensures LoadHalf(StoreHalf(m, big, a, v), big, a, former) == v
  {
    assert StoreHalf(m, big, a, v)[a..a + 2] == HalfBytes(big, v);
  }

  /** Word accesses at different addresses do not interfere: an accepted one is aligned. */
  lemma LoadOtherWord(m: Contents, big: bool, a: Word, v: Word, b: Word, former: Word)
    requires a != b
    ensures LoadWord(StoreWord(m, big, a, v), big, b, former) == LoadWord(m, big, b, former)
  {
    if WordOk(m, a) && WordOk(m, b) {
      assert StoreWord(m, big, a, v)[b..b + 4] == m[b..b + 4];
    }
  }

  /** A store changes no byte outside the bytes it is for. */
  lemma StoreWordAt(m: Contents, big: bool, a: Word, v: Word, i: nat)
    requires WordOk(m, a) && i < |m|
    ensures StoreWord(m, big, a, v)[i] == if a <= i < a + 4 then WordBytes(big, v)[i - a] else m[i]
  {
  }

  lemma StoreWordFrame(m: Contents, big: bool, a: Word, v: Word, i: nat)
    requires i < |m| && !(a <= i < a + 4)
    ensures StoreWord(m, big, a, v)[i] == m[i]
  {
  }

  lemma StoreHalfFrame(m: Contents, big: bool, a: Word, v: Half, i: nat)
    requires i < |m| && !(HalfOk(m, a) && a <= i < a + 2)
    ensures StoreHalf(m, big, a, v)[i] == m[i]
  {
  }

  // ----- Words, halfwords and bytes -----

  /** Accepted: aligned and inside. Accesses of one width at different addresses are apart. */
  lemma AcceptedInside(m: Contents, a: Word, b: Word)
    ensures ByteOk(m, a) <==> a + 1 <= |m|
    ensures HalfOk(m, a) <==> a + 2 <= |m| && a % 2 == 0
    ensures WordOk(m, a) <==> a + 4 <= |m| && a % 4 == 0
    ensures WordOk(m, a) ==> HalfOk(m, a) && (a + 2 < BASE ==> HalfOk(m, a + 2))
    ensures HalfOk(m, a) && HalfOk(m, b) && a != b ==> a + 2 <= b || b + 2 <= a
    ensures WordOk(m, a) && WordOk(m, b) && a != b ==> a + 4 <= b || b + 4 <= a
  {
    var n := |m| / 4;
    InsideBy(|m|, a, 4, n, a / 4);
    InsideBy(|m|, a, 2, 2 * n, a / 2);
    ApartBy(a, b, 2, a / 2, b / 2);
    ApartBy(a, b, 4, a / 4, b / 4);
    if a % 4 == 0 {
      DivUnique(a, 2, 2 * (a / 4), 0);
      DivUnique(a + 2, 2, 2 * (a / 4) + 1, 0);
    }
  }

  lemma InsideBy(size: nat, a: nat, width: nat, n: nat, q: nat)
    requires size == width * n && width in {2, 4} && q == a / width
    ensures a % width == 0 ==> (a < size <==> a + width <= size)
  {
    if width == 2 {
      assert size == 2 * n;
    } else {
      assert size == 4 * n;
    }
  }

  lemma ApartBy(a: nat, b: nat, width: nat, p: nat, q: nat)
    requires width in {2, 4} && p == a / width && q == b / width
    ensures a % width == 0 && b % width == 0 && a != b ==> a + width <= b || b + width <= a
  {
  }

  /** The word at an address is made of the bytes there, the lowest first if the memory is little-endian. */
  lemma WordOfBytes(m: Contents, big: bool, a: Word)
    requires WordOk(m, a)
    ensures var b0: int, b1: int, b2: int, b3: int := m[a], m[a + 1], m[a + 2], m[a + 3];
      LoadWord(m, big, a, 0) ==
        if big then 0x100_0000 * b0 + 0x1_0000 * b1 + 0x100 * b2 + b3
        else b0 + 0x100 * b1 + 0x1_0000 * b2 + 0x100_0000 * b3
  {
    assert m[a..a + 4] == [m[a], m[a + 1], m[a + 2], m[a + 3]];
  }

  lemma HalfOfBytes(m: Contents, big: bool, a: Word)
    requires HalfOk(m, a)
    ensures a + 1 < |m|
    ensures var b0: int, b1: int := m[a], m[a + 1];
      LoadHalf(m, big, a, 0) == if big then 0x100 * b0 + b1 else b0 + 0x100 * b1
  {
    assert m[a..a + 2] == [m[a], m[a + 1]];
  }

  /** The two halves of a word are at its address and 2 further. */
  lemma WordOfHalves(m: Contents, big: bool, a: Word)
    requires WordOk(m, a) && a + 2 < BASE
    ensures var h0: int, h1: int := LoadHalf(m, big, a, 0), LoadHalf(m, big, a + 2, 0);
      LoadWord(m, big, a, 0) == if big then 0x1_0000 * h0 + h1 else h0 + 0x1_0000 * h1
  {
    AcceptedInside(m, a, a);
    AcceptedInside(m, a + 2, a);
    WordOfBytes(m, big, a);
    HalfOfBytes(m, big, a);
    HalfOfBytes(m, big, a + 2);
  }

  /** A word stored is found byte by byte: byte k has the weight 2^(8k), counted from the other end if big-endian. */
  lemma StoredBytes(m: Contents, big: bool, a: Word, v: Word, k: nat)
    requires WordOk(m, a) && k < 4
    ensures v == Lane(v, 0) + 0x100 * Lane(v, 1) + 0x1_0000 * Lane(v, 2) + 0x100_0000 * Lane(v, 3)
    ensures StoreWord(m, big, a, v)[a + if big then 3 - k else k] == Lane(v, k)
  {
    WordBytesInverse(big, v);
  }

  // ----- The memory object -----

  /** The macro reverse_4: the bytes of a word in the opposite order. */
  function Reverse4(x: Word): Word {
    FromLanes(Lane(x, 3), Lane(x, 2), Lane(x, 1), Lane(x, 0))
  }

  /** The macro reverse_2. */
  function Reverse2(x: Half): Half {
    var low: int := x % 0x100;
    low * 0x100 + x / 0x100
  }

  lemma Reverse4Bytes(big: bool, v: Word)
    ensures WordBytes(big, Reverse4(v)) == WordBytes(!big, v)
  {
    FromLanesLane(Lane(v, 3), Lane(v, 2), Lane(v, 1), Lane(v, 0));
  }

  lemma JoinReversed(big: bool, b: seq<Byte>)
    requires |b| == 4
    ensures Reverse4(JoinWord(!big, b)) == JoinWord(big, b)
  {
    if big {
      FromLanesLane(b[0], b[1], b[2], b[3]);
    } else {
      FromLanesLane(b[3], b[2], b[1], b[0]);
    }
  }

  lemma Reverse2Bytes(big: bool, v: Half)
    ensures HalfBytes(big, Reverse2(v)) == HalfBytes(!big, v)
  {
    var low: int := v % 0x100;
    assert (low * 0x100 + v / 0x100) / 0x100 == low;
  }

  lemma JoinHalfReversed(big: bool, b: seq<Byte>)
    requires |b| == 2
    ensures Reverse2(JoinHalf(!big, b)) == JoinHalf(big, b)
  {
    var low: int, high: int := if big then b[0] else b[1], if big then b[1] else b[0];
    assert (high * 0x100 + low) / 0x100 == high && (high * 0x100 + low) % 0x100 == low;
  }

  class Memory {
    const data: array<Byte>
    const isBigEndian: bool

    ghost predicate Valid() {
      data.Length % 4 == 0
    }

    constructor (size: nat, isBigEndian: bool)
      requires size % 4 == 0
      ensures Valid() && fresh(data) && data.Length == size && this.isBigEndian == isBigEndian
    {
      data := new Byte[size];
      this.isBigEndian := isBigEndian;
    }

    method ReadByte(address: Word, former: Byte) returns (status: int, value: Byte)
      requires Valid()
      ensures status == if ByteOk(data[..], address) then 0 else -1
      ensures value == LoadByte(data[..], address, former)
    {
      if address >= data.Length {
        return -1, former;
      }
      return 0, data[address];
    }

    method ReadHalf(hostBig: bool, address: Word, former: Half) returns (status: int, value: Half)
      requires Valid()
      ensures status == if HalfOk(data[..], address) then 0 else -1
      ensures value == LoadHalf(data[..], isBigEndian, address, former)
    {
      if address >= data.Length {
        return -1, former;
      }
      if address % 2 != 0 {
        return -1, former;
      }
      ghost var bytes := data[address..address + 2];
      assert data[..][address..address + 2] == bytes;
      value := JoinHalf(hostBig, data[address..address + 2]);
      if hostBig != isBigEndian {
        value := Reverse2(value);
        JoinHalfReversed(isBigEndian, bytes);
      }
      status := 0;
    }

    method ReadWord(hostBig: bool, address: Word, former: Word) returns (status: int, value: Word)
      requires Valid()
      ensures status == if WordOk(data[..], address) then 0 else -1
      ensures value == LoadWord(data[..], isBigEndian, address, former)
    {
      if address >= data.Length {
        return -1, former;
      }
      if address % 4 != 0 {
        return -1, former;
      }
      ghost var bytes := data[address..address + 4];
      assert data[..][address..address + 4] == bytes;
      value := JoinWord(hostBig, data[address..address + 4]);
      if hostBig != isBigEndian {
        value := Reverse4(value);
        JoinReversed(isBigEndian, bytes);
      }
      status := 0;
    }

    method WriteByte(address: Word, value: Byte) returns (status: int)
      requires Valid()
      modifies data
      ensures status == if ByteOk(old(data[..]), address) then 0 else -1
      ensures data[..] == StoreByte(old(data[..]), address, value)
    {
      if address >= data.Length {
        return -1;
      }
      data[address] := value;
      return 0;
    }

    method WriteHalf(hostBig: bool, address: Word, value: Half) returns (status: int)
      requires Valid()
      modifies data
      ensures status == if HalfOk(old(data[..]), address) then 0 else -1
      ensures data[..] == StoreHalf(old(data[..]), isBigEndian, address, value)
    {
      if address >= data.Length {
        return -1;
      }
      if address % 2 != 0 {
        return -1;
      }
      var v := value;
      if hostBig != isBigEndian {
        v := Reverse2(value);
        Reverse2Bytes(hostBig, value);
      }
      var bytes := HalfBytes(hostBig, v);
      assert bytes == HalfBytes(isBigEndian, value);
      for i := 0 to 2
        invariant forall k :: 0 <= k < data.Length ==>
          data[k] == if address <= k < address + i then bytes[k - address] else old(data[k])
      {
        data[address + i] := bytes[i];
      }
      return 0;
    }

    method WriteWord(hostBig: bool, address: Word, value: Word) returns (status: int)
      requires Valid()
      modifies data
      ensures status == if WordOk(old(data[..]), address) then 0 else -1
      ensures data[..] == StoreWord(old(data[..]), isBigEndian, address, value)
    {
      if address >= data.Length {
        return -1;
      }
      if address % 4 != 0 {
        return -1;
      }
      var v := value;
      if hostBig != isBigEndian {
        v := Reverse4(value);
        Reverse4Bytes(hostBig, value);
      }
      var bytes := WordBytes(hostBig, v);
      assert bytes == WordBytes(isBigEndian, value);
      for i := 0 to 4
        invariant forall k :: 0 <= k < data.Length ==>
          data[k] == if address <= k < address + i then bytes[k - address] else old(data[k])
      {
        data[address + i] := bytes[i];
      }
      return 0;
    }
  }
}
