/**
 Unsigned 32-bit words and the bit operations of the emulator (util.h, util.c).

 Words are integers below 2^32; every C operation that can wrap is written with Wrap.
 Bits are peeled off from the bottom, so that facts about them are proved by induction;
 GetBitIsShift and PutBitIsSum give the closed forms.
 */
module Bits {
  type Byte = x: int | 0 <= x < 0x100
  type Half = x: int | 0 <= x < 0x1_0000
  type Word = x: int | 0 <= x < 0x1_0000_0000
  type Bit = x: int | 0 <= x < 2

  const BASE: int := 0x1_0000_0000

  /**
   Conversion of a mathematical result to uint32_t: multiples of 2^32 are taken away. WrapIsModulo
   gives the closed form, which the proofs rarely need.
   */
  function Wrap(x: int): Word
    decreases x < 0, if x < 0 then -x else x
  {
    if x < 0 then Wrap(x + 0x1_0000_0000)
    else if x >= 0x1_0000_0000 then Wrap(x - 0x1_0000_0000)
    else x
  }

  lemma {:induction false} WrapIsModulo(x: int)
    ensures Wrap(x) == x % 0x1_0000_0000
    decreases x < 0, if x < 0 then -x else x
  {
    if 0 <= x < 0x1_0000_0000 {
    } else if x < 0 {
      WrapIsModulo(x + 0x1_0000_0000);
    } else {
      WrapIsModulo(x - 0x1_0000_0000);
    }
  }

  /** Addition and subtraction of uint32_t values. */
  function Add(x: int, y: int): Word {
    Wrap(x + y)
  }

  function Sub(x: int, y: int): Word {
    Wrap(x - y)
  }

  lemma {:induction false} WrapUnique(x: int, r: Word, k: int)
    requires x == r + k * BASE
    ensures Wrap(x) == r
    decreases if k < 0 then -k else k
  {
    if k == 0 {
    } else if k < 0 {
      WrapUnique(x + BASE, r, k + 1);
    } else {
      WrapUnique(x - BASE, r, k - 1);
    }
  }

  lemma WrapMultiple(x: int) returns (k: int)
    ensures x == Wrap(x) + k * BASE
  {
    WrapIsModulo(x);
    k := x / BASE;
  }

  /** Reducing an operand first does not change the result. */
  lemma WrapInner(x: int, y: int)
    ensures Add(Wrap(x), y) == Wrap(x + y)
    ensures Sub(Wrap(x), y) == Wrap(x - y)
  {
    var k := WrapMultiple(x);
    var i := WrapMultiple(x + y);
    WrapUnique(Wrap(x) + y, Wrap(x + y), i - k);
    var j := WrapMultiple(x - y);
    WrapUnique(Wrap(x) - y, Wrap(x - y), j - k);
  }

  lemma AddValue(x: Word, y: Word)
    ensures Add(x, y) == if x + y < BASE then x + y else x + y - BASE
  {
    if x + y >= BASE {
      WrapUnique(x + y, x + y - BASE, 1);
    }
  }

  lemma SubValue(x: Word, y: Word)
    ensures Sub(x, y) == if x >= y then x - y else x - y + BASE
  {
    if x < y {
      WrapUnique(x - y, x - y + BASE, -1);
    }
  }

  /** Numbers less than 2^32 apart that are not equal give different words. */
  lemma WrapApart(x: int, d: int)
    requires 0 < d < BASE
    ensures Wrap(x + d) != Wrap(x)
  {
    WrapInner(x, d);
    AddValue(Wrap(x), d);
  }

  /** The value of a word read as a two's complement number. */
  function Signed(x: Word): int {
    if x < 0x8000_0000 then x else x - 0x1_0000_0000
  }

  function Pow2(n: nat): (r: nat)
    ensures r > 0
  {
    if n == 0 then 1 else 2 * Pow2(n - 1)
  }

  function BitOf(b: bool): Bit {
    if b then 1 else 0
  }

  // ----- Single bits -----

  function GetBit(x: nat, i: nat): (b: Bit)
    decreases x, i
  {
    if i == 0 then x % 2 else GetBit(x / 2, i - 1)
  }

  function PutBit(x: nat, i: nat, b: Bit): (r: nat)
    decreases x, i
  {
    if i == 0 then x - x % 2 + b else 2 * PutBit(x / 2, i - 1, b) + x % 2
  }

  /** x shifted right by n; HalvedIsQuotient gives the closed form. */
  function Halved(x: nat, n: nat): (r: nat)
    ensures r <= x
    decreases x, n
  {
    if n == 0 then x else Halved(x / 2, n - 1)
  }

  /** The low n bits of x; LowIsRemainder gives the closed form. */
  function Low(x: nat, n: nat): (r: nat)
    ensures r < Pow2(n)
    decreases x, n
  {
    if n == 0 then 0 else 2 * Low(x / 2, n - 1) + x % 2
  }

  /** x shifted left by n. */
  function Doubled(x: nat, n: nat): nat
    decreases n
  {
    if n == 0 then x else Doubled(2 * x, n - 1)
  }

  /** The macro get_bits: the field of x from bit h down to bit l. */
  function GetBits(x: nat, h: nat, l: nat): (r: nat)
    requires l <= h
    ensures r < Pow2(h - l + 1)
  {
    Low(Halved(x, l), h - l + 1)
  }

  function SetBit(x: Word, i: nat): (r: Word)
    requires i < 32
  {
    PutBitWord(x, i, 1);
    PutBit(x, i, 1)
  }

  function ClrBit(x: Word, i: nat): (r: Word)
    requires i < 32
  {
    PutBitWord(x, i, 0);
    PutBit(x, i, 0)
  }

  /** PutBit on words: one bit of x replaced by the truth value b. */
  function Put(x: Word, i: nat, b: bool): (r: Word)
    requires i < 32
  {
    if b then SetBit(x, i) else ClrBit(x, i)
  }

  lemma {:induction false} HalfQuotient(x: nat, p: nat)
    requires p > 0
    ensures x / (2 * p) == (x / 2) / p
    ensures x % (2 * p) == 2 * (x / 2 % p) + x % 2
  {
    var q, r := (x / 2) / p, (x / 2) % p;
    assert x == (2 * p) * q + (2 * r + x % 2) by {
      assert x / 2 == p * q + r;
      assert (2 * p) * q == 2 * (p * q);
    }
    DivUnique(x, 2 * p, q, 2 * r + x % 2);
  }

  /** The quotient and the remainder are the only pair that divides x by d. */
  lemma {:induction false} DivUnique(x: int, d: int, q: int, r: int)
    requires d > 0 && 0 <= r < d && x == d * q + r
    ensures x / d == q && x % d == r
  {
    var k := q - x / d;
    assert d * k == x % d - r by {
      assert x == d * (x / d) + x % d;
      assert d * k == d * q - d * (x / d);
    }
    if k >= 1 {
      MulAtLeast(d, k);
    } else if k <= -1 {
      MulAtLeast(d, -k);
    }
  }

  lemma MulAtLeast(d: int, k: int)
    requires d > 0 && k >= 1
    ensures d * k >= d
    ensures d * -k <= -d
  {
    assert d * k == d + d * (k - 1);
    assert d * -k == -(d * k);
  }

  lemma QuotientBelow(x: nat, d: nat)
    requires d > 0
    ensures 0 <= x / d <= x
  {
    if x / d > 0 {
      assert x == d * (x / d) + x % d;
      MulAtLeast(x / d, d);
    }
  }

  /** The powers of two that occur in the instruction formats. */
  lemma Pow2Table()
    ensures Pow2(0) == 1 && Pow2(3) == 8 && Pow2(4) == 0x10 && Pow2(5) == 0x20 && Pow2(6) == 0x40 && Pow2(7) == 0x80
    ensures Pow2(8) == 0x100 && Pow2(12) == 0x1000 && Pow2(16) == 0x1_0000
    ensures Pow2(20) == 0x10_0000 && Pow2(21) == 0x20_0000 && Pow2(22) == 0x40_0000
    ensures Pow2(23) == 0x80_0000 && Pow2(24) == 0x100_0000 && Pow2(25) == 0x200_0000
    ensures Pow2(28) == 0x1000_0000 && Pow2(29) == 0x2000_0000 && Pow2(30) == 0x4000_0000
    ensures Pow2(31) == 0x8000_0000 && Pow2(32) == 0x1_0000_0000
  {
    assert Pow2(4) == 0x10;
    assert Pow2(8) == 0x100;
    assert Pow2(12) == 0x1000;
    assert Pow2(16) == 0x1_0000;
    assert Pow2(20) == 0x10_0000;
    assert Pow2(24) == 0x100_0000;
    assert Pow2(28) == 0x1000_0000;
  }

  lemma {:induction false} HalvedIsQuotient(x: nat, n: nat)
    ensures Halved(x, n) == x / Pow2(n)
    decreases n
  {
    if n == 0 {
    } else {
      HalvedIsQuotient(x / 2, n - 1);
      HalfQuotient(x, Pow2(n - 1));
    }
  }

  lemma {:induction false} LowIsRemainder(x: nat, n: nat)
    ensures Low(x, n) == x % Pow2(n)
    decreases n
  {
    if n == 0 {
    } else {
      LowIsRemainder(x / 2, n - 1);
      HalfQuotient(x, Pow2(n - 1));
    }
  }

  lemma {:induction false} DoubledIsProduct(x: nat, n: nat)
    ensures Doubled(x, n) == x * Pow2(n)
    decreases n
  {
    if n == 0 {
    } else {
      DoubledIsProduct(2 * x, n - 1);
      assert (2 * x) * Pow2(n - 1) == x * Pow2(n);
    }
  }

  /** GetBits is the macro get_bits: a quotient and a remainder by powers of two. */
  lemma FieldIs(x: nat, h: nat, l: nat, p: int, q: int)
    requires l <= h && p == Pow2(l) && q == Pow2(h - l + 1)
    ensures GetBits(x, h, l) == x / p % q
  {
    HalvedIsQuotient(x, l);
    LowIsRemainder(Halved(x, l), h - l + 1);
  }

  lemma BitIs(x: nat, i: nat, p: int)
    requires p == Pow2(i)
    ensures GetBit(x, i) == x / p % 2
  {
    GetBitIsShift(x, i);
  }

  /** GetBit is the macro get_bit: shift right by i, keep the low bit. */
  lemma {:induction false} GetBitIsShift(x: nat, i: nat)
    ensures GetBit(x, i) == (x / Pow2(i)) % 2
    decreases i
  {
    if i == 0 {
    } else {
      GetBitIsShift(x / 2, i - 1);
      HalfQuotient(x, Pow2(i - 1));
    }
  }

  lemma TwiceProduct(d: int, p: int)
    ensures d * (2 * p) == 2 * (d * p)
  {
  }

  /** PutBit adds or removes the weight of the bit: what `|` and `& ~` with a power of two do. */
  lemma {:induction false} PutBitIsSum(x: nat, i: nat, b: Bit)
    ensures PutBit(x, i, b) == x + (b - GetBit(x, i)) * Pow2(i)
    decreases i
  {
    if i == 0 {
    } else {
      PutBitIsSum(x / 2, i - 1, b);
      TwiceProduct(b - GetBit(x, i), Pow2(i - 1));
    }
  }

  lemma PutBitHalves(x: nat, i: nat, b: Bit)
    ensures i == 0 ==> PutBit(x, i, b) / 2 == x / 2 && PutBit(x, i, b) % 2 == b
    ensures i > 0 ==> PutBit(x, i, b) / 2 == PutBit(x / 2, i - 1, b) && PutBit(x, i, b) % 2 == x % 2
  {
  }

  lemma {:induction false} PutBitGet(x: nat, i: nat, b: Bit, j: nat)
    ensures GetBit(PutBit(x, i, b), j) == if i == j then b else GetBit(x, j)
    decreases i
  {
    PutBitHalves(x, i, b);
    if i == 0 || j == 0 {
    } else {
      PutBitGet(x / 2, i - 1, b, j - 1);
    }
  }

  lemma {:induction false} PutBitSame(x: nat, i: nat)
    ensures PutBit(x, i, GetBit(x, i)) == x
    decreases i
  {
    if i == 0 {
    } else {
      PutBitSame(x / 2, i - 1);
    }
  }

  lemma {:induction false} PutBitCommutes(x: nat, i: nat, a: Bit, j: nat, b: Bit)
    requires i != j
    ensures PutBit(PutBit(x, i, a), j, b) == PutBit(PutBit(x, j, b), i, a)
    decreases i
  {
    var y, z := PutBit(x, i, a), PutBit(x, j, b);
    PutBitHalves(x, i, a);
    PutBitHalves(x, j, b);
    PutBitHalves(y, j, b);
    PutBitHalves(z, i, a);
    if i == 0 || j == 0 {
    } else {
      PutBitCommutes(x / 2, i - 1, a, j - 1, b);
    }
    assert PutBit(y, j, b) / 2 == PutBit(z, i, a) / 2;
    assert PutBit(y, j, b) % 2 == PutBit(z, i, a) % 2;
  }

  lemma {:induction false} PutBitBound(x: nat, i: nat, b: Bit, n: nat)
    requires i < n && x < Pow2(n)
    ensures PutBit(x, i, b) < Pow2(n)
    decreases n
  {
    assert Pow2(n) == 2 * Pow2(n - 1);
    assert x / 2 < Pow2(n - 1);
    if i == 0 {
    } else {
      PutBitBound(x / 2, i - 1, b, n - 1);
    }
  }

  lemma PutBitWord(x: Word, i: nat, b: Bit)
    requires i < 32
    ensures 0 <= PutBit(x, i, b) < 0x1_0000_0000
  {
    Pow2Table();
    PutBitBound(x, i, b, 32);
  }

  /** Writing one bit of a word changes that bit and no other. */
  lemma PutGet(x: Word, i: nat, b: bool, j: nat)
    requires i < 32
    ensures GetBit(Put(x, i, b), j) == if i == j then BitOf(b) else GetBit(x, j)
  {
    PutBitGet(x, i, BitOf(b), j);
  }

  lemma PutSame(x: Word, i: nat)
    requires i < 32
    ensures Put(x, i, GetBit(x, i) == 1) == x
  {
    PutBitSame(x, i);
  }

  lemma PutCommutes(x: Word, i: nat, a: bool, j: nat, b: bool)
    requires i < 32 && j < 32 && i != j
    ensures Put(Put(x, i, a), j, b) == Put(Put(x, j, b), i, a)
  {
    PutBitCommutes(x, i, BitOf(a), j, BitOf(b));
  }

  /** Words are equal when their 32 bits are. */
  lemma {:induction false} BitsDecide(x: nat, y: nat, n: nat)
    requires x < Pow2(n) && y < Pow2(n)
    requires forall i: nat :: i < n ==> GetBit(x, i) == GetBit(y, i)
    ensures x == y
    decreases n
  {
    if n == 0 {
    } else {
      assert GetBit(x, 0) == GetBit(y, 0);
      forall i: nat | i < n - 1
        ensures GetBit(x / 2, i) == GetBit(y / 2, i)
      {
        assert GetBit(x, i + 1) == GetBit(y, i + 1);
      }
      BitsDecide(x / 2, y / 2, n - 1);
    }
  }

  /** Bit 31 is the sign. */
  lemma SignBit(x: Word)
    ensures GetBit(x, 31) == 1 <==> x >= 0x8000_0000
    ensures GetBit(x, 31) == 1 <==> Signed(x) < 0
  {
    GetBitIsShift(x, 31);
    Pow2Table();
    assert GetBit(x, 31) == x / 0x8000_0000 % 2;
  }

  // ----- Bitwise operators -----

  datatype BitOp = And | Or | Xor

  function OnBits(op: BitOp, a: Bit, b: Bit): Bit {
    match op
    case And => if a + b == 2 then 1 else 0
    case Or => if a + b > 0 then 1 else 0
    case Xor => if a + b == 1 then 1 else 0
  }

  function Bitwise(op: BitOp, x: nat, y: nat): nat
    decreases x, y
  {
    if x == 0 && y == 0 then 0
    else 2 * Bitwise(op, x / 2, y / 2) + OnBits(op, x % 2, y % 2)
  }

  lemma BitwiseHalves(op: BitOp, x: nat, y: nat)
    ensures Bitwise(op, x, y) / 2 == Bitwise(op, x / 2, y / 2)
    ensures Bitwise(op, x, y) % 2 == OnBits(op, x % 2, y % 2)
  {
  }

  /** Each operator acts on every bit separately. */
  lemma {:induction false} BitwiseGet(op: BitOp, x: nat, y: nat, i: nat)
    ensures GetBit(Bitwise(op, x, y), i) == OnBits(op, GetBit(x, i), GetBit(y, i))
    decreases i
  {
    BitwiseHalves(op, x, y);
    if i == 0 {
    } else {
      BitwiseGet(op, x / 2, y / 2, i - 1);
    }
  }

  lemma {:induction false} ZeroBits(i: nat)
    ensures GetBit(0, i) == 0
    decreases i
  {
    if i == 0 {
    } else {
      ZeroBits(i - 1);
    }
  }

  lemma {:induction false} BitwiseBound(op: BitOp, x: nat, y: nat, n: nat)
    requires x < Pow2(n) && y < Pow2(n)
    ensures Bitwise(op, x, y) < Pow2(n)
    decreases n
  {
    if n == 0 {
    } else {
      BitwiseBound(op, x / 2, y / 2, n - 1);
    }
  }

  // ----- Or of parts that do not overlap -----

  lemma OrEven(x: nat, z: nat)
    ensures Bitwise(Or, x, 2 * z) == 2 * Bitwise(Or, x / 2, z) + x % 2
  {
    if x == 0 && z == 0 {
      assert Bitwise(Or, 0, 0) == 0;
    }
  }

  lemma Double(a: nat, n: nat)
    requires n > 0
    ensures a * Pow2(n) == 2 * (a * Pow2(n - 1))
  {
  }

  lemma {:induction false} OrAbove(x: nat, z: nat, q: nat, r: nat, y: nat, n: nat)
    requires z == y * Pow2(n) && x == q * Pow2(n) + r && r < Pow2(n)
    ensures Bitwise(Or, x, z) == Bitwise(Or, q, y) * Pow2(n) + r
    decreases n
  {
    if n > 0 {
      Double(y, n);
      Double(q, n);
      Double(Bitwise(Or, q, y), n);
      OrAbove(x / 2, z / 2, q, r / 2, y, n - 1);
      OrEven(x, z / 2);
    } else {
      assert y * Pow2(n) == y && q * Pow2(n) == q;
    }
  }

  lemma {:induction false} OrOnes(x: nat, n: nat)
    requires x < Pow2(n)
    ensures Bitwise(Or, x, Pow2(n) - 1) == Pow2(n) - 1
    decreases n
  {
    if n == 0 {
    } else {
      OrOnes(x / 2, n - 1);
      assert (Pow2(n) - 1) / 2 == Pow2(n - 1) - 1;
    }
  }

  function BitwiseWord(op: BitOp, x: Word, y: Word): Word {
    assert Bitwise(op, x, y) < 0x1_0000_0000 by {
      Pow2Table();
      BitwiseBound(op, x, y, 32);
    }
    Bitwise(op, x, y)
  }

  /** C's ~ on uint32_t. */
  function Not(x: Word): Word {
    0xFFFF_FFFF - x
  }

  lemma {:induction false} NotBound(x: nat, n: nat, i: nat)
    requires x < Pow2(n) && i < n
    ensures GetBit(Pow2(n) - 1 - x, i) == 1 - GetBit(x, i)
    decreases n
  {
    if i == 0 {
    } else {
      NotBound(x / 2, n - 1, i - 1);
      assert (Pow2(n) - 1 - x) / 2 == Pow2(n - 1) - 1 - x / 2;
    }
  }

  /** Not flips every bit of a word. */
  lemma NotGet(x: Word, i: nat)
    requires i < 32
    ensures GetBit(Not(x), i) == 1 - GetBit(x, i)
  {
    Pow2Table();
    NotBound(x, 32, i);
  }

  // ----- Shifts -----

  /**
   What the C standard leaves to the machine that runs the emulator: its byte order, and the
   value of a shift whose count is negative or at least 32. Nothing is assumed about either.
   */
  datatype Host = Host(bigEndian: bool, wildShl: (Word, int) -> Word, wildShr: (Word, int) -> Word)

  function Shl(host: Host, x: Word, n: int): Word {
    if 0 <= n < 32 then Wrap(Doubled(x, n)) else host.wildShl(x, n)
  }

  function Shr(host: Host, x: Word, n: int): Word {
    if 0 <= n < 32 then Halved(x, n) else host.wildShr(x, n)
  }

  function Asr(host: Host, x: Word, n: int): Word {
    BitwiseWord(Or, Shr(host, x, n), if GetBit(x, 31) == 1 then Shl(host, 0xFFFF_FFFF, 32 - n) else 0)
  }

  function Ror(host: Host, x: Word, n: int): Word {
    BitwiseWord(Or, Shr(host, x, n), Shl(host, x, 32 - n))
  }
}
