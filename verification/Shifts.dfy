/**
 What asr and ror of util.c compute, for the shift counts that C defines.
 */
module Shifts {
  import opened Bits

  lemma {:induction false} PowerSum(m: nat, n: nat)
    ensures Pow2(m + n) == Pow2(m) * Pow2(n)
    decreases m
  {
    if m == 0 {
    } else {
      PowerSum(m - 1, n);
      TwiceProduct(Pow2(n), Pow2(m - 1));
    }
  }

  /** Or of a number below 2^m and a multiple of 2^m is their sum. */
  lemma OrOfParts(low: nat, high: nat, m: nat)
    requires low < Pow2(m)
    ensures Bitwise(Or, low, high * Pow2(m)) == high * Pow2(m) + low
  {
    OrAbove(low, high * Pow2(m), 0, low, high, m);
    OrZero(high);
  }

  lemma {:induction false} OrZero(y: nat)
    ensures Bitwise(Or, 0, y) == y
    decreases y
  {
    if y == 0 {
    } else {
      OrZero(y / 2);
    }
  }

  lemma LessByProduct(p: nat, a: int, b: int)
    requires p * a < p * b
    ensures a < b
  {
    assert p * (a - b) == p * a - p * b;
    if a >= b {
      MulNonNegative(p, a - b);
    }
  }

  lemma MulNonNegative(a: nat, b: nat)
    ensures a * b >= 0
  {
  }

  lemma QuotientFits(x: Word, p: nat, q: nat)
    requires p > 0 && p * q == BASE
    ensures x / p < q
  {
    assert x == p * (x / p) + x % p;
    LessByProduct(p, x / p, q);
  }

  /** The high part of a shift left: what does not fit in 32 bits is dropped. */
  lemma ProductDropped(x: nat, d: nat, r: nat, p: nat, q: nat)
    requires x == p * d + r && r < p && p * q == BASE
    ensures Wrap(x * q) == r * q
  {
    assert x * q == d * BASE + r * q by {
      assert (p * d) * q == d * (p * q);
      assert x * q == (p * d) * q + r * q;
    }
    assert 0 <= r * q < BASE by {
      assert (p - 1 - r) * q == (p - 1) * q - r * q;
      assert (p - 1) * q == BASE - q;
      MulNonNegative(p - 1 - r, q);
      MulNonNegative(r, q);
      assert q > 0;
    }
    WrapUnique(x * q, r * q, d);
  }

  lemma Divided(x: nat, p: nat)
    requires p > 0
    ensures x == p * (x / p) + x % p && 0 <= x % p < p
  {
  }

  lemma ShiftedLeft(host: Host, x: Word, n: nat, p: nat, q: nat)
    requires 1 <= n <= 31 && p == Pow2(n) && q == Pow2(32 - n) && p * q == BASE
    ensures Shl(host, x, 32 - n) == x % p * q
  {
    var d, r := x / p, x % p;
    Divided(x, p);
    QuotientBelow(x, p);
    ProductDropped(x, d, r, p, q);
    assert Doubled(x, 32 - n) == x * q by { DoubledIsProduct(x, 32 - n); }
  }

  /** ror rotates: the low n bits come back at the top. */
  lemma RotateRight(host: Host, x: Word, n: nat)
    requires 1 <= n <= 31
    ensures Ror(host, x, n) == x % Pow2(n) * Pow2(32 - n) + x / Pow2(n)
  {
    var p, q := Pow2(n), Pow2(32 - n);
    PowersOfWord(n);
    HalvedIsQuotient(x, n);
    QuotientFits(x, p, q);
    ShiftedLeft(host, x, n, p, q);
    OrOfParts(x / p, x % p, 32 - n);
  }

  lemma OrNothing(x: nat)
    ensures Bitwise(Or, x, 0) == x
    decreases x
  {
    if x == 0 {
    } else {
      OrNothing(x / 2);
    }
  }

  /** The floor of the signed quotient, for a number that is negative as a signed word. */
  lemma SignedQuotient(x: Word, p: nat, q: nat)
    requires p > 0 && p * q == BASE && x >= 0x8000_0000
    ensures Signed(x) / p == x / p - q
  {
    var d, r := x / p, x % p;
    assert x == p * d + r;
    assert p * (d - q) == p * d - p * q;
    DivUnique(Signed(x), p, d - q, r);
  }

  lemma AllOnes(p: nat, q: nat)
    requires p > 0 && q > 0 && p * q == BASE
    ensures 0xFFFF_FFFF % p == p - 1
  {
    assert 0xFFFF_FFFF == p * (q - 1) + (p - 1) by {
      assert p * (q - 1) == p * q - p;
    }
    DivUnique(0xFFFF_FFFF, p, q - 1, p - 1);
  }

  lemma AtMostHalf(p: nat, q: nat)
    requires p >= 2 && p * q == BASE
    ensures q <= 0x8000_0000 && (p - 1) * q == BASE - q
  {
    assert (p - 2) * q == p * q - 2 * q;
    MulNonNegative(p - 2, q);
    assert (p - 1) * q == p * q - q;
  }

  lemma ShiftNegative(host: Host, x: Word, n: nat, p: nat, q: nat)
    requires 1 <= n <= 31 && p == Pow2(n) && q == Pow2(32 - n) && p * q == BASE && x >= 0x8000_0000
    ensures Asr(host, x, n) == (p - 1) * q + x / p
  {
    SignBit(x);
    var low: nat, high := x / p, Shl(host, 0xFFFF_FFFF, 32 - n);
    assert high == (p - 1) * q by {
      ShiftedLeft(host, 0xFFFF_FFFF, n, p, q);
      AllOnes(p, q);
    }
    HalvedIsQuotient(x, n);
    assert low < Pow2(32 - n) by { QuotientFits(x, p, q); }
    assert Asr(host, x, n) == Bitwise(Or, low, high);
    OrOfParts(low, p - 1, 32 - n);
  }

  lemma ShiftPositive(host: Host, x: Word, n: nat)
    requires 1 <= n <= 31 && x < 0x8000_0000
    ensures Asr(host, x, n) == x / Pow2(n) <= x
  {
    SignBit(x);
    QuotientBelow(x, Pow2(n));
    HalvedIsQuotient(x, n);
    OrNothing(x / Pow2(n));
  }

  lemma PowersOfWord(n: nat)
    requires 1 <= n <= 31
    ensures Pow2(n) * Pow2(32 - n) == BASE && Pow2(n) >= 2
  {
    PowerSum(n, 32 - n);
    Pow2Table();
    assert Pow2(n) == 2 * Pow2(n - 1);
  }

  lemma NegativeQuotient(x: Word, p: nat, q: nat, r: Word)
    requires p >= 2 && p * q == BASE && x >= 0x8000_0000 && r == (p - 1) * q + x / p
    ensures Signed(r) == Signed(x) / p
  {
    AtMostHalf(p, q);
    QuotientFits(x, p, q);
    QuotientBelow(x, p);
    SignedQuotient(x, p, q);
  }

  /** asr divides the signed value by 2^n, rounding down. */
  lemma ArithmeticShift(host: Host, x: Word, n: nat)
    requires 1 <= n <= 31
    ensures Signed(Asr(host, x, n)) == Signed(x) / Pow2(n)
  {
    var p: nat, q: nat := Pow2(n), Pow2(32 - n);
    PowersOfWord(n);
    if x >= 0x8000_0000 {
      ShiftNegative(host, x, n, p, q);
      NegativeQuotient(x, p, q, Asr(host, x, n));
    } else {
      ShiftPositive(host, x, n);
    }
  }

  // ----- The shifter of the manual -----

  /** A shifted register: its value, and the carry out of the shifter. */
  datatype Shifted = Shifted(value: int, carry: bool)

  /** The shifts by n: LSL, LSR, ASR and ROR. The carry is the last bit shifted out. */
  function ShiftBy(shift: nat, rm: Word, n: nat, c: bool): Shifted {
    if n == 0 then Shifted(rm, c)
    else
      match shift
      case 0 =>
        if n < 32 then Shifted(Wrap(rm * Pow2(n)), GetBit(rm, 32 - n) == 1)
        else Shifted(0, n == 32 && GetBit(rm, 0) == 1)
      case 1 => if n < 32 then Shifted(rm / Pow2(n), GetBit(rm, n - 1) == 1)
        else Shifted(0, n == 32 && GetBit(rm, 31) == 1)
      case 2 =>
        if n < 32 then Shifted(Wrap(Signed(rm) / Pow2(n)), GetBit(rm, n - 1) == 1)
        else Shifted(if Signed(rm) < 0 then 0xFFFF_FFFF else 0, GetBit(rm, 31) == 1)
      case _ =>
        var k := n % 32;
        if k == 0 then Shifted(rm, GetBit(rm, 31) == 1)
        else Shifted(rm % Pow2(k) * Pow2(32 - k) + rm / Pow2(k), GetBit(rm, k - 1) == 1)
  }

  /** The shifts by the amount in an instruction: 0 stands for 32 in LSR and ASR, and for RRX in ROR. */
  function ImmediateShift(shift: nat, rm: Word, n: nat, c: bool): Shifted {
    if n != 0 || shift == 0 then ShiftBy(shift, rm, n, c)
    else if shift == 3 then Shifted(BitOf(c) * 0x8000_0000 + rm / 2, GetBit(rm, 0) == 1)
    else ShiftBy(shift, rm, 32, c)
  }

  lemma SignedWord(x: Word)
    ensures Wrap(Signed(x)) == x
  {
  }

  /** The three shifts of util.c and C are those of the manual. */
  lemma ShiftsAgree(host: Host, rm: Word, n: nat, c: bool)
    requires 1 <= n <= 31
    ensures Shl(host, rm, n) == ShiftBy(0, rm, n, c).value
    ensures Asr(host, rm, n) == ShiftBy(2, rm, n, c).value
    ensures Ror(host, rm, n) == ShiftBy(3, rm, n, c).value
  {
    DoubledIsProduct(rm, n);
    ArithmeticShift(host, rm, n);
    SignedWord(Asr(host, rm, n));
    RotateRight(host, rm, n);
    DivUnique(n, 32, 0, n);
  }
}
