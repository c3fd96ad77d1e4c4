/**
 For which words a shift left is the shift right by the same number of bits. The code takes LSR for LSL,
 so these are the words on which it is right.
 */
module Mirror {
  import opened Bits
  import opened Shifts

  /** Within w bits, x shifted right by n is x shifted left by n. */
  predicate ShiftsMeet(x: nat, n: nat, w: nat) {
    w <= n || x / Pow2(n) == x % Pow2(w - n) * Pow2(n)
  }

  /** The number of w bits whose digits in base 4^n are all 1. */
  function Repunit(n: nat, w: nat): nat
    requires n > 0
  {
    if w <= 2 * n then 1 else 1 + Pow2(2 * n) * Repunit(n, w - 2 * n)
  }

  /** The width of the top digit of a number of w bits in base 4^n. */
  function TopWidth(n: nat, w: nat): nat
    requires n > 0 && w > 0
  {
    (w - 1) % (2 * n) + 1
  }

  predicate DigitFits(d: nat, n: nat, top: nat) {
    if top <= n then d < Pow2(top) else d < Pow2(n) && d % Pow2(top - n) == 0
  }

  /** In base 4^n, x is one digit repeated, whose set bits stay clear of both ends after a shift by n. */
  predicate RepeatsDigit(x: nat, n: nat, w: nat)
    requires n > 0 && w > 0
  {
    var d := x % Pow2(2 * n);
    x == d * Repunit(n, w) && DigitFits(d, n, TopWidth(n, w))
  }

  lemma Doubling(n: nat, m: nat)
    requires m == n + n
    ensures Pow2(m) == Pow2(n) * Pow2(n)
  {
    PowerSum(n, n);
  }

  lemma PowerOrder(m: nat, n: nat)
    requires m <= n
    ensures Pow2(m) <= Pow2(n)
  {
    PowerSum(m, n - m);
    MulAtLeast(Pow2(m), Pow2(n - m));
  }

  lemma QuotientBy(x: nat, p: nat, y: nat, l: nat)
    requires p > 0 && x == p * p * y + l && l < p * p
    ensures x / p == p * y + l / p && l / p < p
  {
    Divided(l, p);
    assert p * (p * y) == p * p * y;
    assert p * (p * y + l / p) == p * (p * y) + p * (l / p);
    DivUnique(x, p, p * y + l / p, l % p);
    LessByProduct(p, l / p, p);
  }

  lemma DigitZero(p: nat, y: nat, e: nat, u: nat)
    requires e < p
    ensures p * y + e == u * p <==> e == 0 && y == u
  {
    if p * y + e == u * p {
      assert p * (u - y) == u * p - p * y;
      DivUnique(e, p, u - y, 0);
      DivUnique(e, p, 0, e);
    }
  }

  /** The shifts meet iff the upper half of the low digit is empty and the digits above are those below. */
  lemma MeetByDigits(x: nat, n: nat, w: nat)
    requires w > n
    ensures ShiftsMeet(x, n, w) <==> x % Pow2(2 * n) < Pow2(n) && x / Pow2(2 * n) == x % Pow2(w - n)
  {
    var y: nat, l: nat := x / Pow2(2 * n), x % Pow2(2 * n);
    Doubling(n, 2 * n);
    Divided(x, Pow2(2 * n));
    MeetParts(x, Pow2(n), y, l, x % Pow2(w - n));
  }

  lemma MeetParts(x: nat, p: nat, y: nat, l: nat, u: nat)
    requires p > 0 && x == p * p * y + l && l < p * p
    ensures x / p == u * p <==> l < p && y == u
  {
    QuotientBy(x, p, y, l);
    DigitZero(p, y, l / p, u);
    Divided(l, p);
    if l < p {
      DivUnique(l, p, 0, l);
    }
  }

  lemma RemainderByParts(x: nat, a: nat, b: nat)
    requires a > 0 && b > 0
    ensures x % (a * b) == a * (x / a % b) + x % a
  {
    var y, l := x / a, x % a;
    var h, m := y / b, y % b;
    Divided(x, a);
    Divided(y, b);
    assert x == a * b * h + (a * m + l) by {
      assert a * y == a * (b * h) + a * m by { assert y == b * h + m; }
      assert a * (b * h) == a * b * h;
    }
    assert a * m + l < a * b by {
      assert a * b - a * m == a * (b - m);
      MulAtLeast(a, b - m);
    }
    DivUnique(x, a * b, h, a * m + l);
  }

  /** The low part of x, seen through its lowest digit. */
  lemma LowPart(x: nat, n: nat, w: nat)
    requires w > 2 * n
    ensures w > 3 * n ==> x % Pow2(w - n) == Pow2(2 * n) * (x / Pow2(2 * n) % Pow2(w - 3 * n)) + x % Pow2(2 * n)
    ensures w <= 3 * n && x % Pow2(2 * n) < Pow2(n) ==> x % Pow2(w - n) == x % Pow2(2 * n)
  {
    var l := x % Pow2(2 * n);
    if w > 3 * n {
      PowerSum(2 * n, w - 3 * n);
      RemainderByParts(x, Pow2(2 * n), Pow2(w - 3 * n));
    } else if l < Pow2(n) {
      var q, h, y := Pow2(w - n), Pow2(3 * n - w), x / Pow2(2 * n);
      PowerSum(w - n, 3 * n - w);
      PowerOrder(n, w - n);
      Divided(x, Pow2(2 * n));
      assert q * h * y == q * (h * y);
      DivUnique(x, q, h * y, l);
    }
  }

  lemma UpperBound(x: nat, m: nat, w: nat)
    requires m <= w && x < Pow2(w)
    ensures x / Pow2(m) < Pow2(w - m)
  {
    PowerSum(m, w - m);
    Divided(x, Pow2(m));
    LessByProduct(Pow2(m), x / Pow2(m), Pow2(w - m));
  }

  /** One digit less: the shifts meet iff they do without the lowest digit and the next one repeats it. */
  lemma MeetStep(x: nat, n: nat, w: nat)
    requires n > 0 && w > 2 * n && x < Pow2(w)
    ensures ShiftsMeet(x, n, w) <==>
      ShiftsMeet(x / Pow2(2 * n), n, w - 2 * n) && x / Pow2(2 * n) % Pow2(2 * n) == x % Pow2(2 * n)
  {
    var b, y: nat, l: nat := Pow2(2 * n), x / Pow2(2 * n), x % Pow2(2 * n);
    MeetByDigits(x, n, w);
    LowPart(x, n, w);
    UpperBound(x, 2 * n, w);
    StepCases(x, n, w, b, y, l);
  }

  lemma StepCases(x: nat, n: nat, w: nat, b: nat, y: nat, l: nat)
    requires n > 0 && w > 2 * n && b == Pow2(2 * n) && l < b && y < Pow2(w - 2 * n)
    requires w > 3 * n ==> x % Pow2(w - n) == b * (y % Pow2(w - 3 * n)) + l
    requires w <= 3 * n && l < Pow2(n) ==> x % Pow2(w - n) == l
    ensures l < Pow2(n) && y == x % Pow2(w - n) <==> ShiftsMeet(y, n, w - 2 * n) && y % b == l
  {
    if w <= 3 * n {
      TopDigit(y, n, w - 2 * n);
    } else {
      MeetByDigits(y, n, w - 2 * n);
      NextDigit(y, b, y % Pow2(w - 3 * n), l);
    }
  }

  lemma TopDigit(y: nat, n: nat, top: nat)
    requires top <= n && y < Pow2(top)
    ensures y < Pow2(n) && y % Pow2(2 * n) == y
  {
    PowerOrder(top, n);
    PowerOrder(n, 2 * n);
    DivUnique(y, Pow2(2 * n), 0, y);
  }

  lemma NextDigit(y: nat, b: nat, u: nat, l: nat)
    requires b > 0 && l < b
    ensures y == b * u + l <==> y / b == u && y % b == l
  {
    Divided(y, b);
    if y == b * u + l {
      DivUnique(y, b, u, l);
    }
  }

  lemma RepeatedLow(d: nat, n: nat, w: nat)
    requires n > 0 && d < Pow2(2 * n)
    ensures d * Repunit(n, w) % Pow2(2 * n) == d
  {
    var b := Pow2(2 * n);
    if w <= 2 * n {
      DivUnique(d, b, 0, d);
    } else {
      var r := Repunit(n, w - 2 * n);
      assert d * (1 + b * r) == b * (d * r) + d by { assert d * (b * r) == b * (d * r); }
      DivUnique(d * Repunit(n, w), b, d * r, d);
    }
  }

  lemma SameTopWidth(n: nat, w: nat)
    requires n > 0 && w > 2 * n
    ensures TopWidth(n, w) == TopWidth(n, w - 2 * n) <= 2 * n
  {
    var m := w - 1 - 2 * n;
    Divided(m, 2 * n);
    DivUnique(w - 1, 2 * n, m / (2 * n) + 1, m % (2 * n));
  }

  lemma MoreDigits(x: nat, b: nat, y: nat, l: nat, r: nat)
    requires b > 0 && x == b * y + l
    ensures x == l * (1 + b * r) <==> y == l * r
  {
    assert l * (1 + b * r) == b * (l * r) + l by { assert l * (b * r) == b * (l * r); }
    if b * y == b * (l * r) {
      DivUnique(b * y, b, y, 0);
      DivUnique(b * y, b, l * r, 0);
    }
  }

  lemma RepeatStep(x: nat, n: nat, w: nat)
    requires n > 0 && w > 2 * n
    ensures RepeatsDigit(x, n, w) <==>
      RepeatsDigit(x / Pow2(2 * n), n, w - 2 * n) && x / Pow2(2 * n) % Pow2(2 * n) == x % Pow2(2 * n)
  {
    var b, y, l := Pow2(2 * n), x / Pow2(2 * n), x % Pow2(2 * n);
    Divided(x, b);
    SameTopWidth(n, w);
    MoreDigits(x, b, y, l, Repunit(n, w - 2 * n));
    RepeatedLow(l, n, w - 2 * n);
  }

  /** The shifts of a number of w bits meet if and only if it repeats one digit that fits. */
  lemma {:induction false} MeetIffRepeats(x: nat, n: nat, w: nat)
    requires n > 0 && w > 0 && x < Pow2(w)
    ensures ShiftsMeet(x, n, w) <==> RepeatsDigit(x, n, w)
    decreases w
  {
    if w <= 2 * n {
      PowerOrder(w, 2 * n);
      DivUnique(x, Pow2(2 * n), 0, x);
      DivUnique(w - 1, 2 * n, 0, w - 1);
      if w > n {
        MeetByDigits(x, n, w);
      }
    } else {
      UpperBound(x, 2 * n, w);
      MeetIffRepeats(x / Pow2(2 * n), n, w - 2 * n);
      MeetStep(x, n, w);
      RepeatStep(x, n, w);
    }
  }
}
