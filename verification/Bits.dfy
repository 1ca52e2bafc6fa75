/** Bitwise arithmetic on natural numbers: the operators ^, << and >> of the source,
    defined on the binary digits of unbounded numbers. */
module Bits {

  type byte = x: int | 0 <= x < 256

  function Pow2(k: nat): (r: nat)
    ensures r > 0
  {
    if k == 0 then 1 else 2 * Pow2(k - 1)
  }

  /** a >> k */
  function Shr(a: nat, k: nat): nat {
    Quotient(a, Pow2(k))
  }

  function Quotient(a: nat, m: nat): nat
    requires m > 0
  {
    a / m
  }

  /** a << k */
  function Shl(a: nat, k: nat): nat {
    if k == 0 then a else 2 * Shl(a, k - 1)
  }

  lemma PowTable()
    ensures Pow2(4) == 16 && Pow2(8) == 256 && Pow2(9) == 512 && Pow2(10) == 1024
    ensures Pow2(11) == 2048 && Pow2(14) == 16384 && Pow2(15) == 32768
  {
    assert Pow2(4) == 16;
    assert Pow2(8) == 256;
    assert Pow2(12) == 4096;
  }

  lemma {:induction false} ShlTimes(a: nat, k: nat)
    ensures Shl(a, k) == a * Pow2(k)
  {
    if k > 0 {
      ShlTimes(a, k - 1);
      var p := Pow2(k - 1);
      assert a * (2 * p) == 2 * (a * p);
    }
  }

  /** Exclusive or, digit by digit. */
  function Xor(a: nat, b: nat): nat {
    if a == 0 && b == 0 then 0
    else 2 * Xor(a / 2, b / 2) + (if a % 2 == b % 2 then 0 else 1)
  }

  lemma {:induction false} XorZero(a: nat)
    ensures Xor(a, 0) == a && Xor(0, a) == a
  {
    if a != 0 {
      XorZero(a / 2);
    }
  }

  lemma {:induction false} XorSelf(a: nat)
    ensures Xor(a, a) == 0
  {
    if a != 0 {
      XorSelf(a / 2);
    }
  }

  lemma {:induction false} XorCommute(a: nat, b: nat)
    ensures Xor(a, b) == Xor(b, a)
  {
    if a != 0 || b != 0 {
      XorCommute(a / 2, b / 2);
    }
  }

  /** The digit-wise equation of Xor also holds at zero. */
  lemma XorDigits(a: nat, b: nat)
    ensures Xor(a, b) / 2 == Xor(a / 2, b / 2)
    ensures Xor(a, b) % 2 == (if a % 2 == b % 2 then 0 else 1)
  {
    assert Xor(a, b) == 2 * Xor(a / 2, b / 2) + (if a % 2 == b % 2 then 0 else 1);
  }

  lemma XorJoin(a: nat, b: nat, d: nat, e: nat)
    requires d < 2 && e < 2
    ensures Xor(d + 2 * a, e + 2 * b) == 2 * Xor(a, b) + (if d == e then 0 else 1)
  {
    assert (d + 2 * a) / 2 == a && (e + 2 * b) / 2 == b;
  }

  lemma XorDouble(a: nat, b: nat)
    ensures Xor(2 * a, 2 * b) == 2 * Xor(a, b)
  {
    assert 2 * a / 2 == a && 2 * b / 2 == b;
  }

  lemma {:induction false} XorAssociate(a: nat, b: nat, c: nat)
    ensures Xor(Xor(a, b), c) == Xor(a, Xor(b, c))
    decreases a + b + c
  {
    if a != 0 || b != 0 || c != 0 {
      XorAssociate(a / 2, b / 2, c / 2);
      XorDigits(a, b);
      XorDigits(b, c);
      XorDigits(Xor(a, b), c);
      XorDigits(a, Xor(b, c));
    }
  }

  lemma XorSwap(a: nat, b: nat, c: nat, d: nat)
    ensures Xor(Xor(a, b), Xor(c, d)) == Xor(Xor(a, c), Xor(b, d))
  {
    XorAssociate(a, b, Xor(c, d));
    XorAssociate(b, c, d);
    XorCommute(b, c);
    XorAssociate(c, b, d);
    XorAssociate(a, c, Xor(b, d));
  }

  /** Xor with a fixed number undoes itself. */
  lemma XorCancel(a: nat, b: nat)
    ensures Xor(Xor(a, b), b) == a && Xor(a, Xor(a, b)) == b
  {
    XorAssociate(a, b, b);
    XorAssociate(a, a, b);
    XorSelf(a);
    XorSelf(b);
    XorZero(a);
    XorZero(b);
  }

  lemma XorZeroIffEqual(a: nat, b: nat)
    ensures Xor(a, b) == 0 <==> a == b
  {
    XorCancel(a, b);
    XorSelf(a);
    XorZero(b);
  }

  /** Digit k of the result depends on digit k of the operands alone. */
  lemma {:induction false} XorTopDigit(a: nat, b: nat, k: nat)
    requires a < Pow2(k + 1) && b < Pow2(k + 1)
    ensures Xor(a, b) < Pow2(k + 1)
    ensures Xor(a, b) >= Pow2(k) <==> (a >= Pow2(k)) != (b >= Pow2(k))
  {
    if k == 0 {
      assert Pow2(1) == 2;
      assert Xor(a / 2, b / 2) == 0;
    } else {
      XorTopDigit(a / 2, b / 2, k - 1);
    }
  }

  lemma XorByteTop(a: byte, b: byte)
    ensures Xor(a, b) < 256
    ensures Xor(a, b) >= 128 <==> (a >= 128) != (b >= 128)
  {
    assert Pow2(7) == 128 && Pow2(8) == 256;
    XorTopDigit(a, b, 7);
  }

  /** The low k digits and the rest are combined apart from each other. */
  lemma {:induction false} XorSplit(a: nat, b: nat, x: nat, y: nat, k: nat)
    requires x < Pow2(k) && y < Pow2(k)
    ensures Xor(Shl(a, k) + x, Shl(b, k) + y) == Shl(Xor(a, b), k) + Xor(x, y)
  {
    hide Xor;
    if k == 0 {
      XorZero(0);
    } else {
      XorSplit(a, b, x / 2, y / 2, k - 1);
      XorSplitOne(Shl(a, k - 1), Shl(b, k - 1), x, y);
    }
  }

  lemma XorSplitOne(a: nat, b: nat, x: nat, y: nat)
    ensures Xor(2 * a + x, 2 * b + y) - Xor(x, y) == 2 * (Xor(a + x / 2, b + y / 2) - Xor(x / 2, y / 2))
  {
    hide Xor;
    XorJoin(x / 2, y / 2, x % 2, y % 2);
    XorJoin(a + x / 2, b + y / 2, x % 2, y % 2);
    assert 2 * a + x == x % 2 + 2 * (a + x / 2) && 2 * b + y == y % 2 + 2 * (b + y / 2);
    assert x == x % 2 + 2 * (x / 2) && y == y % 2 + 2 * (y / 2);
  }

  lemma XorSplit5(a: nat, b: nat, x: nat, y: nat)
    requires x < 32 && y < 32
    ensures Xor(32 * a + x, 32 * b + y) == 32 * Xor(a, b) + Xor(x, y)
  {
    assert Pow2(5) == 32;
    XorSplit(a, b, x, y, 5);
    ShlTimes(a, 5);
    ShlTimes(b, 5);
    ShlTimes(Xor(a, b), 5);
  }

  /** Inclusive or, digit by digit. */
  function Or(a: nat, b: nat): nat {
    if a == 0 && b == 0 then 0
    else 2 * Or(a / 2, b / 2) + (if a % 2 == 0 && b % 2 == 0 then 0 else 1)
  }

  lemma {:induction false} OrZero(a: nat)
    ensures Or(a, 0) == a
  {
    if a != 0 {
      OrZero(a / 2);
    }
  }

  /** Setting digit k of a number whose digits up to k are clear. */
  lemma {:induction false} OrClear(v: nat, k: nat)
    ensures Or(2 * v * Pow2(k), Pow2(k)) == 2 * v * Pow2(k) + Pow2(k)
  {
    if k == 0 {
      OrZero(v);
      assert 2 * v * Pow2(0) == 2 * v;
    } else {
      OrClear(v, k - 1);
      var a := 2 * v * Pow2(k - 1);
      assert 2 * v * Pow2(k) == 2 * a;
      assert 2 * a / 2 == a && Pow2(k) / 2 == Pow2(k - 1);
    }
  }

  /** Below a shifted number, xor and or are both addition. */
  lemma {:induction false} ShiftedDisjoint(a: nat, b: nat, k: nat)
    requires b < Pow2(k)
    ensures Xor(Shl(a, k), b) == Or(Shl(a, k), b) == Shl(a, k) + b
  {
    if k == 0 {
      XorZero(a);
      OrZero(a);
    } else {
      ShiftedDisjoint(a, b / 2, k - 1);
    }
  }
}
