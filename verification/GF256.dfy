/** GF(256) with the reduction polynomial 0x11D, defined by shift-and-xor alone.
    No table appears here: this is the reference the table-driven code is proved against. */
module GF256 {
  import opened Bits

  function Add(a: byte, b: byte): byte {
    XorByteTop(a, b);
    Xor(a, b)
  }

  lemma AddLaws(a: byte, b: byte)
    ensures Add(a, b) == Add(b, a)
    ensures Add(a, 0) == a == Add(0, a)
    ensures Add(Add(a, b), b) == a
    ensures Add(a, b) == 0 <==> a == b
  {
    XorCommute(a, b);
    XorZero(a);
    XorCancel(a, b);
    XorZeroIffEqual(a, b);
  }

  lemma AddSwap(a: byte, b: byte, c: byte, d: byte)
    ensures Add(Add(a, b), Add(c, d)) == Add(Add(a, c), Add(b, d))
  {
    XorSwap(a, b, c, d);
  }

  /** What must be added to 2a to reduce it: the polynomial, when the top bit is set. */
  function Overflow(a: byte): nat {
    if a >= 128 then 0x11D else 0
  }

  /** Multiplication by x: shift left, and reduce when the top bit falls out. */
  function Xtime(a: byte): (r: byte)
    ensures a < 128 ==> r == 2 * a
  {
    XtimeBound(a);
    XorZero(2 * a);
    Xor(2 * a, Overflow(a))
  }

  lemma XtimeBound(a: byte)
    ensures Xor(2 * a, Overflow(a)) < 256
  {
    assert Pow2(8) == 256 && Pow2(9) == 512;
    XorTopDigit(2 * a, Overflow(a), 8);
  }

  /** Multiplication modulo the polynomial, one bit of b at a time. */
  function Mul(a: byte, b: byte): byte
    decreases b
  {
    if b == 0 then 0
    else Add(if b % 2 == 1 then a else 0, Mul(Xtime(a), b / 2))
  }

  function Pow(a: byte, n: nat): byte {
    if n == 0 then 1 else Mul(Pow(a, n - 1), a)
  }

  // ----- the field laws -----

  lemma XtimeAdd(a: byte, b: byte)
    ensures Xtime(Add(a, b)) == Add(Xtime(a), Xtime(b))
  {
    XorDouble(a, b);
    XorSwap(2 * a, Overflow(a), 2 * b, Overflow(b));
    XorByteTop(a, b);
    XorSelf(0x11D);
    XorZero(0x11D);
    assert Overflow(Add(a, b)) == Xor(Overflow(a), Overflow(b));
  }

  lemma {:induction false} MulZero(b: byte)
    ensures Mul(0, b) == 0 == Mul(b, 0)
    decreases b
  {
    if b != 0 {
      MulZero(b / 2);
    }
  }

  /** The recursive equation of Mul also holds at zero. */
  lemma MulStep(a: byte, b: byte)
    ensures Mul(a, b) == Add(if b % 2 == 1 then a else 0, Mul(Xtime(a), b / 2))
  {
  }

  lemma {:induction false} DistributeLeft(a: byte, a': byte, b: byte)
    ensures Mul(Add(a, a'), b) == Add(Mul(a, b), Mul(a', b))
    decreases b
  {
    if b != 0 {
      DistributeLeft(Xtime(a), Xtime(a'), b / 2);
      XtimeAdd(a, a');
      var low, low' := if b % 2 == 1 then a else 0, if b % 2 == 1 then a' else 0;
      XorSwap(low, Mul(Xtime(a), b / 2), low', Mul(Xtime(a'), b / 2));
    }
  }

  lemma {:induction false} DistributeRight(a: byte, b: byte, b': byte)
    ensures Mul(a, Add(b, b')) == Add(Mul(a, b), Mul(a, b'))
    decreases b + b'
  {
    if b != 0 || b' != 0 {
      DistributeRight(Xtime(a), b / 2, b' / 2);
      XorDigits(b, b');
      MulStep(a, b);
      MulStep(a, b');
      MulStep(a, Add(b, b'));
      var low, low' := if b % 2 == 1 then a else 0, if b' % 2 == 1 then a else 0;
      XorSwap(low, Mul(Xtime(a), b / 2), low', Mul(Xtime(a), b' / 2));
      XorSelf(a);
      XorZero(a);
    }
  }

  lemma {:induction false} XtimeMul(a: byte, b: byte)
    ensures Mul(Xtime(a), b) == Xtime(Mul(a, b))
    decreases b
  {
    if b != 0 {
      XtimeMul(Xtime(a), b / 2);
      XtimeAdd(if b % 2 == 1 then a else 0, Mul(Xtime(a), b / 2));
    }
  }

  lemma {:induction false} MulOne(b: byte)
    ensures Mul(1, b) == b == Mul(b, 1)
    decreases b
  {
    XorZero(b);
    if b != 0 {
      MulOne(b / 2);
      XtimeMul(1, b / 2);
      HalfXor(b);
    }
  }

  lemma HalfXor(b: byte)
    ensures Add(b % 2, Xtime(b / 2)) == b
  {
    XorDigits(b % 2, 2 * (b / 2));
    XorZero(b / 2);
  }

  lemma {:induction false} Commute(a: byte, b: byte)
    ensures Mul(a, b) == Mul(b, a)
    decreases a
  {
    MulZero(b);
    if a != 0 {
      Commute(a / 2, b);
      XtimeMul(b, a / 2);
      XtimeMul(a / 2, b);
      MulOne(b);
      DistributeLeft(a % 2, Xtime(a / 2), b);
      HalfXor(a);
    }
  }

  lemma {:induction false} Associate(a: byte, b: byte, c: byte)
    ensures Mul(Mul(a, b), c) == Mul(a, Mul(b, c))
    decreases c
  {
    MulZero(a);
    if c != 0 {
      Associate(a, Xtime(b), c / 2);
      var low := if c % 2 == 1 then b else 0;
      DistributeRight(a, low, Mul(Xtime(b), c / 2));
      Commute(a, Xtime(b));
      XtimeMul(b, a);
      Commute(a, b);
    }
  }

  // ----- the powers of x, that is of 2 -----

  ghost function Exp(n: nat): byte {
    if n == 0 then 1 else Xtime(Exp(n - 1))
  }

  lemma {:induction false} ExpAdd(m: nat, n: nat)
    ensures Exp(m + n) == Mul(Exp(m), Exp(n))
    decreases n
  {
    if n == 0 {
      MulOne(Exp(m));
    } else {
      ExpAdd(m, n - 1);
      Commute(Exp(m), Exp(n));
      Commute(Exp(m), Exp(n - 1));
      XtimeMul(Exp(n - 1), Exp(m));
    }
  }

  lemma {:induction false} PowOfExp(m: nat, n: nat)
    ensures Pow(Exp(m), n) == Exp(m * n)
  {
    hide Mul, Xtime;
    if n > 0 {
      PowOfExp(m, n - 1);
      ExpAdd(m * (n - 1), m);
      assert m * (n - 1) + m == m * n;
    }
  }

  lemma PowSwap(m: nat, n: nat)
    ensures Pow(Exp(m), n) == Pow(Exp(n), m)
  {
    PowOfExp(m, n);
    PowOfExp(n, m);
    assert m * n == n * m;
  }

  lemma {:induction false} ExpNonzero(n: nat)
    ensures Exp(n) != 0
  {
    if n > 0 {
      var p: int := Exp(n - 1);
      ExpNonzero(n - 1);
      XorZeroIffEqual(2 * p, Overflow(p));
    }
  }

  // ----- 2 generates the nonzero elements -----

  /** The eight binary digits of a byte, lowest first: a form in which powers are quick to compute. */
  type bit = x: int | 0 <= x < 2
  datatype Digits = Digits(b0: bit, b1: bit, b2: bit, b3: bit, b4: bit, b5: bit, b6: bit, b7: bit)

  function Flip(a: bit, b: bit): bit {
    if a == b then 0 else 1
  }

  function Shift(d: Digits): Digits {
    Digits(d.b7, d.b0, Flip(d.b1, d.b7), Flip(d.b2, d.b7), Flip(d.b3, d.b7), d.b4, d.b5, d.b6)
  }

  function Shift4(d: Digits): Digits {
    Shift(Shift(Shift(Shift(d))))
  }

  function Shift17(d: Digits): Digits {
    Shift(Shift4(Shift4(Shift4(Shift4(d)))))
  }

  function Value(d: Digits): byte {
    d.b0 + 2 * d.b1 + 4 * d.b2 + 8 * d.b3 + 16 * d.b4 + 32 * d.b5 + 64 * d.b6 + 128 * d.b7
  }

  lemma XorTop(x: nat)
    requires 8 <= x < 16
    ensures Xor(x, 8) == x - 8
  {
    assert Xor(x / 8, 1) == 0;
    assert Xor(x / 4, 2) == 2 * Xor(x / 8, 1) + (x / 4) % 2;
    assert Xor(x / 2, 4) == 2 * Xor(x / 4, 2) + (x / 2) % 2;
    assert Xor(x, 8) == 2 * Xor(x / 2, 4) + x % 2;
  }

  /** Reducing by 0x11D = 100011101b flips digits 0, 2, 3, 4 and clears digit 8. */
  lemma XorReduce(d0: nat, d1: nat, d2: nat, d3: nat, q4: nat)
    requires d0 < 2 && d1 < 2 && d2 < 2 && d3 < 2 && 8 <= q4 < 16
    ensures Xor(2 * (d0 + 2 * (d1 + 2 * (d2 + 2 * (d3 + 2 * q4)))), 0x11D)
         == 1 + 2 * (d0 + 2 * ((1 - d1) + 2 * ((1 - d2) + 2 * ((1 - d3) + 2 * (q4 - 8)))))
  {
    hide Xor;
    XorTop(q4);
    XorJoin(q4, 8, d3, 1);
    XorJoin(d3 + 2 * q4, 17, d2, 1);
    XorJoin(d2 + 2 * (d3 + 2 * q4), 35, d1, 1);
    XorJoin(d1 + 2 * (d2 + 2 * (d3 + 2 * q4)), 71, d0, 0);
    XorJoin(d0 + 2 * (d1 + 2 * (d2 + 2 * (d3 + 2 * q4))), 142, 0, 1);
  }

  lemma ShiftIsXtime(d: Digits)
    ensures Value(Shift(d)) == Xtime(Value(d))
  {
    hide Xor;
    if d.b7 == 1 {
      XorReduce(d.b0, d.b1, d.b2, d.b3, d.b4 + 2 * d.b5 + 4 * d.b6 + 8);
    }
  }

  lemma NextPower(n: nat, d: Digits)
    requires Exp(n) == Value(d)
    ensures Exp(n + 1) == Value(Shift(d))
  {
    ShiftIsXtime(d);
    hide Xtime, Value, Shift;
  }

  lemma FourOn(n: nat, d: Digits)
    requires Exp(n) == Value(d)
    ensures Exp(n + 4) == Value(Shift4(d))
  {
    hide Exp, Value, Shift;
    NextPower(n, d);
    NextPower(n + 1, Shift(d));
    NextPower(n + 2, Shift(Shift(d)));
    NextPower(n + 3, Shift(Shift(Shift(d))));
  }

  /** From one power to the seventeenth after it. */
  lemma Stride(n: nat, d: Digits)
    requires Exp(n) == Value(d)
    ensures Exp(n + 17) == Value(Shift17(d))
  {
    hide Exp, Value, Shift, Shift4;
    FourOn(n, d);
    FourOn(n + 4, Shift4(d));
    FourOn(n + 8, Shift4(Shift4(d)));
    FourOn(n + 12, Shift4(Shift4(Shift4(d))));
    NextPower(n + 16, Shift4(Shift4(Shift4(Shift4(d)))));
  }

  lemma Exp0()
    ensures Exp(0) == Value(Digits(1, 0, 0, 0, 0, 0, 0, 0))
  {
  }

  lemma Exp51()
    ensures Exp(17) == Value(Digits(0, 0, 0, 1, 1, 0, 0, 1))
    ensures Exp(51) == Value(Digits(0, 1, 0, 1, 0, 0, 0, 0))
  {
    hide Exp, Value;
    Exp0();
    Stride(0, Digits(1, 0, 0, 0, 0, 0, 0, 0));
    assert Shift17(Digits(1, 0, 0, 0, 0, 0, 0, 0)) == Digits(0, 0, 0, 1, 1, 0, 0, 1);
    Stride(17, Digits(0, 0, 0, 1, 1, 0, 0, 1));
    assert Shift17(Digits(0, 0, 0, 1, 1, 0, 0, 1)) == Digits(0, 1, 1, 1, 0, 0, 1, 0);
    Stride(34, Digits(0, 1, 1, 1, 0, 0, 1, 0));
    assert Shift17(Digits(0, 1, 1, 1, 0, 0, 1, 0)) == Digits(0, 1, 0, 1, 0, 0, 0, 0);
  }

  lemma Exp102()
    ensures Exp(85) == Value(Digits(0, 1, 1, 0, 1, 0, 1, 1))
    ensures Exp(102) == Value(Digits(0, 0, 1, 0, 0, 0, 1, 0))
  {
    hide Exp, Value;
    Exp51();
    Stride(51, Digits(0, 1, 0, 1, 0, 0, 0, 0));
    assert Shift17(Digits(0, 1, 0, 1, 0, 0, 0, 0)) == Digits(1, 0, 0, 1, 1, 0, 0, 1);
    Stride(68, Digits(1, 0, 0, 1, 1, 0, 0, 1));
    assert Shift17(Digits(1, 0, 0, 1, 1, 0, 0, 1)) == Digits(0, 1, 1, 0, 1, 0, 1, 1);
    Stride(85, Digits(0, 1, 1, 0, 1, 0, 1, 1));
    assert Shift17(Digits(0, 1, 1, 0, 1, 0, 1, 1)) == Digits(0, 0, 1, 0, 0, 0, 1, 0);
  }

  lemma Exp153()
    ensures Exp(153) == Value(Digits(0, 1, 0, 0, 1, 0, 0, 1))
  {
    hide Exp, Value;
    Exp102();
    Stride(102, Digits(0, 0, 1, 0, 0, 0, 1, 0));
    assert Shift17(Digits(0, 0, 1, 0, 0, 0, 1, 0)) == Digits(1, 1, 0, 0, 1, 0, 0, 1);
    Stride(119, Digits(1, 1, 0, 0, 1, 0, 0, 1));
    assert Shift17(Digits(1, 1, 0, 0, 1, 0, 0, 1)) == Digits(1, 1, 1, 1, 0, 0, 1, 0);
    Stride(136, Digits(1, 1, 1, 1, 0, 0, 1, 0));
    assert Shift17(Digits(1, 1, 1, 1, 0, 0, 1, 0)) == Digits(0, 1, 0, 0, 1, 0, 0, 1);
  }

  lemma Exp204()
    ensures Exp(204) == Value(Digits(1, 0, 1, 1, 1, 0, 1, 1))
  {
    hide Exp, Value;
    Exp153();
    Stride(153, Digits(0, 1, 0, 0, 1, 0, 0, 1));
    assert Shift17(Digits(0, 1, 0, 0, 1, 0, 0, 1)) == Digits(1, 1, 1, 0, 1, 0, 1, 1);
    Stride(170, Digits(1, 1, 1, 0, 1, 0, 1, 1));
    assert Shift17(Digits(1, 1, 1, 0, 1, 0, 1, 1)) == Digits(0, 0, 1, 1, 1, 0, 1, 1);
    Stride(187, Digits(0, 0, 1, 1, 1, 0, 1, 1));
    assert Shift17(Digits(0, 0, 1, 1, 1, 0, 1, 1)) == Digits(1, 0, 1, 1, 1, 0, 1, 1);
  }

  lemma Exp255()
    ensures Exp(255) == Value(Digits(1, 0, 0, 0, 0, 0, 0, 0))
  {
    hide Exp, Value;
    Exp204();
    Stride(204, Digits(1, 0, 1, 1, 1, 0, 1, 1));
    assert Shift17(Digits(1, 0, 1, 1, 1, 0, 1, 1)) == Digits(1, 0, 1, 0, 0, 0, 1, 0);
    Stride(221, Digits(1, 0, 1, 0, 0, 0, 1, 0));
    assert Shift17(Digits(1, 0, 1, 0, 0, 0, 1, 0)) == Digits(1, 1, 0, 1, 0, 0, 0, 0);
    Stride(238, Digits(1, 1, 0, 1, 0, 0, 0, 0));
    assert Shift17(Digits(1, 1, 0, 1, 0, 0, 0, 0)) == Digits(1, 0, 0, 0, 0, 0, 0, 0);
  }

  /** The order of 2 divides 255 and none of its maximal proper divisors. */
  lemma OrderFacts()
    ensures Exp(255) == 1 && Exp(85) != 1 && Exp(51) != 1 && Exp(15) != 1
  {
    hide Exp;
    assert Exp(51) != 1 by { Exp51(); }
    assert Exp(85) != 1 by { Exp102(); }
    assert Exp(255) == 1 by { Exp255(); }
    assert Exp(15) != 1 by { Exp51(); NextTwo(15); }
  }

  lemma NextTwo(n: nat)
    ensures Exp(n) == 1 ==> Exp(n + 2) == 4
  {
    assert Exp(n + 2) == Xtime(Exp(n + 1));
    hide Xtime;
  }

  /** Euclid's algorithm on exponents: the exponents n with Exp(n) == 1 are closed under gcd. */
  lemma {:induction false} CommonPeriod(m: nat, n: nat) returns (g: nat, i: nat, j: nat)
    requires m > 0 && n > 0 && Exp(m) == 1 && Exp(n) == 1
    ensures g > 0 && m == g * i && n == g * j && Exp(g) == 1
    decreases m + n
  {
    hide *;
    if m == n {
      g, i, j := m, 1, 1;
    } else if m > n {
      ExpAdd(m - n, n);
      MulOne(Exp(m - n));
      g, i, j := CommonPeriod(m - n, n);
      i := i + j;
    } else {
      ExpAdd(n - m, m);
      MulOne(Exp(n - m));
      g, i, j := CommonPeriod(m, n - m);
      j := i + j;
    }
  }

  lemma {:induction false} PowPeriod(g: nat, k: nat)
    requires Exp(g) == 1
    ensures Exp(g * k) == 1
  {
    if k == 0 {
      assert Exp(0) == 1;
    }
    hide *;
    if k > 0 {
      PowPeriod(g, k - 1);
      ExpAdd(g * (k - 1), g);
      MulOne(1);
      assert g * (k - 1) + g == g * k;
    }
  }

  lemma SmallDivisor(v: nat, w: nat)
    requires 255 == v * w && 1 <= v <= 15
    ensures v == 1 || v == 3 || v == 5 || v == 15
  {
    assert v == 1 || v == 2 || v == 3 || v == 4 || v == 5 || v == 6 || v == 7 || v == 8 || v == 9 || v == 10
        || v == 11 || v == 12 || v == 13 || v == 14 || v == 15;
  }

  /** The proper divisors of 255 all divide 85, 51 or 15. */
  lemma ProperDivisor(g: nat, j: nat) returns (k: nat)
    requires 255 == g * j && 0 < g < 255
    ensures 85 == g * k || 51 == g * k || 15 == g * k
  {
    if j <= 15 {
      SmallDivisor(j, g);
      k := if j == 15 then 3 else 1;
    } else {
      SmallDivisor(g, j);
      k := if g == 1 then 15 else if g == 3 then 5 else if g == 5 then 3 else 1;
    }
  }

  lemma ProductBound(g: nat, i: nat)
    requires g * i > 0
    ensures g <= g * i
  {
  }

  /** 2 is primitive: none of its first 254 powers is 1. */
  lemma Primitive(d: nat)
    requires 0 < d < 255
    ensures Exp(d) != 1
  {
    hide *;
    if Exp(d) == 1 {
      OrderFacts();
      var g, i, j := CommonPeriod(d, 255);
      assert g < 255 by {
        ProductBound(g, i);
      }
      var k := ProperDivisor(g, j);
      PowPeriod(g, k);
      assert false;
    }
  }

  lemma PowersDistinct(i: nat, j: nat)
    requires i < j < 255
    ensures Exp(i) != Exp(j)
  {
    hide *;
    if Exp(i) == Exp(j) {
      OrderFacts();
      ExpAdd(i, 255 - i);
      ExpAdd(j, 255 - i);
      ExpAdd(j - i, 255);
      MulOne(Exp(j - i));
      assert j + (255 - i) == (j - i) + 255;
      Primitive(j - i);
    }
  }

  ghost predicate Distinct<T>(s: seq<T>) {
    forall i, j :: 0 <= i < j < |s| ==> s[i] != s[j]
  }

  ghost function Elements(s: seq<nat>): set<nat> {
    if s == [] then {} else Elements(s[..|s| - 1]) + {s[|s| - 1]}
  }

  lemma {:induction false} DistinctSize(s: seq<nat>)
    requires Distinct(s)
    ensures |Elements(s)| == |s| && forall x :: x in Elements(s) <==> x in s
  {
    if s != [] {
      var n := |s| - 1;
      DistinctSize(s[..n]);
      assert s == s[..n] + [s[n]];
      assert s[n] !in s[..n];
    }
  }

  lemma {:induction false} IntervalSize(n: nat)
    ensures |Interval(n)| == n && forall x :: x in Interval(n) <==> 1 <= x <= n
  {
    if n > 0 {
      IntervalSize(n - 1);
    }
  }

  ghost function Interval(n: nat): set<nat> {
    if n == 0 then {} else Interval(n - 1) + {n}
  }

  /** Pigeonhole: n distinct numbers between 1 and n include every number between 1 and n. */
  lemma Pigeonhole(s: seq<nat>, n: nat, x: nat)
    requires |s| == n && Distinct(s) && (forall i :: 0 <= i < n ==> 1 <= s[i] <= n)
    requires 1 <= x <= n
    ensures x in s
  {
    var elements := Elements(s);
    IntervalSize(n);
    DistinctSize(s);
    assert elements <= Interval(n);
    assert Interval(n) == elements + (Interval(n) - elements);
  }

  /** Every nonzero element is one of the 255 powers of 2, so discrete logarithms exist. */
  lemma LogExists(x: byte) returns (i: nat)
    requires x != 0
    ensures i < 255 && Exp(i) == x
  {
    var powers: seq<nat> := seq(255, i requires 0 <= i < 255 => Exp(i));
    forall i, j | 0 <= i < j < 255
      ensures powers[i] != powers[j]
    {
      PowersDistinct(i, j);
    }
    forall i | 0 <= i < 255
      ensures 1 <= powers[i] <= 255
    {
      ExpNonzero(i);
    }
    assert Distinct(powers);
    hide *;
    Pigeonhole(powers, 255, x);
    i :| 0 <= i < 255 && powers[i] == x;
  }

  lemma NoZeroDivisors(a: byte, b: byte)
    ensures Mul(a, b) == 0 <==> a == 0 || b == 0
  {
    MulZero(a);
    MulZero(b);
    if a != 0 && b != 0 {
      var i := LogExists(a);
      var j := LogExists(b);
      ExpAdd(i, j);
      ExpNonzero(i + j);
    }
  }
}
