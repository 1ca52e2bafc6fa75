/** The table-driven arithmetic and the in-place loops of the encoder. */
module ReedSolomon {
  import opened Bits
  import opened GF256
  import opened Polynomials
  import opened ReedSolomonCode

  /** The log and exp tables, and the loops that read them. */
  class Tables {
    const gfExp: array<byte>
    const gfLog: array<byte>

    /** gfExp lists the powers of 2, and gfLog is its inverse on the nonzero bytes. */
    ghost predicate Valid()
      reads gfExp, gfLog
    {
      && gfExp.Length == 512 && gfLog.Length == 256
      && (forall i :: 0 <= i < 512 ==> gfExp[i] == Exp(i))
      && (forall a: byte :: a != 0 ==> gfLog[a] < 255 && Exp(gfLog[a]) == a)
    }

    constructor ()
      ensures Valid() && fresh(gfExp) && fresh(gfLog)
    {
      gfExp := new byte[512](_ => 0);
      gfLog := new byte[256](_ => 0);
      new;
      FillFirstCycle(gfExp, gfLog);
      FillRest(gfExp);
      hide Exp;
      forall a: byte | a != 0
        ensures gfLog[a] < 255 && Exp(gfLog[a]) == a
      {
        var i := LogExists(a);
      }
    }

    /** The two table lookups multiply in the field. */
    function GfMul(a: byte, b: byte): (r: byte)
      reads gfExp, gfLog
      requires Valid()
      ensures r == Mul(a, b)
    {
      MulZero(a);
      MulZero(b);
      if a == 0 || b == 0 then 0
      else
        ExpAdd(gfLog[a], gfLog[b]);
        gfExp[(gfLog[a] as int) + (gfLog[b] as int)]
    }

    /** The divisor polynomial of the given degree, without its leading 1. */
    method RsGenerator(degree: nat) returns (coeff: array<byte>)
      requires Valid() && degree > 0
      ensures fresh(coeff) && coeff.Length == degree
      ensures [1] + coeff[..] == Generator(degree)
    {
      hide Mul, Add, Exp, Times, Generator;
      coeff := new byte[degree](_ => 0);
      coeff[degree - 1] := 1;
      var root: byte := 1;
      FirstCoefficient(degree);
      for i := 0 to degree
        invariant root == Exp(i)
        invariant forall k :: 0 <= k < degree ==> coeff[k] == LowCoefficient(i, degree, k)
      {
        for j := 0 to degree
          invariant forall k :: 0 <= k < j ==> coeff[k] == LowCoefficient(i + 1, degree, k)
          invariant forall k :: j <= k < degree ==> coeff[k] == LowCoefficient(i, degree, k)
        {
          NextCoefficient(i, degree, j);
          coeff[j] := GfMul(coeff[j], root);
          if j + 1 < degree {
            coeff[j] := Add(coeff[j], coeff[j + 1]);
          } else {
            AddLaws(coeff[j], 0);
          }
        }
        NextRoot(i);
        root := GfMul(root, 0x02);
      }
      GeneratorMonic(degree);
    }

    /** res[i] ^= coeff[i] * factor for every i. */
    method AddMultiple(res: array<byte>, coeff: array<byte>, factor: byte)
      requires Valid() && res.Length == coeff.Length && res != coeff && res != gfExp && res != gfLog
      modifies res
      ensures forall k :: 0 <= k < res.Length ==> res[k] == Add(old(res[k]), Mul(coeff[k], factor))
    {
      hide Add, Mul, Exp;
      for i := 0 to res.Length
        invariant forall k :: 0 <= k < i ==> res[k] == Add(old(res[k]), Mul(coeff[k], factor))
        invariant forall k :: i <= k < res.Length ==> res[k] == old(res[k])
      {
        res[i] := Add(res[i], GfMul(coeff[i], factor));
      }
    }

    /** The error-correction words of a data block. */
    method ReedSolomon(data: seq<byte>, ecLen: nat) returns (res: array<byte>)
      requires Valid() && ecLen > 0
      ensures fresh(res) && res.Length == ecLen
      ensures res[..] == CheckWords(data, ecLen)
    {
      hide *;
      var coeff := RsGenerator(ecLen);
      ghost var g := coeff[..];
      assert Generator(ecLen)[1..] == g;
      res := new byte[ecLen](_ => 0);
      CheckWordsStart(ecLen);
      assert data[..0] == [];
      for n := 0 to |data|
        invariant res[..] == CheckWords(data[..n], ecLen)
        invariant coeff[..] == g
      {
        ghost var before := res[..];
        var factor := Add(data[n], res[0]);
        CopyDown(res);
        res[ecLen - 1] := 0;
        AddMultiple(res, coeff, factor);
        CheckWordsNext(data, n, ecLen, before, res[..]);
      }
      assert data[..|data|] == data;
    }
  }

  lemma CheckWordsStart(d: nat)
    requires d > 0
    ensures CheckWords([], d) == Zeros(d)
  {
  }

  lemma CheckWordsNext(data: Poly, n: nat, d: nat, before: Poly, after: Poly)
    requires n < |data| && 0 < d == |after| && before == CheckWords(data[..n], d)
    requires forall i :: 0 <= i < d ==>
      after[i] == Add(if i + 1 < d then before[i + 1] else 0, Mul(Generator(d)[1 + i], Add(data[n], before[0])))
    ensures after == CheckWords(data[..n + 1], d)
  {
    hide Mul, Add, Generator;
    assert data[..n + 1][..n] == data[..n];
  }

  /** copy(res, res[1:]): every element but the first moves one place down. */
  method CopyDown(res: array<byte>)
    requires res.Length > 0
    modifies res
    ensures res[..] == old(res[1..]) + old(res[res.Length - 1..])
  {
    for i := 1 to res.Length
      invariant forall k :: 0 <= k < i - 1 ==> res[k] == old(res[k + 1])
      invariant forall k :: i - 1 <= k < res.Length ==> res[k] == old(res[k])
    {
      res[i - 1] := res[i];
    }
  }

  method FillFirstCycle(gfExp: array<byte>, gfLog: array<byte>)
    requires gfExp.Length == 512 && gfLog.Length == 256 && gfExp != gfLog
    modifies gfExp, gfLog
    ensures forall k :: 0 <= k < 255 ==> gfExp[k] == Exp(k) && gfLog[Exp(k)] == k
  {
    hide *;
    var x: nat := 1;
    ExpZero();
    for i := 0 to 255
      invariant x == Exp(i)
      invariant forall k :: 0 <= k < i ==> gfExp[k] == Exp(k)
      invariant forall k :: 0 <= k < i ==> gfLog[Exp(k)] == k
    {
      gfExp[i] := x;
      EarlierPowers(i);
      gfLog[x] := i;
      Doubling(i, x);
      x := 2 * x;
      if x / 0x100 % 2 != 0 {
        x := Xor(x, 0x11D);
      }
    }
  }

  method FillRest(gfExp: array<byte>)
    requires gfExp.Length == 512 && forall k :: 0 <= k < 255 ==> gfExp[k] == Exp(k)
    modifies gfExp
    ensures forall k :: 0 <= k < 512 ==> gfExp[k] == Exp(k)
  {
    hide *;
    for i := 255 to 512
      invariant forall k :: 0 <= k < i ==> gfExp[k] == Exp(k)
    {
      Period(i - 255);
      gfExp[i] := gfExp[i - 255];
    }
  }

  lemma ExpZero()
    ensures Exp(0) == 1
  {
  }

  lemma EarlierPowers(n: nat)
    requires n < 255
    ensures forall k :: 0 <= k < n ==> Exp(k) != Exp(n)
  {
    hide *;
    forall k | 0 <= k < n
      ensures Exp(k) != Exp(n)
    {
      PowersDistinct(k, n);
    }
  }

  lemma Doubling(n: nat, x: nat)
    requires x == Exp(n)
    ensures Exp(n + 1) == if 2 * x / 0x100 % 2 != 0 then Xor(2 * x, 0x11D) else 2 * x
  {
    hide Xor;
    XorZero(2 * x);
  }

  lemma Period(n: nat)
    ensures Exp(n + 255) == Exp(n)
  {
    hide *;
    OrderFacts();
    ExpAdd(n, 255);
    MulOne(Exp(n));
  }

  lemma NextRoot(n: nat)
    ensures Exp(n + 1) == Mul(Exp(n), 2)
  {
    hide Xor, Add;
    MulStep(Exp(n), 2);
    MulOne(Xtime(Exp(n)));
    AddLaws(Xtime(Exp(n)), 0);
  }

  /** Place k of the coefficient array after i rounds: the product so far, aligned to the right,
      its leading 1 shifted out in the last round. */
  ghost function LowCoefficient(i: nat, degree: nat, k: nat): byte
    requires i <= degree && k < degree
  {
    if k + 1 + i < degree then 0 else Generator(i)[k + 1 + i - degree]
  }

  lemma FirstCoefficient(degree: nat)
    requires degree > 0
    ensures Exp(0) == 1
    ensures forall k :: 0 <= k < degree ==> LowCoefficient(0, degree, k) == if k == degree - 1 then 1 else 0
  {
  }

  lemma NextCoefficient(i: nat, degree: nat, k: nat)
    requires i < degree && k < degree
    ensures LowCoefficient(i + 1, degree, k)
         == Add(Mul(LowCoefficient(i, degree, k), Exp(i)), if k + 1 < degree then LowCoefficient(i, degree, k + 1) else 0)
  {
    hide Mul, Add, Exp, Times;
    MulZero(Exp(i));
    AddLaws(0, 0);
    var g := Generator(i);
    if k + 2 + i >= degree {
      var m := k + 2 + i - degree;
      TimesLinear(g, Exp(i), m);
      AddLaws(if m < |g| then g[m] else 0, if m > 0 then Mul(g[m - 1], Exp(i)) else 0);
    }
  }
}
