/** Polynomials over GF(256), highest coefficient first, as the source stores them. */
module Polynomials {
  import opened Bits
  import opened GF256

  type Poly = seq<byte>

  function Eval(p: Poly, x: byte): byte {
    if p == [] then 0 else Add(Mul(Eval(p[..|p| - 1], x), x), p[|p| - 1])
  }

  function Zeros(n: nat): (z: Poly)
    ensures |z| == n && forall i :: 0 <= i < n ==> z[i] == 0
  {
    seq(n, i => 0)
  }

  /** p + q, where q is added to the low coefficients of the longer p. */
  function Plus(p: Poly, q: Poly): (r: Poly)
    requires |q| <= |p|
    ensures |r| == |p|
    ensures forall i :: 0 <= i < |p| - |q| ==> r[i] == p[i]
    ensures forall i :: |p| - |q| <= i < |p| ==> r[i] == Add(p[i], q[i - (|p| - |q|)])
  {
    seq(|p|, i requires 0 <= i < |p| => if i < |p| - |q| then p[i] else Add(p[i], q[i - (|p| - |q|)]))
  }

  function Scale(p: Poly, f: byte): (r: Poly)
    ensures |r| == |p| && forall i :: 0 <= i < |p| ==> r[i] == Mul(p[i], f)
  {
    seq(|p|, i requires 0 <= i < |p| => Mul(p[i], f))
  }

  /** The product q * g, by long multiplication. */
  function Times(q: Poly, g: Poly): (r: Poly)
    requires |g| > 0
    ensures |r| == |q| + |g| - 1
  {
    if q == [] then Zeros(|g| - 1)
    else Plus(Times(q[..|q| - 1], g) + [0], Scale(g, q[|q| - 1]))
  }

  ghost predicate IsMultiple(w: Poly, g: Poly)
    requires |g| > 0
  {
    exists q: Poly :: |q| + |g| - 1 == |w| && w == Times(q, g)
  }

  // ----- evaluation is a ring homomorphism -----

  lemma EvalSnoc(p: Poly, c: byte, x: byte)
    ensures Eval(p + [c], x) == Add(Mul(Eval(p, x), x), c)
  {
    hide Add, Mul;
    assert (p + [c])[..|p|] == p;
  }

  lemma {:induction false} EvalZeros(n: nat, x: byte)
    ensures Eval(Zeros(n), x) == 0
  {
    hide Add, Mul;
    if n > 0 {
      assert Zeros(n)[..n - 1] == Zeros(n - 1);
      EvalZeros(n - 1, x);
      MulZero(x);
      AddLaws(0, 0);
    }
  }

  lemma {:induction false} EvalPlus(p: Poly, q: Poly, x: byte)
    requires |q| <= |p|
    ensures Eval(Plus(p, q), x) == Add(Eval(p, x), Eval(q, x))
    decreases |q|
  {
    hide Add, Mul;
    if q == [] {
      assert Plus(p, q) == p;
      AddLaws(Eval(p, x), 0);
    } else {
      var p', q' := p[..|p| - 1], q[..|q| - 1];
      var a, b := p[|p| - 1], q[|q| - 1];
      assert Plus(p, q)[..|p| - 1] == Plus(p', q');
      EvalPlus(p', q', x);
      DistributeLeft(Eval(p', x), Eval(q', x), x);
      AddSwap(Mul(Eval(p', x), x), Mul(Eval(q', x), x), a, b);
    }
  }

  lemma {:induction false} EvalScale(p: Poly, f: byte, x: byte)
    ensures Eval(Scale(p, f), x) == Mul(Eval(p, x), f)
    decreases |p|
  {
    hide Add, Mul;
    MulZero(f);
    if p != [] {
      var p', a := p[..|p| - 1], p[|p| - 1];
      assert Scale(p, f)[..|p| - 1] == Scale(p', f);
      EvalScale(p', f, x);
      DistributeLeft(Mul(Eval(p', x), x), a, f);
      Associate(Eval(p', x), f, x);
      Associate(Eval(p', x), x, f);
      Commute(f, x);
    }
  }

  lemma {:induction false} EvalTimes(q: Poly, g: Poly, x: byte)
    requires |g| > 0
    ensures Eval(Times(q, g), x) == Mul(Eval(q, x), Eval(g, x))
    decreases |q|
  {
    hide Add, Mul;
    MulZero(Eval(g, x));
    if q == [] {
      EvalZeros(|g| - 1, x);
    } else {
      var q', f := q[..|q| - 1], q[|q| - 1];
      var e, h := Eval(q', x), Eval(g, x);
      EvalTimes(q', g, x);
      EvalSnoc(Times(q', g), 0, x);
      AddLaws(Mul(Mul(e, h), x), 0);
      EvalPlus(Times(q', g) + [0], Scale(g, f), x);
      EvalScale(g, f, x);
      Associate(e, h, x);
      Commute(h, x);
      Associate(e, x, h);
      Commute(h, f);
      DistributeLeft(Mul(e, x), f, h);
    }
  }

  // ----- structure of products -----

  lemma TimesSnoc(q: Poly, g: Poly)
    requires |g| > 0 && |q| > 0
    ensures Times(q, g) == Plus(Times(q[..|q| - 1], g) + [0], Scale(g, q[|q| - 1]))
  {
    hide Add, Mul, Plus, Scale;
  }

  /** One coefficient of a product, from the product with the quotient's last coefficient dropped. */
  lemma TimesCoefficient(q: Poly, g: Poly, k: nat)
    requires |g| > 0 && |q| > 0 && k < |q| + |g| - 1
    ensures var n, t := |q| - 1, Times(q[..|q| - 1], g);
      Times(q, g)[k] == if k < n then t[k] else Add(if k < |t| then t[k] else 0, Mul(g[k - n], q[n]))
  {
    hide *;
    TimesSnoc(q, g);
    StepCoefficient(Times(q[..|q| - 1], g), g, q[|q| - 1], k);
  }

  lemma StepCoefficient(t: Poly, g: Poly, f: byte, k: nat)
    requires |t| + 1 >= |g| > 0 && k <= |t|
    ensures var n := |t| + 1 - |g|;
      Plus(t + [0], Scale(g, f))[k] == if k < n then t[k] else Add(if k < |t| then t[k] else 0, Mul(g[k - n], f))
  {
    hide *;
  }

  /** Multiplying by x + r: each coefficient is joined by r times its left neighbour. */
  lemma {:induction false} TimesLinear(p: Poly, r: byte, k: nat)
    requires k <= |p|
    ensures Times(p, [1, r])[k]
         == Add(if k < |p| then p[k] else 0, if k > 0 then Mul(p[k - 1], r) else 0)
    decreases |p|
  {
    AddLaws(0, 0);
    if p == [] {
      assert Times(p, [1, r]) == Zeros(1);
    } else {
      hide *;
      var n := |p| - 1;
      TimesCoefficient(p, [1, r], k);
      if k <= n {
        TimesLinear(p[..n], r, k);
      }
      MulOne(p[n]);
      Commute(r, p[n]);
      if k == n {
        var c := if n > 0 then Mul(p[n - 1], r) else 0;
        AddLaws(c, p[n]);
        AddLaws(c, 0);
      }
    }
  }

  /** A multiple of a monic polynomial is determined by its first |q| coefficients. */
  lemma {:induction false} QuotientUnique(q: Poly, q': Poly, g: Poly)
    requires |g| > 0 && g[0] == 1 && |q| == |q'|
    requires Times(q, g)[..|q|] == Times(q', g)[..|q|]
    ensures q == q'
    decreases |q|
  {
    hide *;
    if q != [] {
      var n := |q| - 1;
      forall i | 0 <= i < n
        ensures Times(q[..n], g)[i] == Times(q'[..n], g)[i]
      {
        TimesCoefficient(q, g, i);
        TimesCoefficient(q', g, i);
        assert Times(q, g)[..|q|][i] == Times(q', g)[..|q|][i];
      }
      assert Times(q[..n], g)[..n] == Times(q'[..n], g)[..n];
      QuotientUnique(q[..n], q'[..n], g);
      TimesCoefficient(q, g, n);
      TimesCoefficient(q', g, n);
      assert Times(q, g)[..|q|][n] == Times(q', g)[..|q|][n];
      MulOne(q[n]);
      MulOne(q'[n]);
      var t := if |g| > 1 then Times(q[..n], g)[n] else 0;
      AddLaws(q[n], t);
      AddLaws(q'[n], t);
      assert q == q[..n] + [q[n]];
      assert q' == q'[..n] + [q'[n]];
    }
  }
}
