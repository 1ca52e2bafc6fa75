/** The Reed-Solomon code: multiples of the generator (x + 1)(x + 2)...(x + 2^(d-1)). */
module ReedSolomonCode {
  import opened Bits
  import opened GF256
  import opened Polynomials

  ghost function Generator(d: nat): (g: Poly)
    ensures |g| == d + 1
  {
    if d == 0 then [1] else Times(Generator(d - 1), [1, Exp(d - 1)])
  }

  lemma {:induction false} GeneratorMonic(d: nat)
    ensures Generator(d)[0] == 1
  {
    if d > 0 {
      GeneratorMonic(d - 1);
      TimesLinear(Generator(d - 1), Exp(d - 1), 0);
      AddLaws(1, 0);
    }
  }

  /** The generator vanishes at 2^0, ..., 2^(d-1). */
  lemma {:induction false} GeneratorRoots(d: nat, i: nat)
    requires i < d
    ensures Eval(Generator(d), Exp(i)) == 0
  {
    hide Mul, Add, Exp, Times, Eval;
    var g, r, x := Generator(d - 1), Exp(d - 1), Exp(i);
    EvalTimes(g, [1, r], x);
    if i < d - 1 {
      GeneratorRoots(d - 1, i);
      MulZero(Eval([1, r], x));
    } else {
      EvalLinear(r, r);
      AddLaws(r, r);
      MulZero(Eval(g, x));
    }
  }

  lemma EvalLinear(r: byte, x: byte)
    ensures Eval([1, r], x) == Add(x, r)
  {
    hide Mul, Add;
    EvalSnoc([], 1, x);
    EvalSnoc([1], r, x);
    assert [] + [1] == [1] && [1] + [r] == [1, r];
    MulZero(x);
    AddLaws(1, 0);
    MulOne(x);
  }

  // ----- the check words of a data block -----

  /** One step of polynomial division: take in the next data word b. */
  function Absorb(res: Poly, b: byte, coeff: Poly): (r: Poly)
    requires |res| == |coeff| > 0
    ensures |r| == |res|
  {
    seq(|res|, i requires 0 <= i < |res| =>
      Add(if i + 1 < |res| then res[i + 1] else 0, Mul(coeff[i], Add(b, res[0]))))
  }

  ghost function CheckWords(data: Poly, d: nat): (r: Poly)
    requires d > 0
    ensures |r| == d
  {
    if data == [] then Zeros(d)
    else Absorb(CheckWords(data[..|data| - 1], d), data[|data| - 1], Generator(d)[1..])
  }

  ghost predicate IsCodeword(w: Poly, d: nat) {
    IsMultiple(w, Generator(d))
  }

  lemma AbsorbStep(q: Poly, w: Poly, res: Poly, b: byte, g: Poly)
    requires |g| == |res| + 1 > 1 && g[0] == 1
    requires |q| == |w| && Times(q, g) == w + res
    ensures Times(q + [Add(b, res[0])], g) == (w + [b]) + Absorb(res, b, g[1..])
  {
    hide Add, Mul, Times, Plus, Scale;
    var n, f := |q|, Add(b, res[0]);
    TimesSnoc(q + [f], g);
    assert (q + [f])[..n] == q;
    var p, s := Times(q, g) + [0], Scale(g, f);
    var right := (w + [b]) + Absorb(res, b, g[1..]);
    forall i | 0 <= i < |p|
      ensures Plus(p, s)[i] == right[i]
    {
      if i < n {
      } else if i == n {
        MulOne(f);
        AddLaws(b, res[0]);
        AddLaws(f, res[0]);
      } else {
        assert p[i] == if i - n < |res| then res[i - n] else 0;
        assert s[i - n] == Mul(g[i - n], f);
      }
    }
  }

  /** The loop computes the remainder: data followed by its check words is a multiple of the generator. */
  lemma {:induction false} CheckWordsDivide(data: Poly, d: nat) returns (q: Poly)
    requires d > 0
    ensures |q| == |data| && Times(q, Generator(d)) == data + CheckWords(data, d)
  {
    if data == [] {
      q := [];
    } else {
      hide Absorb, Times;
      GeneratorMonic(d);
      var n := |data| - 1;
      q := CheckWordsDivide(data[..n], d);
      AbsorbStep(q, data[..n], CheckWords(data[..n], d), data[n], Generator(d));
      q := q + [Add(data[n], CheckWords(data[..n], d)[0])];
      assert data[..n] + [data[n]] == data;
    }
  }

  /** The check words are the only d words that complete the data to a codeword. */
  lemma CodewordIff(data: Poly, ec: Poly, d: nat)
    requires d > 0 && |ec| == d
    ensures IsCodeword(data + ec, d) <==> ec == CheckWords(data, d)
  {
    hide Times, CheckWords, Generator;
    var g := Generator(d);
    var q := CheckWordsDivide(data, d);
    if IsCodeword(data + ec, d) {
      var q': Poly :| |q'| + |g| - 1 == |data + ec| && data + ec == Times(q', g);
      GeneratorMonic(d);
      assert Times(q, g)[..|q|] == data == Times(q', g)[..|q'|];
      QuotientUnique(q, q', g);
      assert ec == (data + ec)[|data|..] == CheckWords(data, d);
    }
  }

  lemma CodewordVanishes(w: Poly, d: nat, i: nat)
    requires IsCodeword(w, d) && i < d
    ensures Eval(w, Exp(i)) == 0
  {
    hide Mul, Add, Exp, Times, Eval, Generator;
    var g := Generator(d);
    var q: Poly :| |q| + |g| - 1 == |w| && w == Times(q, g);
    EvalTimes(q, g, Exp(i));
    GeneratorRoots(d, i);
    MulZero(Eval(q, Exp(i)));
  }

  lemma AbsorbLinear(s: Poly, t: Poly, a: byte, b: byte, c: Poly, i: nat)
    requires |s| == |t| == |c| > i
    ensures Absorb(Plus(s, t), Add(a, b), c)[i] == Add(Absorb(s, a, c)[i], Absorb(t, b, c)[i])
  {
    hide Mul, Add;
    var f, h := Add(a, s[0]), Add(b, t[0]);
    AddSwap(a, b, s[0], t[0]);
    DistributeRight(c[i], f, h);
    AddLaws(0, 0);
    AddSwap(if i + 1 < |s| then s[i + 1] else 0, if i + 1 < |s| then t[i + 1] else 0, Mul(c[i], f), Mul(c[i], h));
  }

  /** The check words are linear in the data. */
  lemma {:induction false} CheckWordsLinear(a: Poly, b: Poly, d: nat)
    requires d > 0 && |a| == |b|
    ensures CheckWords(Plus(a, b), d) == Plus(CheckWords(a, d), CheckWords(b, d))
    decreases |a|
  {
    hide Mul, Add, Generator, Plus, Absorb;
    if a == [] {
      AddLaws(0, 0);
    } else {
      var n := |a| - 1;
      var s, t, c := CheckWords(a[..n], d), CheckWords(b[..n], d), Generator(d)[1..];
      assert Plus(a, b)[..n] == Plus(a[..n], b[..n]);
      CheckWordsLinear(a[..n], b[..n], d);
      forall i | 0 <= i < d
        ensures Absorb(Plus(s, t), Add(a[n], b[n]), c)[i] == Add(Absorb(s, a[n], c)[i], Absorb(t, b[n], c)[i])
      {
        AbsorbLinear(s, t, a[n], b[n], c, i);
      }
    }
  }
}
