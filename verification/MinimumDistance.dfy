/** How far apart codewords are, by elimination in the Vandermonde system of the roots. */
module MinimumDistance {
  import opened Bits
  import opened GF256
  import opened Polynomials
  import opened ReedSolomonCode

  ghost function Weight(w: Poly): (n: nat)
    ensures n <= |w|
  {
    if w == [] then 0 else Weight(w[..|w| - 1]) + if w[|w| - 1] == 0 then 0 else 1
  }

  /** The number of positions at which two words differ. */
  ghost function Hamming(u: Poly, v: Poly): (n: nat)
    requires |u| == |v|
    ensures n <= |u|
  {
    if u == [] then 0
    else Hamming(u[..|u| - 1], v[..|v| - 1]) + if u[|u| - 1] == v[|v| - 1] then 0 else 1
  }

  // ----- sums of powers -----

  /** w[0] * X[0]^i + w[1] * X[1]^i + ... */
  ghost function PowerSum(w: Poly, X: Poly, i: nat): byte
    requires |w| == |X|
  {
    if w == [] then 0
    else Add(PowerSum(w[..|w| - 1], X[..|X| - 1], i), Mul(w[|w| - 1], Pow(X[|X| - 1], i)))
  }

  ghost function Eliminate(w: Poly, X: Poly, x0: byte): (r: Poly)
    requires |w| == |X|
    ensures |r| == |w| && forall j :: 0 <= j < |w| ==> r[j] == Mul(w[j], Add(X[j], x0))
  {
    seq(|w|, j requires 0 <= j < |w| => Mul(w[j], Add(X[j], x0)))
  }

  lemma EliminateTerm(w: byte, x: byte, x0: byte, p: byte)
    ensures Mul(Mul(w, Add(x, x0)), p) == Add(Mul(w, Mul(p, x)), Mul(x0, Mul(w, p)))
  {
    hide *;
    DistributeRight(w, x, x0);
    DistributeLeft(Mul(w, x), Mul(w, x0), p);
    Associate(w, x, p);
    Commute(x, p);
    Commute(w, x0);
    Associate(x0, w, p);
  }

  lemma {:induction false} EliminateSum(w: Poly, X: Poly, x0: byte, i: nat)
    requires |w| == |X|
    ensures PowerSum(Eliminate(w, X, x0), X, i)
         == Add(PowerSum(w, X, i + 1), Mul(x0, PowerSum(w, X, i)))
    decreases |w|
  {
    hide Mul, Add;
    if w == [] {
      MulZero(x0);
      AddLaws(0, 0);
    } else {
      var n := |w| - 1;
      var w', X', p := w[..n], X[..n], Pow(X[n], i);
      assert Eliminate(w, X, x0)[..n] == Eliminate(w', X', x0);
      EliminateSum(w', X', x0, i);
      EliminateTerm(w[n], X[n], x0, p);
      DistributeRight(x0, PowerSum(w', X', i), Mul(w[n], p));
      AddSwap(PowerSum(w', X', i + 1), Mul(x0, PowerSum(w', X', i)), Mul(w[n], Mul(p, X[n])), Mul(x0, Mul(w[n], p)));
    }
  }

  lemma {:induction false} WeightDrop(w: Poly, w': Poly, k: nat)
    requires |w| == |w'| && k < |w| && w[k] != 0
    requires forall j :: 0 <= j < |w| ==> (w'[j] == 0 <==> w[j] == 0 || j == k)
    ensures Weight(w') == Weight(w) - 1
    decreases |w|
  {
    var n := |w| - 1;
    if k < n {
      WeightDrop(w[..n], w'[..n], k);
    } else {
      SameWeight(w[..n], w'[..n]);
    }
  }

  lemma {:induction false} SameWeight(w: Poly, w': Poly)
    requires |w| == |w'| && forall j :: 0 <= j < |w| ==> (w'[j] == 0 <==> w[j] == 0)
    ensures Weight(w') == Weight(w)
    decreases |w|
  {
    if w != [] {
      SameWeight(w[..|w| - 1], w'[..|w| - 1]);
    }
  }

  lemma {:induction false} WeightZero(w: Poly)
    ensures Weight(w) == 0 <==> w == Zeros(|w|)
    decreases |w|
  {
    if w != [] {
      var n := |w| - 1;
      WeightZero(w[..n]);
      assert Zeros(n + 1)[..n] == Zeros(n);
      assert w == w[..n] + [w[n]];
    }
  }

  lemma {:induction false} SingleTerm(w: Poly, X: Poly, k: nat)
    requires |w| == |X| && k < |w|
    requires forall j :: 0 <= j < |w| && j != k ==> w[j] == 0
    ensures PowerSum(w, X, 0) == w[k]
    decreases |w|
  {
    hide Mul, Add;
    var n := |w| - 1;
    MulOne(w[n]);
    AddLaws(w[k], 0);
    if k < n {
      SingleTerm(w[..n], X[..n], k);
    } else {
      ZeroTerms(w[..n], X[..n]);
    }
  }

  lemma {:induction false} ZeroTerms(w: Poly, X: Poly)
    requires |w| == |X| && forall j :: 0 <= j < |w| ==> w[j] == 0
    ensures PowerSum(w, X, 0) == 0
    decreases |w|
  {
    hide Mul, Add;
    if w != [] {
      ZeroTerms(w[..|w| - 1], X[..|w| - 1]);
      MulZero(1);
      AddLaws(0, 0);
    }
  }

  /** A word with at most d nonzero places whose first d power sums vanish is zero. */
  lemma {:induction false} Vandermonde(w: Poly, X: Poly, d: nat)
    requires |w| == |X| && Distinct(X) && Weight(w) <= d
    requires forall i :: 0 <= i < d ==> PowerSum(w, X, i) == 0
    ensures Weight(w) == 0
    decreases d
  {
    hide Mul, Add, PowerSum, Weight;
    WeightZero(w);
    if Weight(w) != 0 {
      var k :| 0 <= k < |w| && w[k] != 0;
      var w' := Eliminate(w, X, X[k]);
      forall j | 0 <= j < |w|
        ensures w'[j] == 0 <==> w[j] == 0 || j == k
      {
        AddLaws(X[j], X[k]);
        NoZeroDivisors(w[j], Add(X[j], X[k]));
      }
      WeightDrop(w, w', k);
      forall i | 0 <= i < d - 1
        ensures PowerSum(w', X, i) == 0
      {
        EliminateSum(w, X, X[k], i);
        MulZero(X[k]);
        AddLaws(0, 0);
      }
      Vandermonde(w', X, d - 1);
      WeightZero(w');
      forall j | 0 <= j < |w| && j != k
        ensures w[j] == 0
      {
        assert w'[j] == 0;
      }
      SingleTerm(w, X, k);
    }
  }

  // ----- words as polynomials: place j carries the power 2^(n-1-j) -----

  ghost function Locators(n: nat): (X: Poly)
    ensures |X| == n && forall j :: 0 <= j < n ==> X[j] == Exp(n - 1 - j)
  {
    seq(n, j requires 0 <= j < n => Exp(n - 1 - j))
  }

  lemma LocatorsDistinct(n: nat)
    requires n <= 255
    ensures Distinct(Locators(n))
  {
    forall i, j | 0 <= i < j < n
      ensures Locators(n)[i] != Locators(n)[j]
    {
      PowersDistinct(n - 1 - j, n - 1 - i);
    }
  }

  lemma {:induction false} EvalAsSum(w: Poly, n: nat, i: nat)
    requires |w| <= n
    ensures Mul(Eval(w, Exp(i)), Pow(Exp(i), n - |w|)) == PowerSum(w, Locators(n)[..|w|], i)
    decreases |w|
  {
    hide Mul, Add, Exp, Locators;
    var y := Exp(i);
    MulZero(Pow(y, n - |w|));
    if w != [] {
      var m := |w| - 1;
      var k := n - |w|;
      EvalAsSum(w[..m], n, i);
      assert Locators(n)[..|w|][..m] == Locators(n)[..m];
      DistributeLeft(Mul(Eval(w[..m], y), y), w[m], Pow(y, k));
      Associate(Eval(w[..m], y), y, Pow(y, k));
      Commute(y, Pow(y, k));
      assert Pow(y, k + 1) == Mul(Pow(y, k), y);
      PowSwap(i, k);
      assert Locators(n)[..|w|][m] == Exp(k);
    }
  }

  lemma EvalIsSum(w: Poly, i: nat)
    ensures Eval(w, Exp(i)) == PowerSum(w, Locators(|w|), i)
  {
    hide Mul, Add, Exp, Eval, Locators;
    EvalAsSum(w, |w|, i);
    MulOne(Eval(w, Exp(i)));
    assert Locators(|w|)[..|w|] == Locators(|w|);
  }

  /** At most d nonzero places and zeros at 2^0, ..., 2^(d-1): only the zero word, up to length 255. */
  lemma SparseVanishing(w: Poly, d: nat)
    requires |w| <= 255 && Weight(w) <= d
    requires forall i :: 0 <= i < d ==> Eval(w, Exp(i)) == 0
    ensures w == Zeros(|w|)
  {
    hide *;
    LocatorsDistinct(|w|);
    forall i | 0 <= i < d
      ensures PowerSum(w, Locators(|w|), i) == 0
    {
      EvalIsSum(w, i);
    }
    Vandermonde(w, Locators(|w|), d);
    WeightZero(w);
  }

  // ----- distance -----

  lemma {:induction false} HammingIsWeight(u: Poly, v: Poly)
    requires |u| == |v|
    ensures Hamming(u, v) == Weight(Plus(u, v))
    decreases |u|
  {
    hide Add;
    if u != [] {
      var n := |u| - 1;
      HammingIsWeight(u[..n], v[..n]);
      assert Plus(u, v)[..n] == Plus(u[..n], v[..n]);
      AddLaws(u[n], v[n]);
    }
  }

  lemma {:induction false} Triangle(u: Poly, r: Poly, v: Poly)
    requires |u| == |r| == |v|
    ensures Hamming(u, v) <= Hamming(u, r) + Hamming(r, v)
    decreases |u|
  {
    if u != [] {
      var n := |u| - 1;
      Triangle(u[..n], r[..n], v[..n]);
    }
  }

  lemma {:induction false} HammingSymmetric(u: Poly, v: Poly)
    requires |u| == |v|
    ensures Hamming(u, v) == Hamming(v, u)
    decreases |u|
  {
    if u != [] {
      var n := |u| - 1;
      HammingSymmetric(u[..n], v[..n]);
    }
  }

  /** Distinct codewords of at most 255 words differ in more than d places. */
  lemma CodewordDistance(u: Poly, v: Poly, d: nat)
    requires IsCodeword(u, d) && IsCodeword(v, d) && |u| == |v| <= 255 && u != v
    ensures Hamming(u, v) >= d + 1
  {
    hide *;
    var w := Plus(u, v);
    HammingIsWeight(u, v);
    if Weight(w) <= d {
      forall i | 0 <= i < d
        ensures Eval(w, Exp(i)) == 0
      {
        CodewordVanishes(u, d, i);
        CodewordVanishes(v, d, i);
        EvalPlus(u, v, Exp(i));
        AddLaws(0, 0);
      }
      SparseVanishing(w, d);
      forall j | 0 <= j < |u|
        ensures u[j] == v[j]
      {
        assert w[j] == Add(u[j], v[j]);
        AddLaws(u[j], v[j]);
      }
    }
  }

  /** Data blocks that differ anywhere yield symbols that differ in at least d + 1 words. */
  lemma BlockDistance(a: Poly, b: Poly, d: nat)
    requires d > 0 && |a| == |b| && |a| + d <= 255 && a != b
    ensures Hamming(a + CheckWords(a, d), b + CheckWords(b, d)) >= d + 1
  {
    hide *;
    CodewordIff(a, CheckWords(a, d), d);
    CodewordIff(b, CheckWords(b, d), d);
    assert (a + CheckWords(a, d))[..|a|] == a;
    assert (b + CheckWords(b, d))[..|a|] == b;
    CodewordDistance(a + CheckWords(a, d), b + CheckWords(b, d), d);
  }

  /** Up to d / 2 damaged words leave every codeword but the one sent more than d / 2 words away. */
  lemma UniqueNearest(a: Poly, received: Poly, other: Poly, d: nat)
    requires d > 0 && |a| + d == |received| == |other| <= 255
    requires Hamming(a + CheckWords(a, d), received) <= d / 2
    requires IsCodeword(other, d) && other != a + CheckWords(a, d)
    ensures Hamming(other, received) > d / 2
  {
    hide *;
    var u := a + CheckWords(a, d);
    CodewordIff(a, CheckWords(a, d), d);
    CodewordDistance(u, other, d);
    Triangle(u, received, other);
    HammingSymmetric(other, received);
  }

  ghost predicate Vanishes(w: Poly, d: nat) {
    forall i :: 0 <= i < d ==> Eval(w, Exp(i)) == 0
  }

  /** A word of at least d places is a codeword exactly when it vanishes at 2^0, ..., 2^(d-1). */
  lemma CodewordIffVanishes(w: Poly, d: nat)
    requires 0 < d <= |w| && d <= 255
    ensures IsCodeword(w, d) <==> Vanishes(w, d)
  {
    hide IsCodeword, CheckWords, Eval, Exp;
    var data, ec := w[..|w| - d], w[|w| - d..];
    var check := CheckWords(data, d);
    assert w == data + ec;
    CodewordIff(data, check, d);
    CodewordIff(data, ec, d);
    if IsCodeword(w, d) {
      forall i | 0 <= i < d
        ensures Eval(w, Exp(i)) == 0
      {
        CodewordVanishes(w, d, i);
      }
    } else if Vanishes(w, d) {
      VanishingRemainder(data, ec, check, d);
    }
  }

  lemma VanishingRemainder(data: Poly, ec: Poly, check: Poly, d: nat)
    requires |ec| == |check| == d <= 255
    requires Vanishes(data + ec, d) && IsCodeword(data + check, d)
    ensures ec == check
  {
    hide Add, IsCodeword, Eval, Exp;
    var diff := Plus(ec, check);
    forall i | 0 <= i < d
      ensures Eval(diff, Exp(i)) == 0
    {
      assert Eval(data + ec, Exp(i)) == 0;
      CodewordVanishes(data + check, d, i);
      EvalPlus(data + ec, data + check, Exp(i));
      AddLaws(0, 0);
      SamePrefix(data, ec, check);
      EvalLeadingZeros(|data|, diff, Exp(i));
    }
    SparseVanishing(diff, d);
    forall j | 0 <= j < d
      ensures ec[j] == check[j]
    {
      assert diff[j] == Add(ec[j], check[j]) == 0;
      AddLaws(ec[j], check[j]);
    }
  }

  lemma SamePrefix(data: Poly, p: Poly, q: Poly)
    requires |p| == |q|
    ensures Plus(data + p, data + q) == Zeros(|data|) + Plus(p, q)
  {
    hide Add;
    forall j | 0 <= j < |data|
      ensures Add(data[j], data[j]) == 0
    {
      AddLaws(data[j], data[j]);
    }
  }

  lemma {:induction false} EvalLeadingZeros(n: nat, p: Poly, x: byte)
    ensures Eval(Zeros(n) + p, x) == Eval(p, x)
    decreases |p|
  {
    hide Mul, Add;
    if p == [] {
      EvalZeros(n, x);
      assert Zeros(n) + p == Zeros(n);
    } else {
      EvalLeadingZeros(n, p[..|p| - 1], x);
      assert (Zeros(n) + p)[..n + |p| - 1] == Zeros(n) + p[..|p| - 1];
    }
  }
}
