/** Facts about products and Euclidean division that the solver does not find by itself. */
module Arithmetic {

  lemma MulOrder(m: int, a: int, b: int)
    requires m > 0
    ensures a <= b ==> m * a <= m * b
  {
  }

  lemma DivMod(a: int, m: int, q: int, r: int)
    requires 0 <= r < m && a == m * q + r
    ensures a / m == q && a % m == r
  {
    MulOrder(m, 1, a / m - q);
    MulOrder(m, a / m - q, -1);
    assert m * (a / m - q) == r - a % m;
  }

  lemma DivLess(p: int, m: int, k: int)
    requires m > 0 && p < m * k
    ensures p / m < k
  {
    MulOrder(m, k, p / m);
    assert m * (p / m) <= p;
  }

  /** Place s of row u of a table with c columns, each of b entries. */
  lemma Nest(b: int, c: int, u: int, s: int, r: int)
    requires 0 <= r < b && 0 <= s < c
    ensures b * (c * u + s) + r == (b * c) * u + (b * s + r)
    ensures 0 <= b * s + r < b * c
  {
    assert b * (c * u + s) == b * (c * u) + b * s;
    assert b * (c * u) == (b * c) * u;
    MulOrder(b, 0, s);
    MulOrder(b, s, c - 1);
    assert b * (c - 1) == b * c - b;
  }

  lemma DivTwice(a: nat, b: nat, c: nat)
    requires b > 0 && c > 0
    ensures a / b / c == a / (b * c)
  {
    var q, r := a / b, a % b;
    var u, s := q / c, q % c;
    Nest(b, c, u, s, r);
    DivMod(a, b * c, u, b * s + r);
  }
}
