/** The drawn parts of a symbol as figures: what the closed formulas of the model say, module by module. */
module Figures {
  import opened Arithmetic
  import opened Options
  import opened Bits
  import opened Payload
  import opened Zigzag
  import opened Layout
  import opened Format

  /** A figure: rows of equal width, '#' for dark or flipped. */
  ghost predicate IsFigure(rows: seq<string>) {
    |rows| > 0 && |rows[0]| > 0 && forall y :: 0 <= y < |rows| ==> |rows[y]| == |rows[0]|
  }

  // ----- the eight masks -----

  /** The smallest tile of each mask pattern; '#' is flipped. */
  function Tile(mask: nat): (t: seq<string>)
    requires mask < 8
    ensures IsFigure(t)
  {
    match mask
    case 0 => ["#.",
               ".#"]
    case 1 => ["#",
               "."]
    case 2 => ["#.."]
    case 3 => ["#..",
               "..#",
               ".#."]
    case 4 => ["###...",
               "###...",
               "...###",
               "...###"]
    case 5 => ["######",
               "#.....",
               "#..#..",
               "#.#.#.",
               "#..#..",
               "#....."]
    case 6 => ["######",
               "###...",
               "##.##.",
               "#.#.#.",
               "#.##.#",
               "#...##"]
    case 7 => ["#.#.#.",
               "...###",
               "#...##",
               ".#.#.#",
               "###...",
               ".###.."]
  }

  /** The tile repeated over the plane. */
  predicate Tiled(mask: nat, x: nat, y: nat)
    requires mask < 8
  {
    var t := Tile(mask);
    t[y % |t|][x % |t[0]|] == '#'
  }

  lemma ModShift(m: int, k: int, c: int)
    requires m > 0
    ensures (m * k + c) % m == c % m
  {
    DivMod(m * k + c, m, k + c / m, c % m);
  }

  lemma SixFold(x: nat, y: nat)
    ensures (x * y) % 2 == ((x % 6) * (y % 6)) % 2 && (x * y) % 3 == ((x % 6) * (y % 6)) % 3
  {
    var a, b, u, v := x % 6, y % 6, x / 6, y / 6;
    var w, c := 6 * (u * v) + u * b + a * v, a * b;
    assert (6 * u + a) * (6 * v + b) == 36 * (u * v) + 6 * (u * b) + 6 * (a * v) + a * b;
    assert x * y == 6 * w + c;
    ModShift(2, 3 * w, c);
    ModShift(3, 2 * w, c);
  }

  lemma TwoByTwo(mask: nat, x: nat, y: nat)
    requires mask < 2
    ensures Inverted(mask, x, y) == Tiled(mask, x, y)
  {
  }

  lemma ThreeByThree(mask: nat, x: nat, y: nat)
    requires 2 <= mask < 4
    ensures Inverted(mask, x, y) == Tiled(mask, x, y)
  {
    var a, b := x % 3, y % 3;
    assert a == 0 || a == 1 || a == 2;
    assert b == 0 || b == 1 || b == 2;
  }

  lemma Mask4(x: nat, y: nat)
    ensures Inverted(4, x, y) == Tiled(4, x, y)
  {
    var a, b := x % 6, y % 4;
    assert a == 0 || a == 1 || a == 2 || a == 3 || a == 4 || a == 5;
    assert b == 0 || b == 1 || b == 2 || b == 3;
    assert (x / 3) % 2 == a / 3 && (y / 2) % 2 == b / 2;
  }

  /** Masks 5, 6 and 7 look at the sum and the product of the coordinates only. */
  predicate ByProduct(mask: nat, sum: nat, product: nat) {
    match mask
    case 5 => product % 2 + product % 3 == 0
    case 6 => (product % 2 + product % 3) % 2 == 0
    case 7 => (sum % 2 + product % 3) % 2 == 0
    case _ => false
  }

  lemma IsByProduct(mask: nat, x: nat, y: nat)
    requires 5 <= mask < 8
    ensures x * y >= 0 && Inverted(mask, x, y) == ByProduct(mask, x + y, x * y)
  {
  }

  function SmallProduct(a: nat, b: nat): nat {
    if a == 0 then 0 else if a == 1 then b else if a == 2 then 2 * b else if a == 3 then 3 * b else if a == 4 then 4 * b else 5 * b
  }

  lemma Mask5Cell(a: nat, b: nat, p: nat)
    requires a < 6 && b < 6 && p == SmallProduct(a, b)
    ensures ByProduct(5, a + b, p) == Tiled(5, a, b)
  {
    assert a == 0 || a == 1 || a == 2 || a == 3 || a == 4 || a == 5;
    assert b == 0 || b == 1 || b == 2 || b == 3 || b == 4 || b == 5;
  }

  lemma Mask6Cell(a: nat, b: nat, p: nat)
    requires a < 6 && b < 6 && p == SmallProduct(a, b)
    ensures ByProduct(6, a + b, p) == Tiled(6, a, b)
  {
    assert a == 0 || a == 1 || a == 2 || a == 3 || a == 4 || a == 5;
    assert b == 0 || b == 1 || b == 2 || b == 3 || b == 4 || b == 5;
  }

  lemma Mask7Cell(a: nat, b: nat, p: nat)
    requires a < 6 && b < 6 && p == SmallProduct(a, b)
    ensures ByProduct(7, a + b, p) == Tiled(7, a, b)
  {
    assert a == 0 || a == 1 || a == 2 || a == 3 || a == 4 || a == 5;
    assert b == 0 || b == 1 || b == 2 || b == 3 || b == 4 || b == 5;
  }

  lemma ProductCell(mask: nat, a: nat, b: nat)
    requires 5 <= mask < 8 && a < 6 && b < 6
    ensures a * b >= 0 && ByProduct(mask, a + b, a * b) == Tiled(mask, a, b)
  {
    assert a * b == SmallProduct(a, b);
    hide *;
    if mask == 5 {
      Mask5Cell(a, b, SmallProduct(a, b));
    } else if mask == 6 {
      Mask6Cell(a, b, SmallProduct(a, b));
    } else {
      Mask7Cell(a, b, SmallProduct(a, b));
    }
  }

  lemma ProductMasks(mask: nat, x: nat, y: nat)
    requires 5 <= mask < 8
    ensures Inverted(mask, x, y) == Tiled(mask, x, y)
  {
    hide *;
    IsByProduct(mask, x, y);
    SixFold(x, y);
    ProductCell(mask, x % 6, y % 6);
    SixSum(x, y);
    SameByProduct(mask, x + y, x % 6 + y % 6, x * y, (x % 6) * (y % 6));
    SameTile(mask, x, y);
  }

  lemma SixSum(x: nat, y: nat)
    ensures (x + y) % 2 == (x % 6 + y % 6) % 2
  {
    ModShift(2, 3 * (x / 6 + y / 6), x % 6 + y % 6);
  }

  lemma SameByProduct(mask: nat, s: nat, s': nat, p: nat, p': nat)
    requires s % 2 == s' % 2 && p % 2 == p' % 2 && p % 3 == p' % 3
    ensures ByProduct(mask, s, p) == ByProduct(mask, s', p')
  {
  }

  lemma SameTile(mask: nat, x: nat, y: nat)
    requires 5 <= mask < 8
    ensures Tiled(mask, x, y) == Tiled(mask, x % 6, y % 6)
  {
    TileSide(mask);
    hide Tile, IsFigure;
    assert x % 6 % 6 == x % 6 && y % 6 % 6 == y % 6;
  }

  lemma TileSide(mask: nat)
    requires 5 <= mask < 8
    ensures |Tile(mask)| == 6 && forall y :: 0 <= y < 6 ==> |Tile(mask)[y]| == 6
  {
  }

  /** Each mask flips the modules of its tile, repeated over the symbol. */
  lemma MaskFigure(mask: nat, x: nat, y: nat)
    requires mask < 8
    ensures Inverted(mask, x, y) == Tiled(mask, x, y)
  {
    hide *;
    if mask < 2 {
      TwoByTwo(mask, x, y);
    } else if mask < 4 {
      ThreeByThree(mask, x, y);
    } else if mask == 4 {
      Mask4(x, y);
    } else {
      ProductMasks(mask, x, y);
    }
  }

  // ----- the eight format words -----

  /** A remainder of the division by 0x537, digit by digit, lowest first. */
  type bit = x: int | 0 <= x < 2
  datatype Rem = Rem(r0: bit, r1: bit, r2: bit, r3: bit, r4: bit, r5: bit, r6: bit, r7: bit, r8: bit, r9: bit)

  function Num(r: Rem): nat {
    32 * High(r) + Low(r)
  }

  function Low(r: Rem): (n: nat)
    ensures n < 32
  {
    r.r0 + 2 * (r.r1 + 2 * (r.r2 + 2 * (r.r3 + 2 * r.r4)))
  }

  function High(r: Rem): (n: nat)
    ensures n < 32
  {
    r.r5 + 2 * (r.r6 + 2 * (r.r7 + 2 * (r.r8 + 2 * r.r9)))
  }

  function Not(a: bit): bit {
    1 - a
  }

  /** Shift up; when a digit falls out at the top, flip where 0x537 = 10100110111b has ones. */
  function Shifted(r: Rem): Rem {
    if r.r9 == 0 then Rem(0, r.r0, r.r1, r.r2, r.r3, r.r4, r.r5, r.r6, r.r7, r.r8)
    else Rem(1, Not(r.r0), Not(r.r1), r.r2, Not(r.r3), Not(r.r4), r.r5, r.r6, Not(r.r7), r.r8)
  }

  lemma XorOne(d: nat)
    requires d < 2
    ensures Xor(d, 1) == 1 - d
  {
    assert Xor(0, 0) == 0;
  }

  lemma ReduceLow(d0: nat, d1: nat, d2: nat, d3: nat)
    requires d0 < 2 && d1 < 2 && d2 < 2 && d3 < 2
    ensures Xor(2 * (d0 + 2 * (d1 + 2 * (d2 + 2 * d3))), 23)
         == 1 + 2 * ((1 - d0) + 2 * ((1 - d1) + 2 * (d2 + 2 * (1 - d3))))
  {
    hide Xor;
    XorOne(d3);
    XorJoin(d3, 1, d2, 0);
    XorJoin(d2 + 2 * d3, 2, d1, 1);
    XorJoin(d1 + 2 * (d2 + 2 * d3), 5, d0, 1);
    XorJoin(d0 + 2 * (d1 + 2 * (d2 + 2 * d3)), 11, 0, 1);
  }

  lemma ReduceHigh(d4: nat, d5: nat, d6: nat, d7: nat, d8: nat)
    requires d4 < 2 && d5 < 2 && d6 < 2 && d7 < 2 && d8 < 2
    ensures Xor(d4 + 2 * (d5 + 2 * (d6 + 2 * (d7 + 2 * (d8 + 2)))), 41)
         == (1 - d4) + 2 * (d5 + 2 * (d6 + 2 * ((1 - d7) + 2 * d8)))
  {
    hide Xor;
    XorOne(1);
    XorJoin(1, 1, d8, 0);
    XorJoin(d8 + 2 * 1, 2, d7, 1);
    XorJoin(d7 + 2 * (d8 + 2 * 1), 5, d6, 0);
    XorJoin(d6 + 2 * (d7 + 2 * (d8 + 2 * 1)), 10, d5, 0);
    XorJoin(d5 + 2 * (d6 + 2 * (d7 + 2 * (d8 + 2 * 1))), 20, d4, 1);
  }

  lemma FlipTwo(d0: nat, d1: nat, d2: nat, d3: nat, d4: nat)
    requires d0 < 2 && d1 < 2 && d2 < 2 && d3 < 2 && d4 < 2
    ensures Xor(d0 + 2 * (d1 + 2 * (d2 + 2 * (d3 + 2 * d4))), 18)
         == d0 + 2 * ((1 - d1) + 2 * (d2 + 2 * (d3 + 2 * (1 - d4))))
  {
    hide Xor;
    XorOne(d4);
    XorJoin(d4, 1, d3, 0);
    XorJoin(d3 + 2 * d4, 2, d2, 0);
    XorJoin(d2 + 2 * (d3 + 2 * d4), 4, d1, 1);
    XorJoin(d1 + 2 * (d2 + 2 * (d3 + 2 * d4)), 9, d0, 0);
  }

  lemma ReduceDigits(r: Rem)
    requires r.r9 == 1
    ensures Xor(2 * Num(r), 0x537) == Num(Shifted(r))
  {
    hide Xor;
    var low, high := 2 * (r.r0 + 2 * (r.r1 + 2 * (r.r2 + 2 * r.r3))), r.r4 + 2 * High(r);
    ReduceLow(r.r0, r.r1, r.r2, r.r3);
    ReduceHigh(r.r4, r.r5, r.r6, r.r7, r.r8);
    XorSplit5(high, 41, low, 23);
  }

  lemma TopDigit(r: Rem)
    ensures Num(r) < 1024 && Num(r) / 512 == r.r9
  {
    var rest := r.r5 + 2 * (r.r6 + 2 * (r.r7 + 2 * r.r8));
    assert High(r) == rest + 16 * r.r9 && rest < 16;
    hide High, Low;
    DivMod(Num(r), 512, r.r9, 32 * rest + Low(r));
  }

  lemma NoOverflow(r: Rem)
    requires r.r9 == 0
    ensures 2 * Num(r) == Num(Shifted(r))
  {
  }

  lemma ShiftedIs(r: Rem)
    ensures BchStep(Num(r)) == Num(Shifted(r))
  {
    hide Xor, Shr, Num, Shifted;
    TopDigit(r);
    BchStepBound(Num(r));
    XorZero(2 * Num(r));
    if r.r9 == 1 {
      ReduceDigits(r);
    } else {
      NoOverflow(r);
    }
  }

  function Shifts(r: Rem, n: nat): Rem {
    if n == 0 then r else Shifted(Shifts(r, n - 1))
  }

  lemma {:induction false} ShiftsAre(r: Rem, n: nat)
    ensures BchRemainder(Num(r), n) == Num(Shifts(r, n))
  {
    hide BchStep, Num, Shifted;
    if n > 0 {
      ShiftsAre(r, n - 1);
      ShiftedIs(Shifts(r, n - 1));
    }
  }

  /** Below the five data digits, 0x5412 flips digits 1 and 4 of the remainder. */
  lemma LowDigits(d: nat, r: Rem)
    ensures Xor(1024 * d + Num(r), 0x5412) == 1024 * Xor(d, 21) + Num(Flipped(r))
  {
    FlippedIs(r);
    hide Xor, High, Low, Flipped;
    XorZero(High(r));
    XorSplit5(d, 21, High(r), 0);
    XorSplit5(32 * d + High(r), 672, Low(r), 18);
  }

  function Flipped(r: Rem): Rem {
    r.(r1 := Not(r.r1), r4 := Not(r.r4))
  }

  lemma FlippedIs(r: Rem)
    ensures High(Flipped(r)) == High(r) && Low(Flipped(r)) == Xor(Low(r), 18)
  {
    hide Xor;
    FlipTwo(r.r0, r.r1, r.r2, r.r3, r.r4);
  }

  function Start(mask: nat): Rem
    requires mask < 8
  {
    Rem(mask % 2, mask / 2 % 2, mask / 4, 1, 0, 0, 0, 0, 0, 0)
  }

  lemma StartIs(mask: nat)
    requires mask < 8
    ensures Num(Start(mask)) == 8 + mask && FormatData(mask) == 8 + mask
  {
    assert mask == mask % 2 + 2 * (mask / 2 % 2) + 4 * (mask / 4);
  }

  lemma WordFrom(mask: nat, r: Rem, n: nat)
    requires mask < 8 && n == 10 && r == Shifts(Start(mask), n)
    ensures FormatWord(mask) == 1024 * Xor(8 + mask, 21) + Num(Flipped(r))
  {
    hide *;
    StartIs(mask);
    ShiftsAre(Start(mask), n);
    TopDigit(r);
    PowTable();
    ShlTimes(8 + mask, 10);
    ShiftedDisjoint(8 + mask, Num(r), 10);
    LowDigits(8 + mask, r);
    FormatWordIs(mask);
  }

  lemma FormatWordIs(mask: nat)
    ensures FormatWord(mask) == Xor(Or(Shl(FormatData(mask), 10), BchRemainder(FormatData(mask), 10)), 0x5412)
  {
    hide Xor, Or, Shl, BchRemainder, FormatData;
  }

  lemma LevelAndMask(m0: nat, m1: nat, m2: nat)
    requires m0 < 2 && m1 < 2 && m2 < 2
    ensures Xor(8 + m0 + 2 * m1 + 4 * m2, 21) == 24 + (1 - m0) + 2 * m1 + 4 * (1 - m2)
  {
    hide Xor;
    XorOne(0);
    XorJoin(0, 1, 1, 0);
    XorJoin(1 + 2 * 0, 2, m2, 1);
    XorJoin(m2 + 2 * 1, 5, m1, 0);
    XorJoin(m1 + 2 * (m2 + 2 * 1), 10, m0, 1);
  }

  function Five(r: Rem): Rem {
    Shifted(Shifted(Shifted(Shifted(Shifted(r)))))
  }

  lemma FiveShifts(r: Rem, n: nat)
    ensures Shifts(r, n + 5) == Five(Shifts(r, n))
  {
    hide Shifted;
    assert Shifts(r, n + 1) == Shifted(Shifts(r, n));
    assert Shifts(r, n + 2) == Shifted(Shifts(r, n + 1));
    assert Shifts(r, n + 3) == Shifted(Shifts(r, n + 2));
    assert Shifts(r, n + 4) == Shifted(Shifts(r, n + 3));
  }

  function Check(mask: nat): Rem
    requires mask < 8
  {
    match mask
    case 0 => Rem(0, 1, 1, 0, 1, 0, 1, 1, 1, 1)
    case 1 => Rem(1, 0, 0, 0, 0, 1, 1, 1, 0, 1)
    case 2 => Rem(0, 0, 0, 1, 1, 1, 0, 1, 1, 0)
    case 3 => Rem(1, 1, 1, 1, 0, 0, 0, 1, 0, 0)
    case 4 => Rem(1, 0, 1, 1, 1, 1, 0, 0, 0, 1)
    case 5 => Rem(0, 1, 0, 1, 0, 0, 0, 0, 1, 1)
    case 6 => Rem(1, 1, 0, 0, 1, 0, 1, 0, 0, 0)
    case 7 => Rem(0, 0, 1, 0, 0, 1, 1, 0, 1, 0)
  }

  lemma CheckIs(mask: nat)
    requires mask < 8
    ensures Five(Five(Start(mask))) == Check(mask)
  {
    if mask == 0 {
      Halves(0, Rem(0, 0, 0, 1, 0, 0, 0, 0, 0, 0), Rem(0, 0, 0, 0, 0, 0, 0, 0, 1, 0));
    } else if mask == 1 {
      Halves(1, Rem(1, 0, 0, 1, 0, 0, 0, 0, 0, 0), Rem(0, 0, 0, 0, 0, 1, 0, 0, 1, 0));
    } else if mask == 2 {
      Halves(2, Rem(0, 1, 0, 1, 0, 0, 0, 0, 0, 0), Rem(0, 0, 0, 0, 0, 0, 1, 0, 1, 0));
    } else if mask == 3 {
      Halves(3, Rem(1, 1, 0, 1, 0, 0, 0, 0, 0, 0), Rem(0, 0, 0, 0, 0, 1, 1, 0, 1, 0));
    } else if mask == 4 {
      Halves(4, Rem(0, 0, 1, 1, 0, 0, 0, 0, 0, 0), Rem(0, 0, 0, 0, 0, 0, 0, 1, 1, 0));
    } else if mask == 5 {
      Halves(5, Rem(1, 0, 1, 1, 0, 0, 0, 0, 0, 0), Rem(0, 0, 0, 0, 0, 1, 0, 1, 1, 0));
    } else if mask == 6 {
      Halves(6, Rem(0, 1, 1, 1, 0, 0, 0, 0, 0, 0), Rem(0, 0, 0, 0, 0, 0, 1, 1, 1, 0));
    } else {
      Halves(7, Rem(1, 1, 1, 1, 0, 0, 0, 0, 0, 0), Rem(0, 0, 0, 0, 0, 1, 1, 1, 1, 0));
    }
  }

  lemma Halves(mask: nat, start: Rem, middle: Rem)
    requires mask < 8 && Start(mask) == start && Five(start) == middle && Five(middle) == Check(mask)
    ensures Five(Five(Start(mask))) == Check(mask)
  {
    hide Five, Start, Check;
  }

  /** The format words of level L, as the standard lists them. */
  const FORMAT_WORDS: seq<nat> := [0x77C4, 0x72F3, 0x7DAA, 0x789D, 0x662F, 0x6318, 0x6C41, 0x6976]

  lemma FormatFigure(mask: nat)
    requires mask < 8
    ensures FormatWord(mask) == FORMAT_WORDS[mask]
  {
    hide Shifts, Five, Start, Xor, Num, Flipped, Check, FormatWord;
    var start := Start(mask);
    assert Shifts(start, 0) == start by { NoShift(start); }
    FiveShifts(start, 0);
    FiveShifts(start, 5);
    CheckIs(mask);
    WordFrom(mask, Check(mask), 10);
    LevelAndMask(mask % 2, mask / 2 % 2, mask / 4);
    FlippedCheck(mask);
  }

  lemma NoShift(r: Rem)
    ensures Shifts(r, 0) == r
  {
  }

  lemma FlippedCheck(mask: nat)
    requires mask < 8
    ensures 1024 * (24 + (1 - mask % 2) + 2 * (mask / 2 % 2) + 4 * (1 - mask / 4)) + Num(Flipped(Check(mask))) == FORMAT_WORDS[mask]
  {
    assert mask == 0 || mask == 1 || mask == 2 || mask == 3 || mask == 4 || mask == 5 || mask == 6 || mask == 7;
  }

  // ----- the patterns -----

  /** A finder with its separator. */
  const FINDER_FIGURE: seq<string> := [
    ".........",
    ".#######.",
    ".#.....#.",
    ".#.###.#.",
    ".#.###.#.",
    ".#.###.#.",
    ".#.....#.",
    ".#######.",
    "........."]

  const ALIGNMENT_FIGURE: seq<string> := [
    "#####",
    "#...#",
    "#.#.#",
    "#...#",
    "#####"]

  lemma FinderRow(dx: int, dy: int)
    requires -4 <= dx <= 4 && -4 <= dy <= 4
    ensures FinderDark(0, 0, dx, dy) == (FINDER_FIGURE[dy + 4][dx + 4] == '#')
  {
    assert dy == -4 || dy == -3 || dy == -2 || dy == -1 || dy == 0 || dy == 1 || dy == 2 || dy == 3 || dy == 4;
    assert dx == -4 || dx == -3 || dx == -2 || dx == -1 || dx == 0 || dx == 1 || dx == 2 || dx == 3 || dx == 4;
  }

  lemma FinderFigure(cx: int, cy: int, x: int, y: int)
    requires -4 <= x - cx <= 4 && -4 <= y - cy <= 4
    ensures InFinder(cx, cy, x, y) && FinderDark(cx, cy, x, y) == (FINDER_FIGURE[y - cy + 4][x - cx + 4] == '#')
  {
    FinderRow(x - cx, y - cy);
  }

  lemma AlignmentFigure(c: int, x: int, y: int)
    requires -2 <= x - c <= 2 && -2 <= y - c <= 2
    ensures Ring(c, c, x, y) <= 2 && (Ring(c, c, x, y) != 1 <==> ALIGNMENT_FIGURE[y - c + 2][x - c + 2] == '#')
  {
    var dx, dy := x - c, y - c;
    assert dx == -2 || dx == -1 || dx == 0 || dx == 1 || dx == 2;
    assert dy == -2 || dy == -1 || dy == 0 || dy == 1 || dy == 2;
  }

  /** The grid shows a figure placed with its top left corner at (left, top), as far as it lies in the grid. */
  ghost predicate ShowsFigure(g: Grid, figure: seq<string>, left: int, top: int)
    requires Square(g, |g|) && IsFigure(figure)
  {
    forall x, y :: 0 <= x < |g| && 0 <= y < |g| ==> FigureCell(g, figure, left, top, x, y)
  }

  ghost predicate FigureCell(g: Grid, figure: seq<string>, left: int, top: int, x: nat, y: nat)
    requires Square(g, |g|) && IsFigure(figure) && x < |g| && y < |g|
  {
    0 <= y - top < |figure| && 0 <= x - left < |figure[0]| ==> g[y][x] == (figure[y - top][x - left] == '#')
  }

  /** A grid shows the function patterns of a version of side s: three finders, timing between them, the alignment
      pattern of the versions above 1, the dark module. */
  ghost predicate ShowsPatterns(g: Grid, s: nat)
    requires Square(g, s) && s >= 21
  {
    && ShowsFigure(g, FINDER_FIGURE, -1, -1)
    && ShowsFigure(g, FINDER_FIGURE, s - 8, -1)
    && ShowsFigure(g, FINDER_FIGURE, -1, s - 8)
    && (s > 21 ==> ShowsFigure(g, ALIGNMENT_FIGURE, s - 9, s - 9))
    && (forall k :: 8 <= k < s - 8 ==> TimingCell(g, k))
    && g[s - 8][8]
  }

  ghost predicate TimingCell(g: Grid, k: int)
  {
    && 6 < |g| && 0 <= k < |g| && 6 < |g[k]| && k < |g[6]|
    && g[6][k] == (k % 2 == 0) && g[k][6] == (k % 2 == 0)
  }

  ghost predicate KeepsPatterns(v: nat, g: Grid)
    requires Square(g, Size(v))
  {
    forall x, y :: 0 <= x < Size(v) && 0 <= y < Size(v) && Untouched(v, x, y) ==> g[y][x] == PatternDark(v, x, y)
  }

  /** A grid in which the drawn patterns are untouched by format bits and data shows them. */
  lemma PatternsShow(v: nat, g: Grid)
    requires IsVersion(v) && Square(g, Size(v)) && KeepsPatterns(v, g)
    ensures ShowsPatterns(g, Size(v))
  {
    var s := Size(v);
    FinderShows(v, g, -1, -1);
    FinderShows(v, g, s - 8, -1);
    FinderShows(v, g, -1, s - 8);
    if s > 21 {
      AlignmentShows(v, g);
    }
    hide PatternDark, Untouched, ShowsFigure;
    forall k | 8 <= k < s - 8
      ensures TimingCell(g, k)
    {
      TimingModule(v, k);
    }
    DarkModule(v);
  }

  lemma FinderShows(v: nat, g: Grid, left: int, top: int)
    requires IsVersion(v) && Square(g, Size(v)) && KeepsPatterns(v, g)
    requires (left == -1 && top == -1) || (left == Size(v) - 8 && top == -1) || (left == -1 && top == Size(v) - 8)
    ensures ShowsFigure(g, FINDER_FIGURE, left, top)
  {
    hide PatternDark, Untouched;
    forall x, y | 0 <= x < Size(v) && 0 <= y < Size(v)
      ensures FigureCell(g, FINDER_FIGURE, left, top, x, y)
    {
      if 0 <= x - left < 9 && 0 <= y - top < 9 {
        FinderCell(v, left + 4, top + 4, x, y);
      }
    }
  }

  lemma AlignmentShows(v: nat, g: Grid)
    requires IsVersion(v) && v > 1 && Square(g, Size(v)) && KeepsPatterns(v, g)
    ensures ShowsFigure(g, ALIGNMENT_FIGURE, Size(v) - 9, Size(v) - 9)
  {
    hide PatternDark, Untouched;
    var low := Size(v) - 9;
    forall x, y | 0 <= x < Size(v) && 0 <= y < Size(v)
      ensures FigureCell(g, ALIGNMENT_FIGURE, low, low, x, y)
    {
      if low <= x < low + 5 && low <= y < low + 5 {
        AlignmentCell(v, x, y);
      }
    }
  }

  /** The function modules that carry no format bit; the dark module is drawn again after the bits. */
  predicate Untouched(v: nat, x: nat, y: nat)
    requires x < Size(v) && y < Size(v)
  {
    IsFunction(v, x, y) && (Overlay(Size(v), 0, x, y).None? || (x == 8 && y == Size(v) - 8))
  }

  lemma FinderCell(v: nat, cx: int, cy: int, x: nat, y: nat)
    requires IsVersion(v) && x < Size(v) && y < Size(v) && -4 <= x - cx <= 4 && -4 <= y - cy <= 4
    requires (cx == 3 && cy == 3) || (cx == Size(v) - 4 && cy == 3) || (cx == 3 && cy == Size(v) - 4)
    ensures Untouched(v, x, y) && PatternDark(v, x, y) == (FINDER_FIGURE[y - cy + 4][x - cx + 4] == '#')
  {
    FinderFigure(cx, cy, x, y);
    FinderUntouched(v, cx, cy, x, y);
    FinderOnTop(v, cx, cy, x, y);
    hide *;
  }

  lemma FinderUntouched(v: nat, cx: int, cy: int, x: nat, y: nat)
    requires IsVersion(v) && x < Size(v) && y < Size(v) && -4 <= x - cx <= 4 && -4 <= y - cy <= 4
    requires (cx == 3 && cy == 3) || (cx == Size(v) - 4 && cy == 3) || (cx == 3 && cy == Size(v) - 4)
    ensures Untouched(v, x, y)
  {
    hide FormatBit;
  }

  /** The three finders do not meet each other, the alignment pattern or the format bits. */
  lemma FinderOnTop(v: nat, cx: int, cy: int, x: nat, y: nat)
    requires IsVersion(v) && x < Size(v) && y < Size(v) && -4 <= x - cx <= 4 && -4 <= y - cy <= 4
    requires (cx == 3 && cy == 3) || (cx == Size(v) - 4 && cy == 3) || (cx == 3 && cy == Size(v) - 4)
    ensures PatternDark(v, x, y) == FinderDark(cx, cy, x, y)
  {
    hide FinderDark;
  }

  lemma AlignmentCell(v: nat, x: nat, y: nat)
    requires IsVersion(v) && v > 1 && Size(v) - 9 <= x < Size(v) - 4 && Size(v) - 9 <= y < Size(v) - 4
    ensures Untouched(v, x, y) && PatternDark(v, x, y) == (ALIGNMENT_FIGURE[y - Size(v) + 9][x - Size(v) + 9] == '#')
  {
    AlignmentFigure(Size(v) - 7, x, y);
    hide FormatBit;
  }

  lemma TimingModule(v: nat, k: nat)
    requires IsVersion(v) && 8 <= k < Size(v) - 8
    ensures Untouched(v, k, 6) && PatternDark(v, k, 6) == (k % 2 == 0)
    ensures Untouched(v, 6, k) && PatternDark(v, 6, k) == (k % 2 == 0)
  {
    hide FormatBit;
  }

  lemma DarkModule(v: nat)
    requires IsVersion(v)
    ensures Untouched(v, 8, Size(v) - 8) && PatternDark(v, 8, Size(v) - 8)
  {
  }

  // ----- where the format bits go -----

  /** The cells of the first copy, from bit 0: up the column beside the finder and round its corner. */
  const FIRST_COPY: seq<Cell> := [
    Cell(8, 0), Cell(8, 1), Cell(8, 2), Cell(8, 3), Cell(8, 4), Cell(8, 5), Cell(8, 7), Cell(8, 8),
    Cell(7, 8), Cell(5, 8), Cell(4, 8), Cell(3, 8), Cell(2, 8), Cell(1, 8), Cell(0, 8)]

  lemma FirstCopyFigure(i: nat, x: nat, y: nat)
    requires i < 15
    ensures FormatCell(i) == FIRST_COPY[i]
    ensures FirstIndex(x, y) == Some(i) <==> Cell(x, y) == FIRST_COPY[i]
  {
    assert i == 0 || i == 1 || i == 2 || i == 3 || i == 4 || i == 5 || i == 6 || i == 7
      || i == 8 || i == 9 || i == 10 || i == 11 || i == 12 || i == 13 || i == 14;
  }

  /** The second copy as the code places it: bits 0 to 7 up from the bottom, bits 8 to 14 to the right edge. */
  lemma SecondCopyFigure(size: nat, i: nat, x: nat, y: nat)
    requires size >= 21 && i < 15 && x < size && y < size
    ensures SecondIndex(size, x, y) == Some(i)
      <==> (if i < 8 then x == 8 && y == size - 1 - i else y == 8 && x == size - 15 + i)
  {
  }

  // ----- the path -----

  /** The path, step by step, for the sides a symbol has: from the bottom right corner, left and then diagonally
      within a pair of columns, up the first pair, down the next; at an edge one column to the left, over column 6. */
  lemma PathStep(size: nat, p: nat)
    requires OddSize(size) && size % 4 == 1 && p + 1 < PathLength(size)
    ensures CellAt(size, 0) == Cell(size - 1, size - 1)
    ensures var c, d := CellAt(size, p), CellAt(size, p + 1);
      var up := p / (2 * size) % 2 == 0;
      d == if p % 2 == 0 then Cell(c.x - 1, c.y)
        else if up && c.y > 0 then Cell(c.x + 1, c.y - 1)
        else if !up && c.y < size - 1 then Cell(c.x + 1, c.y + 1)
        else Cell(if c.x - 1 == 6 then c.x - 2 else c.x - 1, c.y)
  {
    hide *;
    PathStart(size);
    var c, vert, j := PathParts(size, p);
    PairParts(size, c, vert, j, p);
    CellAtPair(size, c, vert, j);
    PairDirection(size, c);
    if j == 0 {
      CellAtPair(size, c, vert, 1);
    } else if vert + 1 < size {
      CellAtPair(size, c, vert + 1, 0);
    } else {
      PairEnd(size, c, p);
      CellAtPair(size, c + 1, 0, 0);
      PairDirection(size, c + 1);
    }
  }

  lemma PathStart(size: nat)
    requires OddSize(size) && size % 4 == 1
    ensures CellAt(size, 0) == Cell(size - 1, size - 1)
  {
    PairDirection(size, 0);
    CellAtPair(size, 0, 0, 0);
    assert PairBase(size, 0) == 0;
    hide CellAt;
  }

  lemma PairParts(size: nat, c: nat, vert: nat, j: nat, p: nat)
    requires OddSize(size) && vert < size && j < 2 && p == 2 * size * c + 2 * vert + j
    ensures p == PairBase(size, c) + 2 * vert + j && p / (2 * size) == c && p % 2 == j
  {
    assert 2 * size * c == 2 * (size * c);
    DivMod(p, 2 * size, c, 2 * vert + j);
    DivMod(p, 2, size * c + vert, j);
  }

  /** At the end of a pair of columns that is not the last, the next pair begins. */
  lemma PairEnd(size: nat, c: nat, p: nat)
    requires OddSize(size) && c < (size - 1) / 2
    requires p == PairBase(size, c) + 2 * size - 1 && p + 1 < PathLength(size)
    ensures c + 1 < (size - 1) / 2 && p + 1 == PairBase(size, c + 1)
  {
    PairBases(size, c);
    hide PairBase, PathLength;
  }

  /** Pairs run up and down in turn; the columns of a pair lie next to each other and skip column 6. */
  lemma PairDirection(size: nat, c: nat)
    requires OddSize(size) && size % 4 == 1
    ensures var right, next := RightColumn(size, c), RightColumn(size, c + 1);
      && (c == 0 ==> right == size - 1)
      && next == (if right - 2 == 6 then right - 3 else right - 2)
      && forall vert :: RowAt(size, right, vert) == if c % 2 == 0 then size - 1 - vert else vert
  {
  }
}
