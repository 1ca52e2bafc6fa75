/** Which modules of each version carry function patterns, what those patterns show,
    and how many modules are left for data. */
module Layout {
  import opened Payload
  import opened Zigzag

  function Size(v: nat): nat {
    17 + 4 * v
  }

  /** Centre of the single alignment pattern, 0 for none. */
  function AlignCenter(v: nat): nat {
    if v == 2 then 18 else if v == 3 then 22 else if v == 4 then 26 else if v == 5 then 30 else 0
  }

  predicate InAlignment(v: nat, x: int, y: int) {
    AlignCenter(v) != 0 && Ring(AlignCenter(v), AlignCenter(v), x, y) <= 2
  }

  /** The timing row and column, three 9 x 9 corners (finder, separator, format area), one alignment pattern. */
  predicate IsFunction(v: nat, x: int, y: int) {
    var s := Size(v);
    || x == 6 || y == 6
    || (x <= 8 && y <= 8) || (x >= s - 8 && y <= 8) || (x <= 8 && y >= s - 8)
    || InAlignment(v, x, y)
  }

  function Max(a: int, b: int): int {
    if a > b then a else b
  }

  function Abs(a: int): int {
    if a < 0 then -a else a
  }

  /** Distance in king's moves. */
  function Ring(cx: int, cy: int, x: int, y: int): int {
    Max(Abs(x - cx), Abs(y - cy))
  }

  predicate InFinder(cx: int, cy: int, x: int, y: int) {
    Ring(cx, cy, x, y) <= 4
  }

  /** Finder: rings 2 and 4 light, the rest dark. */
  predicate FinderDark(cx: int, cy: int, x: int, y: int) {
    Ring(cx, cy, x, y) != 2 && Ring(cx, cy, x, y) != 4
  }

  /** What is drawn before any data: the dark module, alignment, finders, timing; light elsewhere. */
  predicate PatternDark(v: nat, x: int, y: int) {
    var s := Size(v);
    if x == 8 && y == s - 8 then true
    else if InAlignment(v, x, y) then Ring(AlignCenter(v), AlignCenter(v), x, y) != 1
    else FinderLayer(s, x, y, if y == 6 then x % 2 == 0 else x == 6 && y % 2 == 0)
  }

  /** The three finders with their separators, over what lies below. */
  predicate FinderLayer(s: int, x: int, y: int, below: bool) {
    if InFinder(3, s - 4, x, y) then FinderDark(3, s - 4, x, y)
    else if InFinder(s - 4, 3, x, y) then FinderDark(s - 4, 3, x, y)
    else if InFinder(3, 3, x, y) then FinderDark(3, 3, x, y)
    else below
  }

  /** The modules drawn before the format areas are reserved. */
  predicate IsPattern(v: nat, x: int, y: int) {
    var s := Size(v);
    || x == 6 || y == 6
    || InFinder(3, 3, x, y) || InFinder(s - 4, 3, x, y) || InFinder(3, s - 4, x, y)
    || InAlignment(v, x, y) || (x == 8 && y == s - 8)
  }

  /** What is drawn, pattern by pattern, covers with the format areas exactly the function region. */
  lemma FunctionUnion(v: nat, x: nat, y: nat)
    requires IsVersion(v) && x < Size(v) && y < Size(v)
    ensures var s := Size(v);
      IsFunction(v, x, y) <==>
        || IsPattern(v, x, y)
        || (x == 8 && (y <= 5 || y == 7 || y == 8 || y >= s - 7))
        || (y == 8 && (x <= 5 || x == 7 || x >= s - 8))
  {
  }

  function FunctionMask(v: nat): (g: Grid)
    ensures Square(g, Size(v))
    ensures forall x, y :: 0 <= x < Size(v) && 0 <= y < Size(v) ==> g[y][x] == IsFunction(v, x, y)
  {
    seq(Size(v), y => seq(Size(v), x => IsFunction(v, x, y)))
  }

  function PatternGrid(v: nat): (g: Grid)
    ensures Square(g, Size(v))
    ensures forall x, y :: 0 <= x < Size(v) && 0 <= y < Size(v) ==> g[y][x] == PatternDark(v, x, y)
  {
    seq(Size(v), y => seq(Size(v), x => PatternDark(v, x, y)))
  }

  /** The cells that carry codeword bits, in placement order. */
  function DataCells(v: nat): (r: seq<Cell>)
    requires IsVersion(v)
    ensures forall i :: 0 <= i < |r| ==> InGrid(r[i], Size(v)) && !IsFunction(v, r[i].x, r[i].y)
  {
    var r := FreeCells(FunctionMask(v), PathLength(Size(v)));
    assert forall i :: 0 <= i < |r| ==> !At(FunctionMask(v), r[i]);
    r
  }

  // ----- counting -----

  /** How many of the numbers lo, ..., lo + n - 1 lie below t. */
  function Below(t: int, lo: int, n: int): int {
    if t <= lo then 0 else if t - lo >= n then n else t - lo
  }

  /** Free modules of column x above row t. */
  function FreeAbove(v: nat, x: int, t: int): int {
    var s := Size(v);
    var aligned := if v >= 2 && s - 9 <= x <= s - 5 then Below(t, s - 9, 5) else 0;
    if x == 6 then 0
    else if x <= 8 then Below(t, 9, s - 17)
    else if x < s - 8 then Below(t, 0, 6) + Below(t, 7, s - 7) - aligned
    else Below(t, 9, s - 9) - aligned
  }

  lemma FreeAboveStep(v: nat, x: int, t: int)
    requires IsVersion(v) && 0 <= x < Size(v) && 0 <= t < Size(v)
    ensures FreeAbove(v, x, t + 1) == FreeAbove(v, x, t) + if IsFunction(v, x, t) then 0 else 1
  {
  }

  /** Free modules of column x among the first k rows in the direction of travel. */
  function FreeInRun(v: nat, right: int, x: int, k: int): int {
    if Upward(right) then FreeAbove(v, x, Size(v)) - FreeAbove(v, x, Size(v) - k) else FreeAbove(v, x, k)
  }

  lemma FreeInRunStep(v: nat, right: int, x: int, k: nat)
    requires IsVersion(v) && 0 <= x < Size(v) && k < Size(v)
    ensures FreeInRun(v, right, x, k + 1) == FreeInRun(v, right, x, k) + if IsFunction(v, x, RowAt(Size(v), right, k)) then 0 else 1
    ensures FreeInRun(v, right, x, 0) == 0
    ensures FreeInRun(v, right, x, Size(v)) == FreeAbove(v, x, Size(v))
  {
    assert FreeAbove(v, x, 0) == 0;
    hide FreeAbove, IsFunction;
    FreeAboveStep(v, x, RowAt(Size(v), right, k));
  }

  /** Free modules in the first c pairs of columns. */
  function FreeInPairs(v: nat, c: nat): int {
    if c == 0 then 0
    else
      var right := RightColumn(Size(v), c - 1);
      FreeInPairs(v, c - 1) + FreeAbove(v, right, Size(v)) + FreeAbove(v, right - 1, Size(v))
  }

  /** Free cells among the first p of the path. */
  ghost function FreeCount(v: nat, p: int): nat
    requires IsVersion(v) && 0 <= p <= PathLength(Size(v))
  {
    |FreeCells(FunctionMask(v), p)|
  }

  lemma PairStarts(v: nat, c: nat)
    requires IsVersion(v) && c < (Size(v) - 1) / 2
    ensures 0 <= PairBase(Size(v), c) && PairBase(Size(v), c) + 2 * Size(v) == PairBase(Size(v), c + 1) <= PathLength(Size(v))
    ensures PairBase(Size(v), 0) == 0
  {
    PairBases(Size(v), c);
  }

  lemma FreeCountStep(v: nat, c: nat, k: nat, j: nat)
    requires IsVersion(v) && c < (Size(v) - 1) / 2 && k < Size(v) && j < 2
    ensures 0 <= PairBase(Size(v), c) && PairBase(Size(v), c) + 2 * k + j < PathLength(Size(v))
    ensures var right, p := RightColumn(Size(v), c), PairBase(Size(v), c) + 2 * k + j;
      FreeCount(v, p + 1) == FreeCount(v, p) + if IsFunction(v, right - j, RowAt(Size(v), right, k)) then 0 else 1
  {
    hide CellAt, VisitOf, IsFunction;
    CellAtPair(Size(v), c, k, j);
    VisitOfCellAt(Size(v), PairBase(Size(v), c) + 2 * k + j);
  }

  /** Free cells in the first k rows of pair c. */
  ghost predicate RunCounted(v: nat, c: nat, k: nat)
    requires IsVersion(v) && c < (Size(v) - 1) / 2 && k <= Size(v)
  {
    PairStarts(v, c);
    var right, p := RightColumn(Size(v), c), PairBase(Size(v), c);
    FreeCount(v, p + 2 * k) == FreeCount(v, p) + FreeInRun(v, right, right, k) + FreeInRun(v, right, right - 1, k)
  }

  lemma RunCountedStep(v: nat, c: nat, k: nat)
    requires IsVersion(v) && c < (Size(v) - 1) / 2 && k < Size(v)
    ensures RunCounted(v, c, 0)
    ensures RunCounted(v, c, k) ==> RunCounted(v, c, k + 1)
  {
    hide FreeCount, FreeInRun, PairBase, PathLength, IsFunction, FreeAbove, RowAt;
    var right := RightColumn(Size(v), c);
    assert 1 <= right < Size(v);
    hide RightColumn;
    TwoSteps(v, c, k);
    FreeInRunStep(v, right, right, k);
    FreeInRunStep(v, right, right - 1, k);
  }

  lemma {:induction false} RunCount(v: nat, c: nat, k: nat)
    requires IsVersion(v) && c < (Size(v) - 1) / 2 && k <= Size(v)
    ensures RunCounted(v, c, k)
  {
    hide *;
    if k > 0 {
      RunCount(v, c, k - 1);
      RunCountedStep(v, c, k - 1);
    } else {
      RunCountedStep(v, c, 0);
    }
  }

  lemma TwoSteps(v: nat, c: nat, k: nat)
    requires IsVersion(v) && c < (Size(v) - 1) / 2 && k < Size(v)
    ensures 0 <= PairBase(Size(v), c) && PairBase(Size(v), c) + 2 * k + 1 < PathLength(Size(v))
    ensures var right, p := RightColumn(Size(v), c), PairBase(Size(v), c) + 2 * k;
      var y := RowAt(Size(v), right, k);
      FreeCount(v, p + 2) == FreeCount(v, p) + (if IsFunction(v, right, y) then 0 else 1) + if IsFunction(v, right - 1, y) then 0 else 1
  {
    hide *;
    FreeCountStep(v, c, k, 0);
    FreeCountStep(v, c, k, 1);
  }

  lemma FreeInPairsStep(v: nat, c: nat)
    requires IsVersion(v) && c < (Size(v) - 1) / 2
    ensures var right := RightColumn(Size(v), c);
      1 <= right < Size(v)
      && FreeInPairs(v, c + 1) == FreeInPairs(v, c) + FreeAbove(v, right, Size(v)) + FreeAbove(v, right - 1, Size(v))
    ensures FreeInPairs(v, 0) == 0 && FreeCount(v, 0) == 0
  {
    hide FreeAbove;
  }

  lemma {:induction false} FreeCountInPairs(v: nat, c: nat)
    requires IsVersion(v) && c < (Size(v) - 1) / 2
    ensures 0 <= PairBase(Size(v), c + 1) <= PathLength(Size(v))
    ensures FreeCount(v, PairBase(Size(v), c + 1)) == FreeInPairs(v, c + 1)
  {
    hide FreeCount, FreeInRun, PairBase, PathLength, IsFunction, FreeAbove, RightColumn, RowAt, FreeInPairs;
    var s, right := Size(v), RightColumn(Size(v), c);
    FreeInPairsStep(v, c);
    PairStarts(v, c);
    if c > 0 {
      FreeCountInPairs(v, c - 1);
    }
    RunCount(v, c, s);
    FreeInRunStep(v, right, right, 0);
    FreeInRunStep(v, right, right - 1, 0);
  }

  /** Pairs 4, ..., 3 + 2v lie between the finder patterns. */
  lemma MiddlePair(v: nat, c: nat)
    requires IsVersion(v) && 5 < c <= 4 + 2 * v
    ensures FreeInPairs(v, c) == FreeInPairs(v, c - 1) + 2 * (Size(v) - 1)
  {
    var s, right := Size(v), RightColumn(Size(v), c - 1);
    assert right == s + 1 - 2 * c && 10 <= right <= s - 11;
    assert FreeAbove(v, right, s) == s - 1 && FreeAbove(v, right - 1, s) == s - 1;
    hide FreeAbove;
  }

  lemma {:induction false} MiddlePairs(v: nat, c: nat, w: int)
    requires IsVersion(v) && 5 <= c <= 4 + 2 * v && w == 2 * (Size(v) - 1)
    ensures FreeInPairs(v, c) == FreeInPairs(v, 5) + (c - 5) * w
  {
    hide *;
    if c > 5 {
      MiddlePairs(v, c - 1, w);
      MiddlePair(v, c);
      assert (c - 5) * w == (c - 6) * w + w;
    }
  }

  lemma LastPairs(v: nat)
    requires IsVersion(v)
    ensures FreeInPairs(v, 8 + 2 * v) == FreeInPairs(v, 4 + 2 * v) + 8 * (Size(v) - 17)
  {
    hide *;
    var n := 4 + 2 * v;
    LastPair(v, n);
    LastPair(v, n + 1);
    LastPair(v, n + 2);
    LastPair(v, n + 3);
  }

  lemma LastPair(v: nat, c: nat)
    requires IsVersion(v) && 4 + 2 * v <= c < 8 + 2 * v
    ensures FreeInPairs(v, c + 1) == FreeInPairs(v, c) + 2 * (Size(v) - 17)
  {
    var s, right := Size(v), RightColumn(Size(v), c);
    assert FreeAbove(v, right, s) == s - 17 && FreeAbove(v, right - 1, s) == s - 17;
    hide FreeAbove;
  }

  lemma FirstPairs(v: nat)
    requires IsVersion(v)
    ensures FreeInPairs(v, 5) == 8 * (Size(v) - 9) + 2 * (Size(v) - 1) - if v >= 2 then 25 else 0
  {
    assert FreeInPairs(v, 1) == 2 * (Size(v) - 9);
    assert FreeInPairs(v, 2) == 4 * (Size(v) - 9);
    assert FreeInPairs(v, 3) == 6 * (Size(v) - 9) - if v >= 2 then 10 else 0;
    assert FreeInPairs(v, 4) == 8 * (Size(v) - 9) - if v >= 2 then 20 else 0;
  }

  lemma PathEnd(v: nat)
    requires IsVersion(v)
    ensures PathLength(Size(v)) == PairBase(Size(v), 8 + 2 * v) && 8 + 2 * v == (Size(v) - 1) / 2
    ensures |DataCells(v)| == FreeCount(v, PathLength(Size(v)))
  {
    hide FreeCells, FunctionMask;
  }

  /** The data modules of each version: all codewords fit, with at most 7 bits to spare. */
  lemma DataCellCount(v: nat)
    requires IsVersion(v)
    ensures |DataCells(v)| == 8 * (DataCodewords(v) + EcCodewords(v)) + if v == 1 then 0 else 7
  {
    hide FreeInPairs, FreeCount, DataCells, PathLength, PairBase;
    PathEnd(v);
    FreeCountInPairs(v, 7 + 2 * v);
    FirstPairs(v);
    LastPairs(v);
    MiddlePairs(v, 4 + 2 * v, 2 * (Size(v) - 1));
    assert v == 1 || v == 2 || v == 3 || v == 4 || v == 5;
  }
}
