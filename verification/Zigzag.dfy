/** The path along which codeword bits are laid into a square grid, and what it visits. */
module Zigzag {
  import opened Arithmetic

  /** Rows of modules, as the source indexes them: grid[y][x]. */
  type Grid = seq<seq<bool>>

  datatype Cell = Cell(x: int, y: int)

  ghost predicate Square(g: Grid, n: nat) {
    |g| == n && forall y :: 0 <= y < n ==> |g[y]| == n
  }

  ghost predicate InGrid(c: Cell, n: nat) {
    0 <= c.x < n && 0 <= c.y < n
  }

  /** The sizes the path is meant for. */
  predicate OddSize(size: nat) {
    size >= 7 && size % 2 == 1
  }

  /** The right-hand column of pair c; column 6 is stepped over. */
  function RightColumn(size: int, c: int): int {
    if size - 1 - 2 * c <= 6 then size - 2 - 2 * c else size - 1 - 2 * c
  }

  predicate Upward(right: int) {
    (right + 1) / 2 % 2 == 0
  }

  function RowAt(size: int, right: int, vert: int): int {
    if Upward(right) then size - 1 - vert else vert
  }

  function PathLength(size: nat): nat
    requires OddSize(size)
  {
    2 * size * ((size - 1) / 2)
  }

  /** The p-th cell of the path: pairs of columns from the right, rows up or down, right cell first. */
  function CellAt(size: nat, p: nat): Cell
    requires OddSize(size)
  {
    var right, r := RightColumn(size, p / (2 * size)), p % (2 * size);
    Cell(right - r % 2, RowAt(size, right, r / 2))
  }

  /** When the path reaches a cell: the pair of columns, then the row, then the column in the pair. */
  function VisitOf(size: nat, cell: Cell): int
    requires OddSize(size)
  {
    var k := if cell.x > 6 then size - 1 - cell.x else size - 2 - cell.x;
    2 * size * (k / 2) + 2 * RowAt(size, RightColumn(size, k / 2), cell.y) + k % 2
  }

  /** Position 2 * size * c + 2 * vert + j of the path. */
  lemma CellAtParts(size: nat, c: nat, vert: nat, j: nat)
    requires OddSize(size) && vert < size && j < 2
    ensures 2 * size * c >= 0
    ensures CellAt(size, 2 * size * c + 2 * vert + j) == Cell(RightColumn(size, c) - j, RowAt(size, RightColumn(size, c), vert))
  {
    MulOrder(2 * size, 0, c);
    DivMod(2 * size * c + (2 * vert + j), 2 * size, c, 2 * vert + j);
    assert 2 * size * c + (2 * vert + j) == 2 * size * c + 2 * vert + j;
    hide RightColumn, RowAt;
    assert (2 * vert + j) / 2 == vert && (2 * vert + j) % 2 == j;
  }

  lemma PathSplit(m: int, k: int, p: int)
    requires m > 0 && 0 <= p < m * k
    ensures p == m * (p / m) + p % m && 0 <= p / m < k && 0 <= p % m < m
  {
    DivLess(p, m, k);
  }

  lemma PathParts(size: nat, p: nat) returns (c: nat, vert: nat, j: nat)
    requires OddSize(size) && p < PathLength(size)
    ensures vert < size && j < 2 && c < (size - 1) / 2 && p == 2 * size * c + 2 * vert + j
  {
    PathSplit(2 * size, (size - 1) / 2, p);
    var r: int;
    c, r := p / (2 * size), p % (2 * size);
    vert, j := r / 2, r % 2;
  }

  /** No cell is visited twice: the visit time can be read off the cell. */
  lemma VisitOfCellAt(size: nat, p: nat)
    requires OddSize(size) && p < PathLength(size)
    ensures VisitOf(size, CellAt(size, p)) == p
    ensures InGrid(CellAt(size, p), size) && CellAt(size, p).x != 6
  {
    hide PathLength;
    var c, vert, j := PathParts(size, p);
    CellAtParts(size, c, vert, j);
    hide CellAt;
    var x := RightColumn(size, c) - j;
    var k := if x > 6 then size - 1 - x else size - 2 - x;
    assert k == 2 * c + j;
    assert k / 2 == c && k % 2 == j;
  }

  /** Every cell outside column 6 is visited. */
  lemma CellAtVisitOf(size: nat, cell: Cell)
    requires OddSize(size) && InGrid(cell, size) && cell.x != 6
    ensures 0 <= VisitOf(size, cell) < PathLength(size)
    ensures CellAt(size, VisitOf(size, cell)) == cell
  {
    hide CellAt;
    var k := if cell.x > 6 then size - 1 - cell.x else size - 2 - cell.x;
    var c, j := k / 2, k % 2;
    var right := RightColumn(size, c);
    assert right - j == cell.x && 0 <= c < (size - 1) / 2;
    var vert := RowAt(size, right, cell.y);
    assert 0 <= vert < size && RowAt(size, right, vert) == cell.y;
    hide RightColumn, RowAt;
    CellAtParts(size, c, vert, j);
    PathBound(2 * size, c, (size - 1) / 2, 2 * vert + j);
  }

  lemma PathBound(m: int, c: int, k: int, r: int)
    requires 0 <= c < k && 0 <= r < m
    ensures 0 <= m * c + r < m * k
  {
    MulOrder(m, 0, c);
    MulOrder(m, c + 1, k);
    assert m * (c + 1) == m * c + m;
  }

  // ----- the free cells, in path order -----

  function At(g: Grid, c: Cell): bool
    requires InGrid(c, |g|) && |g[c.y]| == |g|
  {
    g[c.y][c.x]
  }

  /** The non-function cells among the first p of the path. */
  function FreeCells(mask: Grid, p: nat): (r: seq<Cell>)
    requires OddSize(|mask|) && Square(mask, |mask|) && p <= PathLength(|mask|)
    ensures |r| <= p
    ensures forall i :: 0 <= i < |r| ==> InGrid(r[i], |mask|) && !At(mask, r[i])
  {
    if p == 0 then []
    else
      VisitOfCellAt(|mask|, p - 1);
      FreeCells(mask, p - 1) + if At(mask, CellAt(|mask|, p - 1)) then [] else [CellAt(|mask|, p - 1)]
  }

  lemma {:induction false} FreeCellsVisited(mask: Grid, p: nat, i: nat)
    requires OddSize(|mask|) && Square(mask, |mask|) && p <= PathLength(|mask|) && i < |FreeCells(mask, p)|
    ensures 0 <= VisitOf(|mask|, FreeCells(mask, p)[i]) < p
  {
    VisitOfCellAt(|mask|, p - 1);
    hide VisitOf, CellAt;
    if i < |FreeCells(mask, p - 1)| {
      FreeCellsVisited(mask, p - 1, i);
    }
  }

  /** No free cell is listed twice. */
  lemma {:induction false} FreeCellsDistinct(mask: Grid, p: nat, i: nat, j: nat)
    requires OddSize(|mask|) && Square(mask, |mask|) && p <= PathLength(|mask|) && i < j < |FreeCells(mask, p)|
    ensures FreeCells(mask, p)[i] != FreeCells(mask, p)[j]
  {
    VisitOfCellAt(|mask|, p - 1);
    hide VisitOf, CellAt;
    if j < |FreeCells(mask, p - 1)| {
      FreeCellsDistinct(mask, p - 1, i, j);
    } else {
      FreeCellsVisited(mask, p - 1, i);
    }
  }

  /** Every free cell outside column 6 is listed. */
  lemma {:induction false} FreeCellsComplete(mask: Grid, p: nat, cell: Cell) returns (i: nat)
    requires OddSize(|mask|) && Square(mask, |mask|) && p <= PathLength(|mask|)
    requires InGrid(cell, |mask|) && !At(mask, cell) && cell.x != 6
    requires VisitOf(|mask|, cell) < p
    ensures i < |FreeCells(mask, p)| && FreeCells(mask, p)[i] == cell
    decreases p
  {
    CellAtVisitOf(|mask|, cell);
    hide VisitOf, CellAt;
    if VisitOf(|mask|, cell) < p - 1 {
      i := FreeCellsComplete(mask, p - 1, cell);
    } else {
      i := |FreeCells(mask, p - 1)|;
    }
  }

  /** With column 6 covered by function modules, the path lists each free cell exactly once. */
  lemma EveryFreeCellOnce(mask: Grid, cell: Cell)
    requires OddSize(|mask|) && Square(mask, |mask|) && InGrid(cell, |mask|)
    requires forall y :: 0 <= y < |mask| ==> mask[y][6]
    ensures var free := FreeCells(mask, PathLength(|mask|));
      !At(mask, cell) <==> exists i :: 0 <= i < |free| && free[i] == cell && forall j :: 0 <= j < |free| && free[j] == cell ==> j == i
  {
    hide VisitOf, CellAt, PathLength;
    var free := FreeCells(mask, PathLength(|mask|));
    if !At(mask, cell) {
      CellAtVisitOf(|mask|, cell);
      var i := FreeCellsComplete(mask, PathLength(|mask|), cell);
      forall j | 0 <= j < |free| && free[j] == cell
        ensures j == i
      {
        if i < j { FreeCellsDistinct(mask, PathLength(|mask|), i, j); }
        if j < i { FreeCellsDistinct(mask, PathLength(|mask|), j, i); }
      }
    }
  }

  // ----- writing and reading along a list of cells -----

  function Write(g: Grid, c: Cell, b: bool): (r: Grid)
    requires Square(g, |g|) && InGrid(c, |g|)
    ensures Square(r, |g|) && At(r, c) == b
    ensures forall d :: InGrid(d, |g|) && d != c ==> At(r, d) == At(g, d)
  {
    g[c.y := g[c.y][c.x := b]]
  }

  ghost predicate AllInGrid(cells: seq<Cell>, n: nat) {
    forall i :: 0 <= i < |cells| ==> InGrid(cells[i], n)
  }

  ghost function WriteAll(g: Grid, cells: seq<Cell>, bits: seq<bool>): (r: Grid)
    requires Square(g, |g|) && |cells| == |bits| && AllInGrid(cells, |g|)
    ensures Square(r, |g|)
  {
    if cells == [] then g
    else
      var n := |cells| - 1;
      Write(WriteAll(g, cells[..n], bits[..n]), cells[n], bits[n])
  }

  function ReadAll(g: Grid, cells: seq<Cell>): (r: seq<bool>)
    requires Square(g, |g|) && AllInGrid(cells, |g|)
    ensures |r| == |cells|
  {
    seq(|cells|, i requires 0 <= i < |cells| => At(g, cells[i]))
  }

  lemma {:induction false} WriteAllElsewhere(g: Grid, cells: seq<Cell>, bits: seq<bool>, c: Cell)
    requires Square(g, |g|) && |cells| == |bits| && AllInGrid(cells, |g|)
    requires InGrid(c, |g|) && c !in cells
    ensures At(WriteAll(g, cells, bits), c) == At(g, c)
    decreases |cells|
  {
    if cells != [] {
      var n := |cells| - 1;
      WriteAllElsewhere(g, cells[..n], bits[..n], c);
    }
  }

  lemma {:induction false} WriteAllAt(g: Grid, cells: seq<Cell>, bits: seq<bool>, i: nat)
    requires Square(g, |g|) && |cells| == |bits| && AllInGrid(cells, |g|)
    requires i < |cells| && forall j, k :: 0 <= j < k < |cells| ==> cells[j] != cells[k]
    ensures At(WriteAll(g, cells, bits), cells[i]) == bits[i]
    decreases |cells|
  {
    var n := |cells| - 1;
    if i < n {
      WriteAllAt(g, cells[..n], bits[..n], i);
    }
  }

  lemma IsWrite(g: Grid, h: Grid, c: Cell, b: bool)
    requires Square(g, |g|) && Square(h, |g|) && InGrid(c, |g|) && h[c.y][c.x] == b
    requires forall x, y :: 0 <= x < |g| && 0 <= y < |g| && !(x == c.x && y == c.y) ==> h[y][x] == g[y][x]
    ensures h == Write(g, c, b)
  {
    var w := Write(g, c, b);
    forall y | 0 <= y < |g|
      ensures h[y] == w[y]
    {
    }
  }

  // ----- placing a bit stream -----

  function Least(a: nat, b: nat): nat {
    if a < b then a else b
  }

  /** The grid after the first p cells of the path: each free cell has taken the next bit, while bits last. */
  ghost function PlacedTo(g: Grid, mask: Grid, bits: seq<bool>, p: nat): (r: Grid)
    requires Square(g, |g|) && Square(mask, |g|) && OddSize(|g|) && p <= PathLength(|g|)
    ensures Square(r, |g|)
  {
    FillFree(g, FreeCells(mask, p), bits)
  }

  /** Cell after cell takes bit after bit until either runs out. */
  ghost function FillFree(g: Grid, cells: seq<Cell>, bits: seq<bool>): (r: Grid)
    requires Square(g, |g|) && AllInGrid(cells, |g|)
    ensures Square(r, |g|)
  {
    var n := Least(|cells|, |bits|);
    WriteAll(g, cells[..n], bits[..n])
  }

  ghost function Placed(g: Grid, mask: Grid, bits: seq<bool>): (r: Grid)
    requires Square(g, |g|) && Square(mask, |g|) && OddSize(|g|)
    ensures Square(r, |g|)
  {
    PlacedTo(g, mask, bits, PathLength(|g|))
  }

  lemma PlacedStep(g: Grid, mask: Grid, bits: seq<bool>, p: nat)
    requires Square(g, |g|) && Square(mask, |g|) && OddSize(|g|) && p < PathLength(|g|)
    ensures var c, n := CellAt(|g|, p), Least(|FreeCells(mask, p)|, |bits|);
      InGrid(c, |g|)
      && PlacedTo(g, mask, bits, p + 1)
      == (if At(mask, c) || n >= |bits| then PlacedTo(g, mask, bits, p) else Write(PlacedTo(g, mask, bits, p), c, bits[n]))
    ensures Least(|FreeCells(mask, p + 1)|, |bits|)
      == Least(|FreeCells(mask, p)|, |bits|) + if At(mask, CellAt(|g|, p)) || |FreeCells(mask, p)| >= |bits| then 0 else 1
  {
    hide CellAt, Write, PathLength, FreeCells, FillFree, VisitOf, OddSize, At;
    FreeCellsSnoc(mask, p);
    if !At(mask, CellAt(|g|, p)) {
      FillFreeSnoc(g, FreeCells(mask, p), bits, CellAt(|g|, p));
    } else {
      assert FreeCells(mask, p) + [] == FreeCells(mask, p);
    }
  }

  lemma FillFreeSnoc(g: Grid, cells: seq<Cell>, bits: seq<bool>, c: Cell)
    requires Square(g, |g|) && AllInGrid(cells, |g|) && InGrid(c, |g|)
    ensures FillFree(g, cells + [c], bits)
      == if |cells| >= |bits| then FillFree(g, cells, bits) else Write(FillFree(g, cells, bits), c, bits[|cells|])
  {
    hide Write, WriteAll;
    var n := |cells|;
    if n >= |bits| {
      assert (cells + [c])[..|bits|] == cells[..|bits|];
    } else {
      assert (cells + [c])[..n + 1] == cells[..n] + [c] && bits[..n + 1] == bits[..n] + [bits[n]];
      WriteAllSnoc(g, cells[..n], bits[..n], c, bits[n]);
    }
  }

  lemma FreeCellsSnoc(mask: Grid, p: nat)
    requires Square(mask, |mask|) && OddSize(|mask|) && p < PathLength(|mask|)
    ensures var c := CellAt(|mask|, p);
      InGrid(c, |mask|) && FreeCells(mask, p + 1) == FreeCells(mask, p) + if At(mask, c) then [] else [c]
  {
    hide CellAt, VisitOf, PathLength;
    VisitOfCellAt(|mask|, p);
  }

  lemma WriteAllSnoc(g: Grid, cells: seq<Cell>, bits: seq<bool>, c: Cell, b: bool)
    requires Square(g, |g|) && |cells| == |bits| && AllInGrid(cells, |g|) && InGrid(c, |g|)
    ensures WriteAll(g, cells + [c], bits + [b]) == Write(WriteAll(g, cells, bits), c, b)
  {
    hide Write;
    var n := |cells|;
    assert (cells + [c])[..n] == cells && (bits + [b])[..n] == bits;
  }

  /** Where pair c of columns starts on the path. */
  function PairBase(size: nat, c: nat): int {
    2 * size * c
  }

  lemma PairBases(size: nat, c: nat)
    requires OddSize(size)
    ensures c < (size - 1) / 2 ==> 0 <= PairBase(size, c) && PairBase(size, c) + 2 * size == PairBase(size, c + 1) <= PathLength(size)
    ensures c + 1 == (size - 1) / 2 ==> PairBase(size, c + 1) == PathLength(size)
    ensures 0 == PairBase(size, 0) <= PathLength(size)
  {
    MulOrder(2 * size, 0, c);
    MulOrder(2 * size, c + 1, (size - 1) / 2);
    MulOrder(2 * size, 0, (size - 1) / 2);
    assert 2 * size * (c + 1) == 2 * size * c + 2 * size;
  }

  lemma CellAtPair(size: nat, c: nat, vert: nat, j: nat)
    requires OddSize(size) && c < (size - 1) / 2 && vert < size && j < 2
    ensures 0 <= PairBase(size, c) + 2 * vert + j < PathLength(size)
    ensures CellAt(size, PairBase(size, c) + 2 * vert + j) == Cell(RightColumn(size, c) - j, RowAt(size, RightColumn(size, c), vert))
    ensures InGrid(CellAt(size, PairBase(size, c) + 2 * vert + j), size)
  {
    PairBases(size, c);
    CellAtParts(size, c, vert, j);
    PairInGrid(size, c, vert, j);
  }

  lemma PairInGrid(size: nat, c: nat, vert: nat, j: nat)
    requires OddSize(size) && c < (size - 1) / 2 && vert < size && j < 2
    ensures InGrid(Cell(RightColumn(size, c) - j, RowAt(size, RightColumn(size, c), vert)), size)
  {
    hide Upward;
  }

  lemma PlacedStart(g: Grid, mask: Grid, bits: seq<bool>)
    requires Square(g, |g|) && Square(mask, |g|) && OddSize(|g|)
    ensures 0 <= PathLength(|g|)
    ensures PlacedTo(g, mask, bits, 0) == g && FreeCells(mask, 0) == []
  {
  }

  /** When the bits run out, the cells that are left keep what they had. */
  lemma PlacedLeavesRest(g: Grid, mask: Grid, bits: seq<bool>, i: nat)
    requires Square(g, |g|) && Square(mask, |g|) && OddSize(|g|)
    requires |bits| <= i < |FreeCells(mask, PathLength(|g|))|
    ensures At(Placed(g, mask, bits), FreeCells(mask, PathLength(|g|))[i]) == At(g, FreeCells(mask, PathLength(|g|))[i])
  {
    hide PathLength;
    var p := PathLength(|g|);
    var free := FreeCells(mask, p);
    assert bits[..|bits|] == bits;
    forall j | 0 <= j < |bits|
      ensures free[..|bits|][j] != free[i]
    {
      FreeCellsDistinct(mask, p, j, i);
    }
    WriteAllElsewhere(g, free[..|bits|], bits, free[i]);
  }

  /** What is laid along the path is read back along it, and no function module changes. */
  lemma PlacedReadsBack(g: Grid, mask: Grid, bits: seq<bool>)
    requires Square(g, |g|) && Square(mask, |g|) && OddSize(|g|)
    requires |bits| <= |FreeCells(mask, PathLength(|g|))|
    ensures ReadAll(Placed(g, mask, bits), FreeCells(mask, PathLength(|g|))[..|bits|]) == bits
    ensures forall c :: InGrid(c, |g|) && At(mask, c) ==> At(Placed(g, mask, bits), c) == At(g, c)
  {
    hide PathLength;
    var p := PathLength(|g|);
    var cells := FreeCells(mask, p)[..|bits|];
    assert bits[..|bits|] == bits;
    forall i, j | 0 <= i < j < |cells|
      ensures cells[i] != cells[j]
    {
      FreeCellsDistinct(mask, p, i, j);
    }
    forall i | 0 <= i < |bits|
      ensures At(Placed(g, mask, bits), cells[i]) == bits[i]
    {
      WriteAllAt(g, cells, bits, i);
    }
    forall c | InGrid(c, |g|) && At(mask, c)
      ensures At(Placed(g, mask, bits), c) == At(g, c)
    {
      WriteAllElsewhere(g, cells, bits, c);
    }
  }
}
