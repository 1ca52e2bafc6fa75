/** The penalty by which the encoder ranks masks: runs, blocks, finder look-alikes, balance. */
module Penalty {
  import opened Arithmetic
  import opened Zigzag
  import opened Layout

  // ----- rule 1: runs -----

  /** Length of the run of equal modules that ends the line. */
  function TrailingRun(line: seq<bool>): (r: nat)
    ensures r <= |line| && (line != [] ==> r > 0)
  {
    if |line| <= 1 then |line|
    else if line[|line| - 1] == line[|line| - 2] then TrailingRun(line[..|line| - 1]) + 1
    else 1
  }

  /** A module scores 3 when it completes five in a row, and 1 when it makes such a run longer. */
  function LineScore(line: seq<bool>): (r: nat)
    ensures r <= 3 * |line|
  {
    if line == [] then 0
    else
      LineScore(line[..|line| - 1]) + (var n := TrailingRun(line); if n == 5 then 3 else if n > 5 then 1 else 0)
  }

  function RunPenalty(run: int): int {
    if run >= 5 then 3 + (run - 5) else 0
  }

  function Column(g: Grid, x: nat): (r: seq<bool>)
    requires Square(g, |g|) && x < |g|
    ensures |r| == |g|
  {
    seq(|g|, y requires 0 <= y < |g| => g[y][x])
  }

  function RowScores(g: Grid, n: nat): (r: nat)
    requires Square(g, |g|) && n <= |g|
    ensures r <= n * (3 * |g|)
  {
    if n == 0 then 0 else RowScores(g, n - 1) + LineScore(g[n - 1])
  }

  function ColumnScores(g: Grid, n: nat): (r: nat)
    requires Square(g, |g|) && n <= |g|
    ensures r <= n * (3 * |g|)
  {
    if n == 0 then 0 else ColumnScores(g, n - 1) + LineScore(Column(g, n - 1))
  }

  // ----- rule 2: 2 x 2 blocks -----

  predicate IsBlock(g: Grid, x: nat, y: nat)
    requires Square(g, |g|) && x + 1 < |g| && y + 1 < |g|
  {
    g[y][x] == g[y][x + 1] && g[y][x] == g[y + 1][x] && g[y][x] == g[y + 1][x + 1]
  }

  function BlocksInRow(g: Grid, y: nat, n: nat): (r: nat)
    requires Square(g, |g|) && y + 1 < |g| && n < |g|
    ensures r <= n
  {
    if n == 0 then 0 else BlocksInRow(g, y, n - 1) + if IsBlock(g, n - 1, y) then 1 else 0
  }

  function Blocks(g: Grid, n: nat): (r: nat)
    requires Square(g, |g|) && n < |g|
    ensures r <= n * |g|
  {
    if n == 0 then 0 else Blocks(g, n - 1) + BlocksInRow(g, n - 1, |g| - 1)
  }

  // ----- rule 3: finder-like sequences -----

  const FINDER: seq<bool> := [true, false, true, true, true, false, true, false, false, false, false]

  ghost predicate FinderLike(g: Grid, x: int, y: int, dx: int, dy: int)
    requires Square(g, |g|)
  {
    forall i :: 0 <= i < 11 ==> FinderAgrees(g, x, y, dx, dy, i)
  }

  predicate FinderAgrees(g: Grid, x: int, y: int, dx: int, dy: int, i: nat)
    requires Square(g, |g|) && i < 11
  {
    var c := Cell(x + dx * i, y + dy * i);
    0 <= c.x < |g| && 0 <= c.y < |g| && g[c.y][c.x] == FINDER[i]
  }

  /** Across and down from one module. */
  ghost function FindersAt(g: Grid, x: int, y: int): (r: nat)
    requires Square(g, |g|)
    ensures r <= 2
  {
    (if FinderLike(g, x, y, 1, 0) then 1 else 0) + if FinderLike(g, x, y, 0, 1) then 1 else 0
  }

  ghost function FindersInRow(g: Grid, y: int, n: nat): (r: nat)
    requires Square(g, |g|)
    ensures r <= 2 * n
  {
    if n == 0 then 0 else FindersInRow(g, y, n - 1) + FindersAt(g, n - 1, y)
  }

  ghost function Finders(g: Grid, n: nat): (r: nat)
    requires Square(g, |g|) && n <= |g|
    ensures r <= n * (2 * |g|)
  {
    if n == 0 then 0 else Finders(g, n - 1) + FindersInRow(g, n - 1, |g|)
  }

  // ----- rule 4: balance -----

  function DarkInRow(row: seq<bool>, n: nat): (r: nat)
    requires n <= |row|
    ensures r <= n
  {
    if n == 0 then 0 else DarkInRow(row, n - 1) + if row[n - 1] then 1 else 0
  }

  function Dark(g: Grid, n: nat): (r: nat)
    requires Square(g, |g|) && n <= |g|
    ensures r <= n * |g|
  {
    if n == 0 then 0 else Dark(g, n - 1) + DarkInRow(g[n - 1], |g|)
  }

  /** Deviation from half dark in twentieths, rounded up. */
  function Imbalance(dark: nat, total: nat): (k: nat)
    requires 0 < total && dark <= total
    ensures k <= 10
  {
    ImbalanceBound(Abs(dark * 20 - total * 10), total);
    (Abs(dark * 20 - total * 10) + total - 1) / total
  }

  lemma ImbalanceIs(dark: nat, total: nat)
    requires 0 < total && dark <= total
    ensures Imbalance(dark, total) == (Abs(dark * 20 - total * 10) + total - 1) / total
  {
    hide Abs;
  }

  lemma ImbalanceBound(a: nat, total: nat)
    requires 0 < total && a <= 10 * total
    ensures 0 <= (a + total - 1) / total <= 10
  {
    var q := (a + total - 1) / total;
    if q >= 11 {
      MulOrder(total, 11, q);
    }
    assert q >= 0;
  }

  ghost function Score(g: Grid): (p: nat)
    requires Square(g, |g|) && |g| > 0
  {
    var n := |g|;
    MulOrder(n, 1, n);
    RowScores(g, n) + ColumnScores(g, n) + 3 * Blocks(g, n - 1) + 40 * Finders(g, n) + 10 * Imbalance(Dark(g, n), n * n)
  }

  /** No grid of a size the encoder makes scores as much as the starting value of the search. */
  lemma ScoreBound(g: Grid)
    requires Square(g, |g|) && 0 < |g| <= 177
    ensures Score(g) < 4611686018427387904
  {
    var n := |g|;
    hide RowScores, ColumnScores, Blocks, Finders, Imbalance, Dark;
    MulOrder(n, n, 177);
    MulOrder(n, 1, n);
    assert n * (3 * n) == 3 * (n * n) && n * (2 * n) == 2 * (n * n);
    assert (n - 1) * n <= n * n;
  }

  // ----- what the score counts -----

  function Run(dark: bool, n: nat): (r: seq<bool>)
    ensures |r| == n && forall i :: 0 <= i < n ==> r[i] == dark
  {
    seq(n, i => dark)
  }

  lemma {:induction false} RunTail(line: seq<bool>, dark: bool, n: nat)
    requires n > 0 && (line == [] || line[|line| - 1] != dark)
    ensures TrailingRun(line + Run(dark, n)) == n
  {
    var whole := line + Run(dark, n);
    assert whole[..|whole| - 1] == line + Run(dark, n - 1);
    if n > 1 {
      RunTail(line, dark, n - 1);
    }
  }

  /** A run of n equal modules, begun after a module of the other colour, costs nothing up to 4 and n - 2 from 5 on. */
  lemma {:induction false} LongRun(line: seq<bool>, dark: bool, n: nat)
    requires line == [] || line[|line| - 1] != dark
    ensures LineScore(line + Run(dark, n)) == LineScore(line) + if n >= 5 then n - 2 else 0
  {
    var whole := line + Run(dark, n);
    if n == 0 {
      assert whole == line;
    } else {
      LongRun(line, dark, n - 1);
      RunTail(line, dark, n);
      assert whole[..|whole| - 1] == line + Run(dark, n - 1);
    }
  }

  /** The sequence the third rule looks for: a finder's middle row, then four light modules. */
  const FINDER_LINE: string := "#.###.#...."

  lemma FinderLine(i: nat)
    requires i < 11
    ensures FINDER[i] == (FINDER_LINE[i] == '#')
  {
    assert i == 0 || i == 1 || i == 2 || i == 3 || i == 4 || i == 5 || i == 6 || i == 7 || i == 8 || i == 9 || i == 10;
  }

  ghost predicate Spells(g: Grid, x: int, y: int, dx: int, dy: int, word: string)
    requires Square(g, |g|)
  {
    forall i :: 0 <= i < |word| ==> SpellsAt(g, x + dx * i, y + dy * i, word[i])
  }

  predicate SpellsAt(g: Grid, x: int, y: int, letter: char)
    requires Square(g, |g|)
  {
    0 <= x < |g| && 0 <= y < |g| && g[y][x] == (letter == '#')
  }

  lemma FinderLikeSpells(g: Grid, x: int, y: int, dx: int, dy: int)
    requires Square(g, |g|)
    ensures FinderLike(g, x, y, dx, dy) <==> Spells(g, x, y, dx, dy, FINDER_LINE)
  {
    forall i | 0 <= i < 11
      ensures FinderAgrees(g, x, y, dx, dy, i) <==> SpellsAt(g, x + dx * i, y + dy * i, FINDER_LINE[i])
    {
      FinderLine(i);
    }
  }

  /** Its mirror image, light modules first, does not count. */
  lemma MirrorNotFinder(g: Grid, x: int, y: int, dx: int, dy: int)
    requires Square(g, |g|) && Spells(g, x, y, dx, dy, "....#.###.#")
    ensures !FinderLike(g, x, y, dx, dy)
  {
    assert SpellsAt(g, x + dx * 0, y + dy * 0, "....#.###.#"[0]);
    assert !FinderAgrees(g, x, y, dx, dy, 0);
  }

  ghost function BlocksOfRow(g: Grid, y: nat, n: nat): set<Cell>
    requires Square(g, |g|) && y + 1 < |g| && n < |g|
  {
    set x | 0 <= x < n && IsBlock(g, x, y) :: Cell(x, y)
  }

  /** The upper left corners of the one-colour blocks among the first k rows. */
  ghost function BlockCorners(g: Grid, k: nat): set<Cell>
    requires Square(g, |g|) && k < |g|
  {
    set x, y | 0 <= x < |g| - 1 && 0 <= y < k && IsBlock(g, x, y) :: Cell(x, y)
  }

  lemma {:induction false} RowBlocksCount(g: Grid, y: nat, n: nat)
    requires Square(g, |g|) && y + 1 < |g| && n < |g|
    ensures |BlocksOfRow(g, y, n)| == BlocksInRow(g, y, n)
  {
    hide IsBlock;
    if n > 0 {
      RowBlocksCount(g, y, n - 1);
      assert BlocksOfRow(g, y, n) == BlocksOfRow(g, y, n - 1) + if IsBlock(g, n - 1, y) then {Cell(n - 1, y)} else {};
    }
  }

  lemma {:induction false} BlocksCount(g: Grid, k: nat)
    requires Square(g, |g|) && k < |g|
    ensures |BlockCorners(g, k)| == Blocks(g, k)
  {
    hide IsBlock;
    if k > 0 {
      BlocksCount(g, k - 1);
      RowBlocksCount(g, k - 1, |g| - 1);
      assert BlockCorners(g, k) == BlockCorners(g, k - 1) + BlocksOfRow(g, k - 1, |g| - 1);
    }
  }

  /** Where a finder-like sequence starts, and whether it runs down. */
  datatype Start = Start(x: int, y: int, down: bool)

  ghost predicate StartsFinder(g: Grid, s: Start)
    requires Square(g, |g|)
  {
    Spells(g, s.x, s.y, if s.down then 0 else 1, if s.down then 1 else 0, FINDER_LINE)
  }

  ghost function StartsAt(g: Grid, x: int, y: int): set<Start>
    requires Square(g, |g|)
  {
    set down: bool | StartsFinder(g, Start(x, y, down)) :: Start(x, y, down)
  }

  ghost function StartsOfRow(g: Grid, y: nat, n: nat): set<Start>
    requires Square(g, |g|)
  {
    set x, down: bool | 0 <= x < n && StartsFinder(g, Start(x, y, down)) :: Start(x, y, down)
  }

  ghost function FinderStarts(g: Grid, k: nat): set<Start>
    requires Square(g, |g|)
  {
    set x, y, down: bool | 0 <= x < |g| && 0 <= y < k && StartsFinder(g, Start(x, y, down)) :: Start(x, y, down)
  }

  lemma StartsAtCount(g: Grid, x: int, y: int)
    requires Square(g, |g|)
    ensures |StartsAt(g, x, y)| == FindersAt(g, x, y)
  {
    FinderLikeSpells(g, x, y, 1, 0);
    FinderLikeSpells(g, x, y, 0, 1);
    hide FinderLike, Spells;
    var across, down := Start(x, y, false), Start(x, y, true);
    assert StartsAt(g, x, y)
      == (if StartsFinder(g, across) then {across} else {}) + if StartsFinder(g, down) then {down} else {};
  }

  lemma {:induction false} RowStartsCount(g: Grid, y: nat, n: nat)
    requires Square(g, |g|)
    ensures |StartsOfRow(g, y, n)| == FindersInRow(g, y, n)
  {
    hide FindersAt, StartsFinder;
    if n > 0 {
      RowStartsCount(g, y, n - 1);
      StartsAtCount(g, n - 1, y);
      assert StartsOfRow(g, y, n) == StartsOfRow(g, y, n - 1) + StartsAt(g, n - 1, y);
      assert StartsOfRow(g, y, n - 1) !! StartsAt(g, n - 1, y);
    }
  }

  lemma {:induction false} FindersCount(g: Grid, k: nat)
    requires Square(g, |g|) && k <= |g|
    ensures |FinderStarts(g, k)| == Finders(g, k)
  {
    hide FindersInRow, StartsFinder;
    if k > 0 {
      FindersCount(g, k - 1);
      RowStartsCount(g, k - 1, |g|);
      assert FinderStarts(g, k) == FinderStarts(g, k - 1) + StartsOfRow(g, k - 1, |g|);
      assert FinderStarts(g, k - 1) !! StartsOfRow(g, k - 1, |g|);
    }
  }

  ghost function DarkOfRow(g: Grid, y: nat, n: nat): set<Cell>
    requires Square(g, |g|) && y < |g| && n <= |g|
  {
    set x | 0 <= x < n && g[y][x] :: Cell(x, y)
  }

  ghost function DarkModules(g: Grid, k: nat): set<Cell>
    requires Square(g, |g|) && k <= |g|
  {
    set x, y | 0 <= x < |g| && 0 <= y < k && g[y][x] :: Cell(x, y)
  }

  lemma {:induction false} RowDarkCount(g: Grid, y: nat, n: nat)
    requires Square(g, |g|) && y < |g| && n <= |g|
    ensures |DarkOfRow(g, y, n)| == DarkInRow(g[y], n)
  {
    if n > 0 {
      RowDarkCount(g, y, n - 1);
      assert DarkOfRow(g, y, n) == DarkOfRow(g, y, n - 1) + if g[y][n - 1] then {Cell(n - 1, y)} else {};
    }
  }

  lemma {:induction false} DarkIs(g: Grid, k: nat)
    requires Square(g, |g|) && k <= |g|
    ensures |DarkModules(g, k)| == Dark(g, k)
  {
    if k > 0 {
      DarkIs(g, k - 1);
      RowDarkCount(g, k - 1, |g|);
      assert DarkModules(g, k) == DarkModules(g, k - 1) + DarkOfRow(g, k - 1, |g|);
    }
  }

  /** The least number of steps of 5 percent, counted from half, that covers the dark modules. */
  lemma ImbalanceCovers(dark: nat, total: nat, k: nat)
    requires 0 < total && dark <= total
    ensures Imbalance(dark, total) <= k <==> -(k * total) <= 20 * dark - 10 * total <= k * total
  {
    var a := Abs(dark * 20 - total * 10);
    ImbalanceIs(dark, total);
    CeilingAtMost(a, total, k);
    hide Imbalance;
  }

  lemma CeilingAtMost(a: nat, total: nat, k: nat)
    requires total > 0
    ensures (a + total - 1) / total <= k <==> a <= k * total
  {
    var q := (a + total - 1) / total;
    MulOrder(total, q, k);
    MulOrder(total, k + 1, q);
    assert total * (k + 1) == k * total + total;
    assert total * q <= a + total - 1 < total * q + total;
  }

  /** The score as the rules put it: the runs of all rows and columns, 3 for each block, 40 for each finder-like
      sequence, 10 for each step of imbalance. */
  lemma ScoreIs(g: Grid)
    requires Square(g, |g|) && |g| > 0
    ensures var n := |g|;
      0 < n * n && |DarkModules(g, n)| <= n * n
      && Score(g) == RowScores(g, n) + ColumnScores(g, n) + 3 * |BlockCorners(g, n - 1)| + 40 * |FinderStarts(g, n)|
        + 10 * Imbalance(|DarkModules(g, n)|, n * n)
  {
    hide *;
    var n := |g|;
    ScoreParts(g);
    BlocksCount(g, n - 1);
    FindersCount(g, n);
    DarkIs(g, n);
  }

  lemma ScoreParts(g: Grid)
    requires Square(g, |g|) && |g| > 0
    ensures var n := |g|;
      0 < n * n && Dark(g, n) <= n * n
      && Score(g) == RowScores(g, n) + ColumnScores(g, n) + 3 * Blocks(g, n - 1) + 40 * Finders(g, n) + 10 * Imbalance(Dark(g, n), n * n)
  {
    hide RowScores, ColumnScores, Blocks, Finders, Imbalance, Dark;
    MulOrder(|g|, 1, |g|);
  }
}
