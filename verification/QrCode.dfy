/** The symbol under construction: two square grids rewritten in place. */
module QrCode {
  import opened Arithmetic
  import opened Bits
  import opened BitBuffer
  import opened Payload
  import opened Zigzag
  import opened Layout
  import opened Format
  import opened Figures
  import opened Penalty

  /** The rows of a two-dimensional array, as a value. */
  ghost function Rows(a: array2<bool>): (g: Grid)
    reads a
    ensures |g| == a.Length0 && forall y :: 0 <= y < |g| ==> |g[y]| == a.Length1
    ensures forall x, y :: 0 <= y < a.Length0 && 0 <= x < a.Length1 ==> g[y][x] == a[y, x]
  {
    seq(a.Length0, y requires 0 <= y < a.Length0 reads a =>
      seq(a.Length1, x requires 0 <= x < a.Length1 reads a => a[y, x]))
  }

  class Code {
    const Size: nat
    const modules: array2<bool>
    const isFunc: array2<bool>

    ghost predicate Valid() {
      && modules.Length0 == modules.Length1 == isFunc.Length0 == isFunc.Length1 == Size
      && modules != isFunc
    }

    /** A blank symbol of the version's size. */
    constructor (version: nat)
      ensures Valid() && fresh(modules) && fresh(isFunc) && Size == Layout.Size(version)
      ensures forall x, y :: 0 <= x < Size && 0 <= y < Size ==> !modules[y, x] && !isFunc[y, x]
    {
      var size := 17 + 4 * version;
      Size := size;
      modules := new bool[size, size]((_, _) => false);
      isFunc := new bool[size, size]((_, _) => false);
    }

    method Set(x: nat, y: nat, dark: bool, fn: bool)
      requires Valid() && x < Size && y < Size
      modifies modules, isFunc
      ensures modules[y, x] == dark && isFunc[y, x] == (old(isFunc[y, x]) || fn)
      ensures forall i, j :: 0 <= i < Size && 0 <= j < Size && !(i == x && j == y) ==>
        modules[j, i] == old(modules[j, i]) && isFunc[j, i] == old(isFunc[j, i])
    {
      modules[y, x] := dark;
      if fn {
        isFunc[y, x] := true;
      }
    }

    method DrawFinder(cx: int, cy: int)
      requires Valid()
      modifies modules, isFunc
      ensures forall x, y :: 0 <= x < Size && 0 <= y < Size ==>
        modules[y, x] == (if InFinder(cx, cy, x, y) then FinderDark(cx, cy, x, y) else old(modules[y, x]))
        && isFunc[y, x] == (InFinder(cx, cy, x, y) || old(isFunc[y, x]))
    {
      for dy: int := -4 to 5
        invariant forall x, y :: 0 <= x < Size && 0 <= y < Size ==>
          var done := InFinder(cx, cy, x, y) && y < cy + dy;
          modules[y, x] == (if done then FinderDark(cx, cy, x, y) else old(modules[y, x]))
          && isFunc[y, x] == (done || old(isFunc[y, x]))
      {
        for dx: int := -4 to 5
          invariant forall x, y :: 0 <= x < Size && 0 <= y < Size ==>
            var done := InFinder(cx, cy, x, y) && (y < cy + dy || (y == cy + dy && x < cx + dx));
            modules[y, x] == (if done then FinderDark(cx, cy, x, y) else old(modules[y, x]))
            && isFunc[y, x] == (done || old(isFunc[y, x]))
        {
          var x, y := cx + dx, cy + dy;
          if x < 0 || x >= Size || y < 0 || y >= Size {
            continue;
          }
          var d := Max(Abs(dx), Abs(dy));
          Set(x, y, d != 2 && d != 4, true);
        }
      }
    }

    method DrawAlignment(cx: int, cy: int)
      requires Valid() && 2 <= cx < Size - 2 && 2 <= cy < Size - 2
      modifies modules, isFunc
      ensures forall x, y :: 0 <= x < Size && 0 <= y < Size ==>
        modules[y, x] == (if Ring(cx, cy, x, y) <= 2 then Ring(cx, cy, x, y) != 1 else old(modules[y, x]))
        && isFunc[y, x] == (Ring(cx, cy, x, y) <= 2 || old(isFunc[y, x]))
    {
      for dy: int := -2 to 3
        invariant forall x, y :: 0 <= x < Size && 0 <= y < Size ==>
          var done := Ring(cx, cy, x, y) <= 2 && y < cy + dy;
          modules[y, x] == (if done then Ring(cx, cy, x, y) != 1 else old(modules[y, x]))
          && isFunc[y, x] == (done || old(isFunc[y, x]))
      {
        for dx: int := -2 to 3
          invariant forall x, y :: 0 <= x < Size && 0 <= y < Size ==>
            var done := Ring(cx, cy, x, y) <= 2 && (y < cy + dy || (y == cy + dy && x < cx + dx));
            modules[y, x] == (if done then Ring(cx, cy, x, y) != 1 else old(modules[y, x]))
            && isFunc[y, x] == (done || old(isFunc[y, x]))
        {
          var d := Max(Abs(dx), Abs(dy));
          Set(cx + dx, cy + dy, d != 1, true);
        }
      }
    }

    /** Row 6 and column 6, dark at even places. */
    method DrawTiming()
      requires Valid() && Size > 6
      modifies modules, isFunc
      ensures forall x, y :: 0 <= x < Size && 0 <= y < Size ==>
        modules[y, x] == (if y == 6 then x % 2 == 0 else if x == 6 then y % 2 == 0 else old(modules[y, x]))
        && isFunc[y, x] == (x == 6 || y == 6 || old(isFunc[y, x]))
    {
      for i := 0 to Size
        invariant forall x, y :: 0 <= x < Size && 0 <= y < Size ==>
          modules[y, x] == (if y == 6 && x < i then x % 2 == 0 else if x == 6 && y < i then y % 2 == 0 else old(modules[y, x]))
          && isFunc[y, x] == ((x == 6 && y < i) || (y == 6 && x < i) || old(isFunc[y, x]))
      {
        Set(6, i, i % 2 == 0, true);
        Set(i, 6, i % 2 == 0, true);
      }
    }

    /** Marks the format areas as function modules; their bits come later. */
    method ReserveFormat()
      requires Valid() && Size >= 21
      modifies isFunc
      ensures forall x, y :: 0 <= x < Size && 0 <= y < Size ==>
        isFunc[y, x] == (old(isFunc[y, x])
          || (x == 8 && (y <= 5 || y == 7 || y == 8 || y >= Size - 7))
          || (y == 8 && (x <= 5 || x == 7 || x >= Size - 8)))
    {
      for i := 0 to 6
        invariant forall x, y :: 0 <= x < Size && 0 <= y < Size ==>
          isFunc[y, x] == (old(isFunc[y, x]) || (x == 8 && y < i))
      {
        isFunc[i, 8] := true;
      }
      isFunc[7, 8] := true;
      isFunc[8, 8] := true;
      isFunc[8, 7] := true;
      for i := 0 to 6
        invariant forall x, y :: 0 <= x < Size && 0 <= y < Size ==>
          isFunc[y, x] == (old(isFunc[y, x]) || (x == 8 && (y <= 5 || y == 7 || y == 8)) || (y == 8 && (x < i || x == 7)))
      {
        isFunc[8, i] := true;
      }
      for i := 0 to 8
        invariant forall x, y :: 0 <= x < Size && 0 <= y < Size ==>
          isFunc[y, x] == (old(isFunc[y, x]) || (x == 8 && (y <= 5 || y == 7 || y == 8))
            || (y == 8 && (x <= 5 || x == 7 || x >= Size - i)))
      {
        isFunc[8, Size - 1 - i] := true;
      }
      for i := 0 to 7
        invariant forall x, y :: 0 <= x < Size && 0 <= y < Size ==>
          isFunc[y, x] == (old(isFunc[y, x]) || (x == 8 && (y <= 5 || y == 7 || y == 8 || y >= Size - i))
            || (y == 8 && (x <= 5 || x == 7 || x >= Size - 8)))
      {
        isFunc[Size - 1 - i, 8] := true;
      }
    }

    method DrawFinders()
      requires Valid() && Size >= 21
      modifies modules, isFunc
      ensures forall x, y :: 0 <= x < Size && 0 <= y < Size ==>
        modules[y, x] == FinderLayer(Size, x, y, old(modules[y, x]))
        && isFunc[y, x] == (old(isFunc[y, x]) || InFinder(3, 3, x, y) || InFinder(Size - 4, 3, x, y) || InFinder(3, Size - 4, x, y))
    {
      hide InFinder, FinderDark;
      DrawFinder(3, 3);
      DrawFinder(Size - 4, 3);
      DrawFinder(3, Size - 4);
    }

    /** Timing, finders, alignment and the dark module. */
    method DrawPatterns(version: nat)
      requires Valid() && IsVersion(version) && Size == Layout.Size(version)
      requires forall x, y :: 0 <= x < Size && 0 <= y < Size ==> !modules[y, x] && !isFunc[y, x]
      modifies modules, isFunc
      ensures forall x, y :: 0 <= x < Size && 0 <= y < Size ==>
        modules[y, x] == PatternDark(version, x, y) && isFunc[y, x] == IsPattern(version, x, y)
    {
      hide Ring, InFinder, FinderDark, AlignCenter, FinderLayer;
      DrawTiming();
      DrawFinders();
      var a := AlignCenter(version);
      AlignmentFits(version);
      if a != 0 {
        DrawAlignment(a, a);
      }
      Set(8, Size - 8, true, true);
    }

    /** Every function pattern of the version, on a blank symbol. */
    method DrawFunctionPatterns(version: nat)
      requires Valid() && IsVersion(version) && Size == Layout.Size(version)
      requires forall x, y :: 0 <= x < Size && 0 <= y < Size ==> !modules[y, x] && !isFunc[y, x]
      modifies modules, isFunc
      ensures Rows(isFunc) == FunctionMask(version)
      ensures Rows(modules) == PatternGrid(version)
    {
      hide PatternDark, IsPattern, IsFunction;
      DrawPatterns(version);
      ReserveFormat();
      forall x, y | 0 <= x < Size && 0 <= y < Size
        ensures isFunc[y, x] == IsFunction(version, x, y)
      {
        FunctionUnion(version, x, y);
      }
      SameGrid(Rows(isFunc), FunctionMask(version));
      SameGrid(Rows(modules), PatternGrid(version));
    }

    method Put(x: nat, y: nat, dark: bool)
      requires Valid() && x < Size && y < Size
      modifies modules
      ensures Rows(modules) == Write(old(Rows(modules)), Cell(x, y), dark)
    {
      modules[y, x] := dark;
      IsWrite(old(Rows(modules)), Rows(modules), Cell(x, y), dark);
    }

    /** Gives the next bit, if any is left, to the module at (x, y), unless it is a function module. */
    method PlaceModule(codewords: seq<byte>, x: int, y: int, placed: nat, ghost before: Grid, ghost p: nat) returns (bit: nat)
      requires Valid() && OddSize(Size) && Square(before, Size) && p < PathLength(Size)
      requires CellAt(Size, p) == Cell(x, y) && InGrid(Cell(x, y), Size)
      requires placed == Least(|FreeCells(Rows(isFunc), p)|, 8 * |codewords|)
      requires Rows(modules) == PlacedTo(before, Rows(isFunc), Unpack(codewords), p)
      modifies modules
      ensures bit == Least(|FreeCells(Rows(isFunc), p + 1)|, 8 * |codewords|)
      ensures Rows(modules) == PlacedTo(before, Rows(isFunc), Unpack(codewords), p + 1)
    {
      hide FreeCells, PlacedTo, PathLength, CellAt, Unpack, Shr, Write, OddSize;
      bit := placed;
      PlacedStep(before, Rows(isFunc), Unpack(codewords), p);
      if isFunc[y, x] || bit >= |codewords| * 8 {
        return;
      }
      var b := codewords[bit / 8];
      var dark := Shr(b, 7 - bit % 8) % 2 == 1;
      UnpackBit(codewords, bit);
      Put(x, y, dark);
      bit := bit + 1;
    }

    /** One pass up or down a pair of columns; returns the number of bits placed so far. */
    method PlacePair(codewords: seq<byte>, right: int, placed: nat, ghost before: Grid, ghost c: nat) returns (bit: nat)
      requires Valid() && OddSize(Size) && Square(before, Size)
      requires c < (Size - 1) / 2 && right == RightColumn(Size, c)
      requires 0 <= PairBase(Size, c) && PairBase(Size, c) + 2 * Size <= PathLength(Size)
      requires placed == Least(|FreeCells(Rows(isFunc), PairBase(Size, c))|, 8 * |codewords|)
      requires Rows(modules) == PlacedTo(before, Rows(isFunc), Unpack(codewords), PairBase(Size, c))
      modifies modules
      ensures bit == Least(|FreeCells(Rows(isFunc), PairBase(Size, c) + 2 * Size)|, 8 * |codewords|)
      ensures Rows(modules) == PlacedTo(before, Rows(isFunc), Unpack(codewords), PairBase(Size, c) + 2 * Size)
    {
      hide FreeCells, PlacedTo, PathLength, PairBase, CellAt, Unpack, Shr, Write, OddSize, RightColumn;
      ghost var mask, bits, base := Rows(isFunc), Unpack(codewords), PairBase(Size, c);
      bit := placed;
      var total := |codewords| * 8;
      for vert := 0 to Size
        invariant bit == Least(|FreeCells(mask, base + 2 * vert)|, total)
        invariant Rows(modules) == PlacedTo(before, mask, bits, base + 2 * vert)
      {
        for j := 0 to 2
          invariant bit == Least(|FreeCells(mask, base + 2 * vert + j)|, total)
          invariant Rows(modules) == PlacedTo(before, mask, bits, base + 2 * vert + j)
        {
          var x := right - j;
          var upward := (right + 1) / 2 % 2 == 0;
          var y := vert;
          if upward {
            y := Size - 1 - vert;
          }
          CellAtPair(Size, c, vert, j);
          bit := PlaceModule(codewords, x, y, bit, before, base + 2 * vert + j);
        }
      }
    }

    /** Lays the codeword bits along the zigzag, over the modules that carry no pattern. */
    method PlaceData(codewords: seq<byte>)
      requires Valid() && OddSize(Size)
      modifies modules
      ensures Rows(modules) == Placed(old(Rows(modules)), Rows(isFunc), Unpack(codewords))
    {
      hide FreeCells, PlacedTo, PathLength, PairBase, Unpack;
      ghost var before, mask, bits := Rows(modules), Rows(isFunc), Unpack(codewords);
      ghost var c := 0;
      PlacedStart(before, mask, bits);
      PairBases(Size, 0);
      var bit := 0;
      var right := Size - 1;
      while right >= 1
        invariant right == if Size - 1 - 2 * c >= 6 then Size - 1 - 2 * c else Size - 2 - 2 * c
        invariant 0 <= PairBase(Size, c) <= PathLength(Size)
        invariant right < 1 ==> PairBase(Size, c) == PathLength(Size)
        invariant bit == Least(|FreeCells(mask, PairBase(Size, c))|, 8 * |codewords|)
        invariant Rows(modules) == PlacedTo(before, mask, bits, PairBase(Size, c))
        decreases right
      {
        if right == 6 {
          right := 5; // the vertical timing column is skipped
        }
        PairBases(Size, c);
        bit := PlacePair(codewords, right, bit, before, c);
        right := right - 2;
        c := c + 1;
      }
    }

    /** XORs the mask pattern over the data modules. */
    method ApplyMask(mask: nat)
      requires Valid()
      modifies modules
      ensures Rows(modules) == Masked(old(Rows(modules)), Rows(isFunc), mask)
      ensures mask < 8 ==> forall x, y :: 0 <= x < Size && 0 <= y < Size ==>
        modules[y, x] == (old(modules[y, x]) != (!isFunc[y, x] && Tiled(mask, x, y)))
    {
      hide Inverted, Tiled;
      for y := 0 to Size
        invariant forall i, j :: 0 <= i < Size && 0 <= j < Size ==>
          modules[j, i] == (old(modules[j, i]) != (j < y && !isFunc[j, i] && Inverted(mask, i, j)))
      {
        for x := 0 to Size
          invariant forall i, j :: 0 <= i < Size && 0 <= j < Size ==>
            modules[j, i] == (old(modules[j, i]) != ((j < y || (j == y && i < x)) && !isFunc[j, i] && Inverted(mask, i, j)))
        {
          if isFunc[y, x] {
            continue;
          }
          var invert := Inverted(mask, x, y);
          if invert {
            modules[y, x] := !modules[y, x];
          }
        }
      }
      SameGrid(Rows(modules), Masked(old(Rows(modules)), Rows(isFunc), mask));
      if mask < 8 {
        forall x, y | 0 <= x < Size && 0 <= y < Size
          ensures Inverted(mask, x, y) == Tiled(mask, x, y)
        {
          MaskFigure(mask, x, y);
        }
      }
    }

    /** Around the top-left finder. */
    method FirstCopy(bits: nat)
      requires Valid() && Size >= 21
      modifies modules
      ensures forall x, y :: 0 <= x < Size && 0 <= y < Size ==>
        modules[y, x] == (match FirstIndex(x, y) case Some(i) => BitSet(bits, i) case None => old(modules[y, x]))
    {
      hide BitSet;
      for i := 0 to 6
        invariant forall x, y :: 0 <= x < Size && 0 <= y < Size ==>
          modules[y, x] == if x == 8 && y < i then BitSet(bits, y) else old(modules[y, x])
      {
        modules[i, 8] := BitSet(bits, i);
      }
      modules[7, 8] := BitSet(bits, 6);
      modules[8, 8] := BitSet(bits, 7);
      modules[8, 7] := BitSet(bits, 8);
      for i := 9 to 15
        invariant forall x, y :: 0 <= x < Size && 0 <= y < Size ==>
          modules[y, x] == match FirstIndex(x, y)
            case Some(k) => if k < i then BitSet(bits, k) else old(modules[y, x])
            case None => old(modules[y, x])
      {
        modules[8, 14 - i] := BitSet(bits, i);
      }
    }

    /** Beside the other two finders. */
    method SecondCopy(bits: nat)
      requires Valid() && Size >= 21
      modifies modules
      ensures forall x, y :: 0 <= x < Size && 0 <= y < Size ==>
        modules[y, x] == (match SecondIndex(Size, x, y) case Some(i) => BitSet(bits, i) case None => old(modules[y, x]))
    {
      hide BitSet;
      for i := 0 to 8
        invariant forall x, y :: 0 <= x < Size && 0 <= y < Size ==>
          modules[y, x] == if x == 8 && y >= Size - i then BitSet(bits, Size - 1 - y) else old(modules[y, x])
      {
        modules[Size - 1 - i, 8] := BitSet(bits, i);
      }
      for i := 8 to 15
        invariant forall x, y :: 0 <= x < Size && 0 <= y < Size ==>
          modules[y, x] == match SecondIndex(Size, x, y)
            case Some(k) => if k < i then BitSet(bits, k) else old(modules[y, x])
            case None => old(modules[y, x])
      {
        modules[8, Size - 15 + i] := BitSet(bits, i);
      }
    }

    /** Writes the format information of a mask in both places, and the dark module. */
    method SetFormatBits(mask: nat)
      requires Valid() && Size >= 21
      modifies modules
      ensures Rows(modules) == WithFormat(old(Rows(modules)), mask)
    {
      hide Xor, Or, Shr, Shl, BchRemainder, BitSet;
      var data := FormatData(mask);
      var rem := data;
      BchRemainderStep(data, 0);
      for i := 0 to 10
        modifies {}
        invariant rem == BchRemainder(data, i)
      {
        BchRemainderStep(data, i);
        rem := Xor(2 * rem, Shr(rem, 9) * 0x537);
      }
      var bits := Xor(Or(Shl(data, 10), rem), 0x5412);
      assert bits == FormatWord(mask);
      hide FormatWord;
      FirstCopy(bits);
      SecondCopy(bits);
      modules[Size - 8, 8] := true; // over bit 7 of the second copy
      SameGrid(Rows(modules), WithFormat(old(Rows(modules)), mask));
    }

    // ----- choosing the mask -----

    method HasFinderLike(x: int, y: int, dx: int, dy: int) returns (r: bool)
      requires Valid()
      ensures r == FinderLike(Rows(modules), x, y, dx, dy)
    {
      ghost var g := Rows(modules);
      for i := 0 to 11
        invariant forall k :: 0 <= k < i ==> FinderAgrees(g, x, y, dx, dy, k)
      {
        var xx, yy := x + dx * i, y + dy * i;
        if xx < 0 || xx >= Size || yy < 0 || yy >= Size {
          assert !FinderAgrees(g, x, y, dx, dy, i);
          return false;
        }
        if modules[yy, xx] != FINDER[i] {
          assert !FinderAgrees(g, x, y, dx, dy, i);
          return false;
        }
      }
      return true;
    }

    method RowRuns() returns (p: nat)
      requires Valid() && Size > 0
      ensures p == RowScores(Rows(modules), Size)
    {
      hide LineScore, TrailingRun;
      ghost var g := Rows(modules);
      p := 0;
      for y := 0 to Size
        invariant p == RowScores(g, y)
      {
        ghost var line := g[y];
        var runColor := modules[y, 0];
        var run := 1;
        RunStart(line);
        for x := 1 to Size
          invariant runColor == line[x - 1] && run == TrailingRun(line[..x]) > 0
          invariant p + RunPenalty(run) == RowScores(g, y) + LineScore(line[..x])
        {
          RunStep(line, x);
          if modules[y, x] == runColor {
            run := run + 1;
          } else {
            p := p + RunPenalty(run);
            runColor := modules[y, x];
            run := 1;
          }
        }
        p := p + RunPenalty(run);
        assert line[..Size] == line;
      }
    }

    method ColumnRuns() returns (p: nat)
      requires Valid() && Size > 0
      ensures p == ColumnScores(Rows(modules), Size)
    {
      hide LineScore, TrailingRun;
      ghost var g := Rows(modules);
      p := 0;
      for x := 0 to Size
        invariant p == ColumnScores(g, x)
      {
        ghost var line := Column(g, x);
        var runColor := modules[0, x];
        var run := 1;
        RunStart(line);
        for y := 1 to Size
          invariant runColor == line[y - 1] && run == TrailingRun(line[..y]) > 0
          invariant p + RunPenalty(run) == ColumnScores(g, x) + LineScore(line[..y])
        {
          RunStep(line, y);
          if modules[y, x] == runColor {
            run := run + 1;
          } else {
            p := p + RunPenalty(run);
            runColor := modules[y, x];
            run := 1;
          }
        }
        p := p + RunPenalty(run);
        assert line[..Size] == line;
      }
    }

    method BlockCount() returns (p: nat)
      requires Valid() && Size > 0
      ensures p == 3 * Blocks(Rows(modules), Size - 1)
    {
      ghost var g := Rows(modules);
      p := 0;
      for y := 0 to Size - 1
        invariant p == 3 * Blocks(g, y)
      {
        for x := 0 to Size - 1
          invariant p == 3 * Blocks(g, y) + 3 * BlocksInRow(g, y, x)
        {
          var col := modules[y, x];
          if col == modules[y, x + 1] && col == modules[y + 1, x] && col == modules[y + 1, x + 1] {
            p := p + 3;
          }
        }
      }
    }

    method FinderCount() returns (p: nat)
      requires Valid()
      ensures p == 40 * Finders(Rows(modules), Size)
    {
      hide FinderLike;
      ghost var g := Rows(modules);
      p := 0;
      for y := 0 to Size
        invariant p == 40 * Finders(g, y)
      {
        for x := 0 to Size
          invariant p == 40 * Finders(g, y) + 40 * FindersInRow(g, y, x)
        {
          var across := HasFinderLike(x, y, 1, 0);
          if across {
            p := p + 40;
          }
          var down := HasFinderLike(x, y, 0, 1);
          if down {
            p := p + 40;
          }
        }
      }
    }

    method DarkCount() returns (dark: nat)
      requires Valid()
      ensures dark == Dark(Rows(modules), Size)
    {
      ghost var g := Rows(modules);
      dark := 0;
      for y := 0 to Size
        invariant dark == Dark(g, y)
      {
        for x := 0 to Size
          invariant dark == Dark(g, y) + DarkInRow(g[y], x)
        {
          if modules[y, x] {
            dark := dark + 1;
          }
        }
      }
    }

    /** The four rules together. */
    method Penalty() returns (p: nat)
      requires Valid() && Size > 0
      ensures p == Score(Rows(modules))
    {
      hide RowScores, ColumnScores, Blocks, Finders, Dark, Abs, Imbalance;
      var rows := RowRuns();
      var columns := ColumnRuns();
      var blocks := BlockCount();
      var finders := FinderCount();
      var dark := DarkCount();
      var total := Size * Size;
      MulOrder(Size, 1, Size);
      ImbalanceIs(dark, total);
      var k := (Abs(dark * 20 - total * 10) + total - 1) / total;
      p := rows + columns + blocks + finders + k * 10;
    }

    /** Tries every mask, undoes it, and finally applies the first of least penalty. */
    method ApplyBestMask()
      requires Valid() && 21 <= Size <= 177 && FormatReserved(Rows(isFunc))
      modifies modules
      ensures Rows(modules) == Candidate(old(Rows(modules)), Rows(isFunc), BestMask(old(Rows(modules)), Rows(isFunc), 8))
    {
      hide Score, Masked, WithFormat, FormatReserved;
      ghost var g, func := Rows(modules), Rows(isFunc);
      var best := -1;
      var bestPenalty := 0x4000_0000_0000_0000;
      for mask := 0 to 8
        invariant Rows(modules) == if mask == 0 then g else WithFormat(g, mask - 1)
        invariant mask == 0 ==> best == -1 && bestPenalty == 0x4000_0000_0000_0000
        invariant mask > 0 ==> best == BestMask(g, func, mask) && bestPenalty == Score(Candidate(g, func, best))
      {
        ApplyMask(mask);
        SetFormatBits(mask);
        if mask > 0 {
          NextTrial(g, func, mask - 1, mask);
        }
        var p := Penalty();
        ScoreBound(Candidate(g, func, mask));
        if p < bestPenalty {
          bestPenalty := p;
          best := mask;
        }
        ApplyMask(mask); // the pattern cancels; the format bits stay
        UndoMask(g, func, mask);
      }
      ApplyMask(best);
      SetFormatBits(best);
      NextTrial(g, func, 7, best);
    }
  }

  lemma RunStart(line: seq<bool>)
    requires line != []
    ensures TrailingRun(line[..1]) == 1 && LineScore(line[..1]) == 0
  {
    assert line[..1][..0] == [];
  }

  lemma RunStep(line: seq<bool>, x: nat)
    requires 1 <= x < |line|
    ensures TrailingRun(line[..x + 1]) == if line[x] == line[x - 1] then TrailingRun(line[..x]) + 1 else 1
    ensures LineScore(line[..x + 1]) + RunPenalty(TrailingRun(line[..x]))
      == LineScore(line[..x]) + RunPenalty(TrailingRun(line[..x + 1]))
       + if line[x] == line[x - 1] then 0 else RunPenalty(TrailingRun(line[..x]))
  {
    assert line[..x + 1][..x] == line[..x];
  }

  /** The first of least score among the masks below n. */
  ghost function BestMask(g: Grid, func: Grid, n: nat): (m: nat)
    requires Square(g, |g|) && Square(func, |g|) && |g| > 0 && n > 0
    ensures m < n
  {
    if n == 1 then 0
    else
      var m := BestMask(g, func, n - 1);
      if Score(Candidate(g, func, n - 1)) < Score(Candidate(g, func, m)) then n - 1 else m
  }

  lemma {:induction false} BestMaskIsFirstLeast(g: Grid, func: Grid, n: nat, k: nat)
    requires Square(g, |g|) && Square(func, |g|) && |g| > 0 && k < n
    ensures var m := BestMask(g, func, n);
      && Score(Candidate(g, func, m)) <= Score(Candidate(g, func, k))
      && (k < m ==> Score(Candidate(g, func, m)) < Score(Candidate(g, func, k)))
  {
    hide Score, Candidate;
    if n > 1 {
      if k < n - 1 {
        BestMaskIsFirstLeast(g, func, n - 1, k);
      } else {
        BestMaskIsFirstLeast(g, func, n - 1, 0);
      }
    }
  }

  lemma AlignmentFits(v: nat)
    requires IsVersion(v)
    ensures AlignCenter(v) != 0 ==> 2 <= AlignCenter(v) < Layout.Size(v) - 2
  {
  }
}
