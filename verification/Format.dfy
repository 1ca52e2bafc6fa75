/** Data masks and the 15 format bits that name the mask in use. */
module Format {
  import opened Options
  import opened Bits
  import opened BitBuffer
  import opened Payload
  import opened Zigzag
  import opened Layout

  /** Where mask pattern `mask` flips a module. */
  predicate Inverted(mask: nat, x: int, y: int) {
    match mask
    case 0 => (x + y) % 2 == 0
    case 1 => y % 2 == 0
    case 2 => x % 3 == 0
    case 3 => (x + y) % 3 == 0
    case 4 => (y / 2 + x / 3) % 2 == 0
    case 5 => (x * y) % 2 + (x * y) % 3 == 0
    case 6 => ((x * y) % 2 + (x * y) % 3) % 2 == 0
    case 7 => ((x + y) % 2 + (x * y) % 3) % 2 == 0
    case _ => false
  }

  // ----- the BCH code of the format information -----

  const GENERATOR: nat := 0x537

  /** Error-correction level L in the two top bits, then the mask. */
  function FormatData(mask: nat): nat {
    8 + mask
  }

  /** One step of the division loop. */
  function BchStep(rem: nat): nat {
    Xor(2 * rem, Shr(rem, 9) * GENERATOR)
  }

  function BchRemainder(data: nat, n: nat): nat {
    if n == 0 then data else BchStep(BchRemainder(data, n - 1))
  }

  function FormatWord(mask: nat): nat {
    Xor(Or(Shl(FormatData(mask), 10), BchRemainder(FormatData(mask), 10)), 0x5412)
  }

  predicate BitSet(word: nat, i: nat) {
    Shr(word, i) % 2 == 1
  }

  predicate FormatBit(mask: nat, i: nat) {
    BitSet(FormatWord(mask), i)
  }

  /** Product of polynomials over the two-element field, bits as coefficients. */
  function CarrylessProduct(q: nat, g: nat): nat {
    if q == 0 then 0 else Xor(2 * CarrylessProduct(q / 2, g), q % 2 * g)
  }

  lemma BchStepBound(rem: nat)
    requires rem < 1024
    ensures Shr(rem, 9) == rem / 512 && BchStep(rem) < 1024
  {
    PowTable();
    hide Pow2;
    XorTopDigit(2 * rem, Shr(rem, 9) * GENERATOR, 10);
  }

  /** One more digit of the quotient. */
  lemma ProductDigit(q: nat, b: nat, g: nat)
    requires b < 2
    ensures CarrylessProduct(2 * q + b, g) == Xor(2 * CarrylessProduct(q, g), b * g)
  {
    hide Xor;
    if q == 0 && b == 0 {
      XorZero(0);
    } else {
      assert (2 * q + b) / 2 == q && (2 * q + b) % 2 == b;
    }
  }

  lemma BchStepProduct(q: nat, d: nat, rem: nat)
    requires rem < 1024 && Xor(CarrylessProduct(q, GENERATOR), d) == rem
    ensures Xor(CarrylessProduct(2 * q + Shr(rem, 9), GENERATOR), 2 * d) == BchStep(rem)
  {
    hide Shr, Xor, CarrylessProduct;
    var b, c: nat := Shr(rem, 9), CarrylessProduct(q, GENERATOR);
    var bg: nat := b * GENERATOR;
    BchStepBound(rem);
    ProductDigit(q, b, GENERATOR);
    XorAssociate(2 * c, bg, 2 * d);
    XorCommute(bg, 2 * d);
    XorAssociate(2 * c, 2 * d, bg);
    XorDouble(c, d);
  }

  lemma {:induction false} BchInvariant(data: nat, n: nat) returns (q: nat)
    requires data < 1024
    ensures BchRemainder(data, n) < 1024
    ensures Xor(CarrylessProduct(q, GENERATOR), Shl(data, n)) == BchRemainder(data, n)
  {
    hide Shr, Xor, BchStep, CarrylessProduct;
    if n == 0 {
      q := 0;
      NoQuotient(data);
    } else {
      q := BchInvariant(data, n - 1);
      var rem := BchRemainder(data, n - 1);
      BchStepProduct(q, Shl(data, n - 1), rem);
      BchStepBound(rem);
      q := 2 * q + Shr(rem, 9);
    }
  }

  lemma NoQuotient(data: nat)
    ensures Xor(CarrylessProduct(0, GENERATOR), data) == data
  {
    XorZero(data);
  }

  /** Unmasked, the format word is the data followed by its BCH check: a multiple of 0x537. */
  lemma FormatWordIsCodeword(mask: nat) returns (q: nat)
    requires mask < 8
    ensures Xor(FormatWord(mask), 0x5412) == CarrylessProduct(q, GENERATOR)
    ensures Xor(FormatWord(mask), 0x5412) / 1024 == FormatData(mask)
    ensures FormatWord(mask) < 0x8000
  {
    hide Xor, Or, Shl, CarrylessProduct, BchRemainder, Pow2;
    var data: nat := FormatData(mask);
    q := BchInvariant(data, 10);
    var rem: nat := BchRemainder(data, 10);
    PowTable();
    ShlTimes(data, 10);
    ShiftedDisjoint(data, rem, 10);
    XorCancel(Shl(data, 10) + rem, 0x5412);
    XorCancel(CarrylessProduct(q, GENERATOR), Shl(data, 10));
    XorCommute(rem, Shl(data, 10));
    XorTopDigit(Shl(data, 10) + rem, 0x5412, 14);
  }

  // ----- where the format bits go -----

  /** Cell of format bit i in the copy around the top-left finder. */
  function FormatCell(i: nat): Cell {
    if i <= 5 then Cell(8, i)
    else if i == 6 then Cell(8, 7)
    else if i == 7 then Cell(8, 8)
    else if i == 8 then Cell(7, 8)
    else Cell(14 - i, 8)
  }

  /** The format bit of the first copy held by a cell. */
  function FirstIndex(x: nat, y: nat): Option<nat> {
    if x == 8 && y <= 5 then Some(y)
    else if x == 8 && (y == 7 || y == 8) then Some(y - 1)
    else if y == 8 && x == 7 then Some(8)
    else if y == 8 && x <= 5 then Some(14 - x)
    else None
  }

  /** The format bit of the second copy held by a cell, before the dark module takes bit 7's place. */
  function SecondIndex(size: nat, x: nat, y: nat): Option<nat>
    requires x < size && y < size
  {
    if x == 8 && y >= size - 8 then Some(size - 1 - y)
    else if y == 8 && x >= size - 7 then Some(x + 15 - size)
    else None
  }

  /** What writing the format information leaves at a cell; None where it writes nothing. */
  function Overlay(size: nat, mask: nat, x: nat, y: nat): Option<bool>
    requires x < size && y < size
  {
    if x == 8 && y == size - 8 then Some(true)
    else if SecondIndex(size, x, y).Some? then Some(FormatBit(mask, SecondIndex(size, x, y).value))
    else if FirstIndex(x, y).Some? then Some(FormatBit(mask, FirstIndex(x, y).value))
    else None
  }

  /** The mask pattern flipped over the data modules. */
  function Masked(g: Grid, func: Grid, mask: nat): (r: Grid)
    requires Square(g, |g|) && Square(func, |g|)
    ensures Square(r, |g|)
    ensures forall x, y :: 0 <= x < |g| && 0 <= y < |g| ==> r[y][x] == (g[y][x] != (!func[y][x] && Inverted(mask, x, y)))
  {
    seq(|g|, y requires 0 <= y < |g| => seq(|g|, x requires 0 <= x < |g| => g[y][x] != (!func[y][x] && Inverted(mask, x, y))))
  }

  /** The format information written over a grid. */
  function WithFormat(g: Grid, mask: nat): (r: Grid)
    requires Square(g, |g|)
    ensures Square(r, |g|)
    ensures forall x, y :: 0 <= x < |g| && 0 <= y < |g| ==> r[y][x] == Over(Overlay(|g|, mask, x, y), g[y][x])
  {
    seq(|g|, y requires 0 <= y < |g| => seq(|g|, x requires 0 <= x < |g| => Over(Overlay(|g|, mask, x, y), g[y][x])))
  }

  function Over(top: Option<bool>, below: bool): bool {
    match top
    case Some(b) => b
    case None => below
  }

  /** What the symbol looks like under a mask. */
  function Candidate(g: Grid, func: Grid, mask: nat): (r: Grid)
    requires Square(g, |g|) && Square(func, |g|)
    ensures Square(r, |g|)
  {
    WithFormat(Masked(g, func, mask), mask)
  }

  /** Every cell that takes a format bit is a function module. */
  ghost predicate FormatReserved(func: Grid)
    requires Square(func, |func|)
  {
    forall x, y :: 0 <= x < |func| && 0 <= y < |func| && Overlay(|func|, 0, x, y).Some? ==> func[y][x]
  }

  /** Under a mask each data module is the original flipped where the pattern says so, each format cell shows
      its format bit, and every other function module is as it was. */
  lemma CandidateModules(g: Grid, func: Grid, mask: nat, x: nat, y: nat)
    requires Square(g, |g|) && Square(func, |g|) && FormatReserved(func) && x < |g| && y < |g|
    ensures var r := Candidate(g, func, mask)[y][x];
      if !func[y][x] then r == (g[y][x] != Inverted(mask, x, y))
      else if x == 8 && y == |g| - 8 then r
      else if SecondIndex(|g|, x, y).Some? then r == FormatBit(mask, SecondIndex(|g|, x, y).value)
      else if FirstIndex(x, y).Some? then r == FormatBit(mask, FirstIndex(x, y).value)
      else r == g[y][x]
  {
    hide Inverted, FormatBit;
    OverlayCells(|g|, mask, 0, x, y);
  }

  lemma SameGrid(g: Grid, h: Grid)
    requires |g| == |h| && (forall y :: 0 <= y < |g| ==> |g[y]| == |h[y]|)
    requires forall x, y :: 0 <= y < |g| && 0 <= x < |g[y]| ==> g[y][x] == h[y][x]
    ensures g == h
  {
    forall y | 0 <= y < |g|
      ensures g[y] == h[y]
    {
    }
  }

  /** A mask undoes itself: only the format bits of the trial stay behind. */
  lemma UndoMask(g: Grid, func: Grid, mask: nat)
    requires Square(g, |g|) && Square(func, |g|) && FormatReserved(func)
    ensures Masked(Candidate(g, func, mask), func, mask) == WithFormat(g, mask)
  {
    hide Inverted, Overlay;
    forall x, y | 0 <= x < |g| && 0 <= y < |g|
      ensures Overlay(|g|, mask, x, y).Some? ==> func[y][x]
    {
      OverlayCells(|g|, mask, 0, x, y);
    }
    SameGrid(Masked(Candidate(g, func, mask), func, mask), WithFormat(g, mask));
  }

  /** Format bits left by an earlier trial do not show in a later one. */
  lemma NextTrial(g: Grid, func: Grid, earlier: nat, mask: nat)
    requires Square(g, |g|) && Square(func, |g|) && FormatReserved(func)
    ensures Candidate(WithFormat(g, earlier), func, mask) == Candidate(g, func, mask)
  {
    hide Inverted, Overlay;
    forall x, y | 0 <= x < |g| && 0 <= y < |g|
      ensures Overlay(|g|, mask, x, y).Some? == Overlay(|g|, earlier, x, y).Some?
    {
      OverlayCells(|g|, mask, earlier, x, y);
    }
    SameGrid(Candidate(WithFormat(g, earlier), func, mask), Candidate(g, func, mask));
  }

  /** The cells that receive format bits are the same for every mask. */
  lemma OverlayCells(size: nat, mask: nat, mask': nat, x: nat, y: nat)
    requires x < size && y < size
    ensures Overlay(size, mask, x, y).Some? == Overlay(size, mask', x, y).Some?
  {
    hide FormatBit;
  }

  /** Format bits go to function modules only. */
  lemma OverlayOnFunctions(v: nat, mask: nat, x: nat, y: nat)
    requires IsVersion(v) && x < Size(v) && y < Size(v)
    ensures Overlay(Size(v), mask, x, y).Some? ==> IsFunction(v, x, y)
  {
    hide FormatBit;
  }

  // ----- reading the format back -----

  /** The first copy, highest bit first. */
  function FormatBits(g: Grid): (r: seq<bool>)
    requires Square(g, |g|) && |g| >= 21
    ensures |r| == 15
  {
    seq(15, k requires 0 <= k < 15 => At(g, FormatCell(14 - k)))
  }

  function ReadFormat(g: Grid): nat
    requires Square(g, |g|) && |g| >= 21
  {
    Value(FormatBits(g))
  }

  function ReadMask(g: Grid): nat
    requires Square(g, |g|) && |g| >= 21
  {
    Xor(ReadFormat(g), 0x5412) / 1024 % 8
  }

  lemma OverlayAtFormatCell(size: nat, mask: nat, i: nat)
    requires size >= 21 && i < 15
    ensures InGrid(FormatCell(i), size)
    ensures Overlay(size, mask, FormatCell(i).x, FormatCell(i).y) == Some(FormatBit(mask, i))
  {
    hide FormatBit;
  }

  lemma FormatBitReadsBack(g: Grid, func: Grid, mask: nat, k: nat)
    requires Square(g, |g|) && Square(func, |g|) && |g| >= 21 && k < 15
    ensures FormatBits(Candidate(g, func, mask))[k] == BitsOf(FormatWord(mask), 15)[k]
  {
    hide BitsOf, FormatBit, Inverted, FormatWord, Shr, Overlay, FormatCell, Masked, BitSet;
    BitAt(FormatWord(mask), 15, k);
    FormatBitIs(mask, 14 - k);
    OverlayAtFormatCell(|g|, mask, 14 - k);
  }

  lemma FormatReadsBack(g: Grid, func: Grid, mask: nat)
    requires Square(g, |g|) && Square(func, |g|) && |g| >= 21 && mask < 8
    ensures ReadMask(Candidate(g, func, mask)) == mask
  {
    hide Xor, FormatWord, BitsOf, Value, FormatBits, Candidate, CarrylessProduct, Pow2, ReadMask;
    var r, word := Candidate(g, func, mask), FormatWord(mask);
    var q := FormatWordIsCodeword(mask);
    forall k | 0 <= k < 15
      ensures FormatBits(r)[k] == BitsOf(word, 15)[k]
    {
      FormatBitReadsBack(g, func, mask, k);
    }
    assert FormatBits(r) == BitsOf(word, 15);
    PowTable();
    ValueOfBits(word, 15);
    ReadMaskIs(r, mask, word);
  }

  lemma ReadMaskIs(r: Grid, mask: nat, word: nat)
    requires Square(r, |r|) && |r| >= 21 && mask < 8 && Value(FormatBits(r)) == word
    ensures ReadMask(r) == Xor(word, 0x5412) / 1024 % 8
    ensures FormatData(mask) % 8 == mask
  {
    hide Value, FormatBits, Xor;
  }

  lemma FormatBitIs(mask: nat, i: nat)
    ensures FormatBit(mask, i) == (Shr(FormatWord(mask), i) % 2 == 1)
  {
    hide FormatWord, Shr;
  }

  lemma BchRemainderStep(data: nat, n: nat)
    ensures BchRemainder(data, 0) == data
    ensures BchRemainder(data, n + 1) == Xor(2 * BchRemainder(data, n), Shr(BchRemainder(data, n), 9) * 0x537)
  {
    hide Xor, Shr;
  }
}
