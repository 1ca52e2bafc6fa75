/** The whole encoder, the symbol it draws for a text, and a decoder that reads the text back. */
module Encoder {
  import opened Options
  import opened Bits
  import opened BitBuffer
  import opened Payload
  import opened Zigzag
  import opened Layout
  import opened Format
  import opened Figures
  import opened QrCode
  import opened Polynomials
  import opened ReedSolomonCode
  import opened ReedSolomon
  import opened MinimumDistance

  datatype Result = Ok(code: Code) | TooLong(bytes: nat)

  /** Data codewords followed by their error-correction words. */
  ghost function Codewords(text: seq<byte>, v: nat): (w: seq<byte>)
    requires IsVersion(v) && Fits(|text|, v)
    ensures |w| == DataCodewords(v) + EcCodewords(v)
  {
    Pack(DataStream(text, v)) + CheckWords(Pack(DataStream(text, v)), EcCodewords(v))
  }

  /** The function patterns with the codewords laid in, before masking. */
  ghost function Unmasked(text: seq<byte>, v: nat): (g: Grid)
    requires IsVersion(v) && Fits(|text|, v)
    ensures Square(g, Layout.Size(v))
  {
    LaidOut(v, Unpack(Codewords(text, v)))
  }

  ghost function LaidOut(v: nat, bits: seq<bool>): (g: Grid)
    requires IsVersion(v)
    ensures Square(g, Layout.Size(v))
  {
    hide PatternGrid, FunctionMask, Placed;
    Placed(PatternGrid(v), FunctionMask(v), bits)
  }

  ghost function Symbol(text: seq<byte>, v: nat): (g: Grid)
    requires IsVersion(v) && Fits(|text|, v)
  {
    var g := Unmasked(text, v);
    Candidate(g, FunctionMask(v), BestMask(g, FunctionMask(v), 8))
  }

  /** The code is the symbol of the text in the smallest version that holds it. */
  ghost predicate Shows(code: Code, text: seq<byte>)
    reads code.modules
  {
    code.Valid()
    && exists v :: IsSmallestVersion(|text|, v) && code.Size == Layout.Size(v) && Rows(code.modules) == Symbol(text, v)
  }

  /** Fills the buffer, packs it and appends the error-correction words. */
  method AllWords(text: seq<byte>, version: nat, tables: Tables) returns (all: seq<byte>)
    requires tables.Valid() && IsVersion(version) && Fits(|text|, version)
    ensures all == Codewords(text, version)
  {
    hide *;
    CodewordsAre(text, version);
    var bits := BuildData(text, version);
    var dataBytes := bits.Bytes();
    var ec := tables.ReedSolomon(dataBytes[..], EcCodewords(version));
    all := dataBytes[..] + ec[..];
  }

  /** Draws the patterns, lays the words in and masks them. */
  method Draw(version: nat, all: seq<byte>) returns (c: Code)
    requires IsVersion(version)
    ensures fresh(c) && fresh(c.modules) && c.Valid() && c.Size == Layout.Size(version)
    ensures var g := LaidOut(version, Unpack(all));
      |g| > 0 && Rows(c.modules) == Candidate(g, FunctionMask(version), BestMask(g, FunctionMask(version), 8))
  {
    hide *;
    VersionSize(version);
    c := new Code(version);
    c.DrawFunctionPatterns(version);
    c.PlaceData(all);
    FormatIsReserved(version);
    c.ApplyBestMask();
    LaidOutIs(version, Unpack(all));
  }

  lemma VersionSize(v: nat)
    requires IsVersion(v)
    ensures OddSize(Layout.Size(v)) && 21 <= Layout.Size(v) <= 177
  {
  }

  lemma LaidOutIs(v: nat, bits: seq<bool>)
    requires IsVersion(v) && OddSize(Layout.Size(v))
    ensures LaidOut(v, bits) == Placed(PatternGrid(v), FunctionMask(v), bits)
  {
    hide PatternGrid, FunctionMask, Placed;
  }

  lemma UnmaskedIs(text: seq<byte>, v: nat)
    requires IsVersion(v) && Fits(|text|, v)
    ensures Unmasked(text, v) == LaidOut(v, Unpack(Codewords(text, v))) && |Unmasked(text, v)| > 0
  {
    hide LaidOut, Codewords;
  }

  /** Renders a text in the smallest version that holds it. */
  method Encode(text: seq<byte>, tables: Tables) returns (r: Result)
    requires tables.Valid()
    ensures r.TooLong? <==> |text| > 106
    ensures r.Ok? ==> fresh(r.code) && Shows(r.code, text)
    ensures r.Ok? ==> Decode(Rows(r.code.modules)) == Some(text)
    ensures r.Ok? ==> DrawnInSmallest(Rows(r.code.modules), text)
    ensures r.Ok? ==>
      r.code.Size == if |text| <= 17 then 21 else if |text| <= 32 then 25 else if |text| <= 53 then 29 else if |text| <= 78 then 33 else 37
  {
    hide *;
    var version := PickVersion(|text|);
    if version == 0 {
      return TooLong(|text|);
    }
    SmallestFits(|text|, version);
    var all := AllWords(text, version, tables);
    var c := Draw(version, all);
    UnmaskedIs(text, version);
    r := Ok(c);
    SymbolShown(c, text, version);
  }

  lemma SmallestFits(n: nat, v: nat)
    requires IsSmallestVersion(n, v)
    ensures IsVersion(v) && Fits(n, v)
    ensures EcCodewords(v) > 0 && OddSize(Layout.Size(v)) && 21 <= Layout.Size(v) <= 177
    ensures Layout.Size(v) == 17 + 4 * v
  {
  }

  lemma CodewordsAre(text: seq<byte>, v: nat)
    requires IsVersion(v) && Fits(|text|, v)
    ensures EcCodewords(v) > 0
    ensures Codewords(text, v) == Pack(DataStream(text, v)) + CheckWords(Pack(DataStream(text, v)), EcCodewords(v))
  {
    hide Pack, DataStream, CheckWords;
  }

  lemma SymbolShown(code: Code, text: seq<byte>, v: nat)
    requires code.Valid() && IsSmallestVersion(|text|, v) && code.Size == Layout.Size(v)
    requires IsVersion(v) && Fits(|text|, v) && |Unmasked(text, v)| > 0
    requires Rows(code.modules) == Candidate(Unmasked(text, v), FunctionMask(v), BestMask(Unmasked(text, v), FunctionMask(v), 8))
    ensures Shows(code, text) && Decode(Rows(code.modules)) == Some(text) && DrawnInSmallest(Rows(code.modules), text)
  {
    hide Candidate, BestMask, FunctionMask, Unmasked, IsSmallestVersion, Fits, Decode, DrawnInSmallest;
    assert Rows(code.modules) == Symbol(text, v);
    ShownDecodes(code, text);
    ShownDrawn(code, text);
  }

  lemma FormatIsReserved(v: nat)
    requires IsVersion(v)
    ensures FormatReserved(FunctionMask(v))
  {
    hide IsFunction, Overlay;
    forall x, y | 0 <= x < Layout.Size(v) && 0 <= y < Layout.Size(v)
      ensures Overlay(Layout.Size(v), 0, x, y).Some? ==> IsFunction(v, x, y)
    {
      OverlayOnFunctions(v, 0, x, y);
    }
  }

  // ----- reading a symbol -----

  predicate IsSymbolSize(g: Grid) {
    (forall y :: 0 <= y < |g| ==> |g[y]| == |g|)
    && (|g| == 21 || |g| == 25 || |g| == 29 || |g| == 33 || |g| == 37)
  }

  function VersionOf(g: Grid): (v: nat)
    requires IsSymbolSize(g)
    ensures IsVersion(v) && |g| == Layout.Size(v)
  {
    (|g| - 17) / 4
  }

  /** First format copy, unmasking, zigzag: the codewords a symbol shows. */
  function ReadWords(g: Grid): (w: seq<byte>)
    requires IsSymbolSize(g)
    ensures |w| == DataCodewords(VersionOf(g)) + EcCodewords(VersionOf(g))
  {
    hide DataCells, FunctionMask, ReadAll, Masked, ReadMask, Pack;
    var v := VersionOf(g);
    DataCellCount(v);
    var cells := DataCells(v)[..8 * (DataCodewords(v) + EcCodewords(v))];
    Pack(ReadAll(Masked(g, FunctionMask(v), ReadMask(g)), cells))
  }

  /** The text in the data part of a codeword sequence. */
  function TextOf(words: seq<byte>, v: nat): Option<seq<byte>> {
    if |words| < DataCodewords(v) then None else Parse(Unpack(words[..DataCodewords(v)]))
  }

  /** The text a symbol shows, without error correction. */
  function Decode(g: Grid): Option<seq<byte>> {
    if !IsSymbolSize(g) then None else TextOf(ReadWords(g), VersionOf(g))
  }

  lemma MaskedSymbolShowsWords(text: seq<byte>, v: nat, mask: nat)
    requires IsVersion(v) && Fits(|text|, v) && mask < 8
    ensures var s := Candidate(Unmasked(text, v), FunctionMask(v), mask);
      IsSymbolSize(s) && VersionOf(s) == v && ReadWords(s) == Codewords(text, v)
  {
    hide Codewords, Unpack, Pack, FunctionMask, PatternGrid, Candidate, Fits;
    hide Masked, ReadMask, DataCells, WithFormat, Placed, FormatReserved;
    var g, func, words := Unmasked(text, v), FunctionMask(v), Codewords(text, v);
    var s := Candidate(g, func, mask);
    FormatReadsBack(g, func, mask);
    FormatIsReserved(v);
    UndoMask(g, func, mask);
    PlacedWordsReadBack(text, v);
    var cells := DataCells(v)[..8 * |words|];
    FormatMissesData(g, v, mask, cells);
    PackUnpack(words);
  }

  lemma PlacedWordsReadBack(text: seq<byte>, v: nat)
    requires IsVersion(v) && Fits(|text|, v)
    ensures |DataCells(v)| >= 8 * |Codewords(text, v)|
    ensures ReadAll(Unmasked(text, v), DataCells(v)[..8 * |Codewords(text, v)|]) == Unpack(Codewords(text, v))
  {
    hide Codewords, Unpack, FunctionMask, PatternGrid, Fits, Placed, FreeCells, PathLength;
    DataCellCount(v);
    PlacedReadsBack(PatternGrid(v), FunctionMask(v), Unpack(Codewords(text, v)));
  }

  lemma FormatMissesData(g: Grid, v: nat, mask: nat, cells: seq<Cell>)
    requires IsVersion(v) && Square(g, Layout.Size(v)) && cells <= DataCells(v)
    ensures ReadAll(WithFormat(g, mask), cells) == ReadAll(g, cells)
  {
    hide IsFunction, Overlay, DataCells;
    forall i | 0 <= i < |cells|
      ensures At(WithFormat(g, mask), cells[i]) == At(g, cells[i])
    {
      OverlayOnFunctions(v, mask, cells[i].x, cells[i].y);
    }
  }

  lemma TextOfCodewords(text: seq<byte>, v: nat)
    requires IsVersion(v) && Fits(|text|, v)
    ensures TextOf(Codewords(text, v), v) == Some(text)
  {
    hide Unpack, Pack, DataStream, Parse, Fits, CheckWords;
    var stream := DataStream(text, v);
    assert Codewords(text, v)[..DataCodewords(v)] == Pack(stream);
    UnpackPack(stream);
    ParseDataStream(text, v);
  }

  /** Under any mask and in any version with room, the symbol decodes to the text. */
  lemma AnyMaskDecodes(text: seq<byte>, v: nat, mask: nat)
    requires IsVersion(v) && Fits(|text|, v) && mask < 8
    ensures Decode(Candidate(Unmasked(text, v), FunctionMask(v), mask)) == Some(text)
  {
    hide Codewords, FunctionMask, Candidate, Unmasked, Fits, TextOf, ReadWords, IsSymbolSize;
    MaskedSymbolShowsWords(text, v, mask);
    TextOfCodewords(text, v);
  }

  /** What the encoder draws decodes to what it was given. */
  lemma RoundTrip(text: seq<byte>, v: nat)
    requires IsVersion(v) && Fits(|text|, v)
    ensures Decode(Symbol(text, v)) == Some(text)
  {
    hide Decode, BestMask, Candidate, Fits;
    AnyMaskDecodes(text, v, BestMask(Unmasked(text, v), FunctionMask(v), 8));
  }

  lemma ShownDecodes(code: Code, text: seq<byte>)
    requires Shows(code, text)
    ensures Decode(Rows(code.modules)) == Some(text)
  {
    hide Decode, Symbol, Fits;
    var v :| IsSmallestVersion(|text|, v) && code.Size == Layout.Size(v) && Rows(code.modules) == Symbol(text, v);
    RoundTrip(text, v);
  }

  /** Distinct texts never share a symbol. */
  lemma SymbolsDistinct(a: seq<byte>, b: seq<byte>, v: nat, w: nat)
    requires IsVersion(v) && Fits(|a|, v) && IsVersion(w) && Fits(|b|, w)
    requires Symbol(a, v) == Symbol(b, w)
    ensures a == b
  {
    hide Symbol, Fits, Decode;
    RoundTrip(a, v);
    RoundTrip(b, w);
  }

  /** However a symbol is damaged, as long as its format area reads and at most half as many
      words as there are check words are wrong, every codeword that close is the one sent. */
  lemma DamageIsCorrectable(text: seq<byte>, v: nat, damaged: Grid, w: seq<byte>)
    requires IsVersion(v) && Fits(|text|, v) && IsSymbolSize(damaged) && VersionOf(damaged) == v
    requires Hamming(Codewords(text, v), ReadWords(damaged)) <= EcCodewords(v) / 2
    requires |w| == |ReadWords(damaged)| && IsCodeword(w, EcCodewords(v))
    requires Hamming(w, ReadWords(damaged)) <= EcCodewords(v) / 2
    ensures w == Codewords(text, v) && TextOf(w, v) == Some(text)
  {
    hide Hamming, IsCodeword, ReadWords, Pack, DataStream, CheckWords, TextOf, Fits, IsSymbolSize;
    TextOfCodewords(text, v);
    if w != Codewords(text, v) {
      UniqueNearest(Pack(DataStream(text, v)), ReadWords(damaged), w, EcCodewords(v));
    }
  }

  /** In every version, texts that differ give symbols whose words differ in more than EcCodewords places. */
  lemma TextDistance(a: seq<byte>, b: seq<byte>, v: nat)
    requires IsVersion(v) && Fits(|a|, v) && Fits(|b|, v) && a != b
    ensures Hamming(Codewords(a, v), Codewords(b, v)) >= EcCodewords(v) + 1
  {
    hide Hamming, Pack, DataStream, CheckWords, TextOf, Fits;
    TextOfCodewords(a, v);
    TextOfCodewords(b, v);
    BlockDistance(Pack(DataStream(a, v)), Pack(DataStream(b, v)), EcCodewords(v));
  }

  // ----- what a symbol looks like -----

  /** The first format copy holds the mask's word, bit 0 at the top. */
  ghost predicate ShowsFormat(g: Grid, mask: nat)
    requires Square(g, |g|) && |g| >= 21 && mask < 8
  {
    forall i :: 0 <= i < 15 ==> At(g, FIRST_COPY[i]) == BitSet(FORMAT_WORDS[mask], i)
  }

  /** The data modules, in path order, hold the bits flipped by the mask's tile; modules to spare are light before it. */
  ghost predicate ShowsBits(g: Grid, v: nat, bits: seq<bool>, mask: nat)
    requires IsVersion(v) && Square(g, Layout.Size(v)) && mask < 8
  {
    forall i :: 0 <= i < |DataCells(v)| ==> ShowsBit(g, v, bits, mask, i)
  }

  ghost predicate ShowsBit(g: Grid, v: nat, bits: seq<bool>, mask: nat, i: nat)
    requires IsVersion(v) && Square(g, Layout.Size(v)) && mask < 8 && i < |DataCells(v)|
  {
    var c := DataCells(v)[i];
    At(g, c) == ((if i < |bits| then bits[i] else false) != Tiled(mask, c.x, c.y))
  }

  /** Patterns, format information and masked data as the figures have them. */
  ghost predicate Drawn(g: Grid, text: seq<byte>, v: nat)
    requires IsVersion(v) && Fits(|text|, v)
  {
    && Square(g, Layout.Size(v))
    && ShowsPatterns(g, Layout.Size(v))
    && exists mask :: 0 <= mask < 8 && ShowsFormat(g, mask) && ShowsBits(g, v, Unpack(Codewords(text, v)), mask)
  }

  ghost predicate DrawnInSmallest(g: Grid, text: seq<byte>) {
    exists v :: IsSmallestVersion(|text|, v) && Drawn(g, text, v)
  }

  lemma BeforeMasking(text: seq<byte>, v: nat, x: nat, y: nat)
    requires IsVersion(v) && Fits(|text|, v) && x < Layout.Size(v) && y < Layout.Size(v) && IsFunction(v, x, y)
    ensures Unmasked(text, v)[y][x] == PatternDark(v, x, y)
  {
    hide Codewords, Unpack, IsFunction, PatternDark, Placed, FreeCells, PathLength, Fits;
    DataCellCount(v);
    PlacedReadsBack(PatternGrid(v), FunctionMask(v), Unpack(Codewords(text, v)));
    assert At(FunctionMask(v), Cell(x, y));
    assert At(Unmasked(text, v), Cell(x, y)) == At(PatternGrid(v), Cell(x, y));
  }

  lemma PatternsKept(text: seq<byte>, v: nat, mask: nat)
    requires IsVersion(v) && Fits(|text|, v) && mask < 8
    ensures KeepsPatterns(v, Candidate(Unmasked(text, v), FunctionMask(v), mask))
  {
    hide IsFunction, PatternDark, Unmasked, Candidate, Overlay, Fits, Inverted, FormatBit, FormatReserved;
    var g, func := Unmasked(text, v), FunctionMask(v);
    FormatIsReserved(v);
    forall x, y | 0 <= x < Layout.Size(v) && 0 <= y < Layout.Size(v) && Untouched(v, x, y)
      ensures Candidate(g, func, mask)[y][x] == PatternDark(v, x, y)
    {
      CandidateModules(g, func, mask, x, y);
      BeforeMasking(text, v, x, y);
      UntouchedIs(v, x, y);
    }
  }

  lemma UntouchedIs(v: nat, x: nat, y: nat)
    requires IsVersion(v) && x < Layout.Size(v) && y < Layout.Size(v) && Untouched(v, x, y)
    ensures if x == 8 && y == Layout.Size(v) - 8 then PatternDark(v, x, y)
      else SecondIndex(Layout.Size(v), x, y).None? && FirstIndex(x, y).None?
  {
    hide FormatBit, IsFunction;
    if x == 8 && y == Layout.Size(v) - 8 {
      DarkModule(v);
    }
  }

  lemma FormatShown(g: Grid, func: Grid, mask: nat)
    requires Square(g, |g|) && Square(func, |g|) && |g| >= 21 && mask < 8
    ensures ShowsFormat(Candidate(g, func, mask), mask)
  {
    hide FormatWord, Shr, Overlay, FormatCell, Masked, Inverted, BitSet;
    FormatFigure(mask);
    forall i | 0 <= i < 15
      ensures InGrid(FIRST_COPY[i], |g|) && At(Candidate(g, func, mask), FIRST_COPY[i]) == BitSet(FORMAT_WORDS[mask], i)
    {
      OverlayAtFormatCell(|g|, mask, i);
      FirstCopyFigure(i, 0, 0);
    }
  }

  lemma BitShown(text: seq<byte>, v: nat, mask: nat, i: nat)
    requires IsVersion(v) && Fits(|text|, v) && mask < 8 && i < |DataCells(v)|
    ensures ShowsBit(Candidate(Unmasked(text, v), FunctionMask(v), mask), v, Unpack(Codewords(text, v)), mask, i)
  {
    hide Codewords, Unpack, FunctionMask, Candidate, Fits, DataCells, Inverted, Tiled, Unmasked, IsFunction, FormatReserved, FormatBit;
    var c := DataCells(v)[i];
    FormatIsReserved(v);
    CandidateModules(Unmasked(text, v), FunctionMask(v), mask, c.x, c.y);
    MaskFigure(mask, c.x, c.y);
    LaidBit(text, v, i);
  }

  lemma LaidBit(text: seq<byte>, v: nat, i: nat)
    requires IsVersion(v) && Fits(|text|, v) && i < |DataCells(v)|
    ensures var bits := Unpack(Codewords(text, v));
      At(Unmasked(text, v), DataCells(v)[i]) == if i < |bits| then bits[i] else false
  {
    hide Codewords, Unpack, FunctionMask, PatternGrid, Fits, Placed, FreeCells, PathLength, IsFunction, PatternDark, Unmasked;
    var bits, c := Unpack(Codewords(text, v)), DataCells(v)[i];
    if i < |bits| {
      PlacedWordsReadBack(text, v);
      assert ReadAll(Unmasked(text, v), DataCells(v)[..|bits|])[i] == bits[i];
    } else {
      SpareCell(text, v, i);
    }
  }

  lemma SpareCell(text: seq<byte>, v: nat, i: nat)
    requires IsVersion(v) && Fits(|text|, v) && |Unpack(Codewords(text, v))| <= i < |DataCells(v)|
    ensures !At(Unmasked(text, v), DataCells(v)[i])
  {
    hide Codewords, Unpack, FunctionMask, Fits, Placed, FreeCells, PathLength, IsFunction, PatternDark;
    PlacedLeavesRest(PatternGrid(v), FunctionMask(v), Unpack(Codewords(text, v)), i);
    LightOutside(v, DataCells(v)[i].x, DataCells(v)[i].y);
  }

  lemma LightOutside(v: nat, x: int, y: int)
    requires IsVersion(v) && 0 <= x < Layout.Size(v) && 0 <= y < Layout.Size(v) && !IsFunction(v, x, y)
    ensures !PatternDark(v, x, y)
  {
  }

  /** Under any mask a symbol shows its patterns, the mask's format word and the masked bits of its words. */
  lemma SymbolDrawn(text: seq<byte>, v: nat, mask: nat)
    requires IsVersion(v) && Fits(|text|, v) && mask < 8
    ensures Drawn(Candidate(Unmasked(text, v), FunctionMask(v), mask), text, v)
  {
    hide Codewords, Unpack, FunctionMask, Candidate, Fits, DataCells, Unmasked, ShowsBit, ShowsFormat, ShowsPatterns, KeepsPatterns;
    var s := Candidate(Unmasked(text, v), FunctionMask(v), mask);
    PatternsKept(text, v, mask);
    PatternsShow(v, s);
    FormatShown(Unmasked(text, v), FunctionMask(v), mask);
    forall i | 0 <= i < |DataCells(v)|
      ensures ShowsBit(s, v, Unpack(Codewords(text, v)), mask, i)
    {
      BitShown(text, v, mask, i);
    }
  }

  lemma ShownDrawn(code: Code, text: seq<byte>)
    requires Shows(code, text)
    ensures DrawnInSmallest(Rows(code.modules), text)
  {
    hide Drawn, Fits, Candidate, BestMask, Unmasked, FunctionMask;
    var v :| IsSmallestVersion(|text|, v) && code.Size == Layout.Size(v) && Rows(code.modules) == Symbol(text, v);
    var g := Unmasked(text, v);
    SymbolDrawn(text, v, BestMask(g, FunctionMask(v), 8));
    assert Drawn(Rows(code.modules), text, v);
  }

  /** Data and check words of each version. */
  lemma WordCounts(text: seq<byte>, v: nat)
    requires IsVersion(v) && Fits(|text|, v)
    ensures |Pack(DataStream(text, v))| == [19, 34, 55, 80, 108][v - 1]
    ensures |Codewords(text, v)| == [19 + 7, 34 + 10, 55 + 15, 80 + 20, 108 + 26][v - 1]
  {
    hide DataStream, CheckWords;
  }
}
