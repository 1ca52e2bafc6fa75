/** Versions, capacities and the data bit stream of a byte-mode symbol. */
module Payload {
  import opened Options
  import opened Bits
  import opened BitBuffer

  function DataCodewords(v: nat): nat {
    if v == 1 then 19 else if v == 2 then 34 else if v == 3 then 55 else if v == 4 then 80 else 108
  }

  function EcCodewords(v: nat): nat {
    if v == 1 then 7 else if v == 2 then 10 else if v == 3 then 15 else if v == 4 then 20 else 26
  }

  predicate IsVersion(v: nat) {
    1 <= v <= 5
  }

  /** Mode, count and text need 12 + 8n bits. */
  predicate Fits(n: nat, v: nat) {
    12 + 8 * n <= 8 * DataCodewords(v)
  }

  ghost predicate IsSmallestVersion(n: nat, v: nat) {
    IsVersion(v) && Fits(n, v) && forall u :: 1 <= u < v ==> !Fits(n, u)
  }

  /** The padding codewords: 0xEC and 0x11 in turn. */
  function PadWords(n: nat): (r: seq<byte>)
    ensures |r| == n
  {
    seq(n, i requires 0 <= i < n => PadByte(i))
  }

  function PadByte(i: nat): byte {
    if i % 2 == 0 then 0xEC else 0x11
  }

  function Header(text: seq<byte>): seq<bool> {
    BitsOf(4, 4) + BitsOf(|text|, 8)
  }

  /** The bit stream of a text: header, bytes, terminator, padding. */
  function DataStream(text: seq<byte>, v: nat): (r: seq<bool>)
    requires Fits(|text|, v)
    ensures |r| == 8 * DataCodewords(v)
  {
    Header(text) + Unpack(text) + Clear(4) + Unpack(PadWords(DataCodewords(v) - |text| - 2))
  }

  /** Reads mode, count and bytes back; None when the stream is not a byte-mode segment. */
  function Parse(bits: seq<bool>): Option<seq<byte>> {
    if |bits| < 12 || Value(bits[..4]) != 4 then None
    else
      var n := Value(bits[4..12]);
      if |bits| < 12 + 8 * n then None else Some(Pack(bits[12..12 + 8 * n]))
  }

  lemma ParseDataStream(text: seq<byte>, v: nat)
    requires Fits(|text|, v)
    ensures Parse(DataStream(text, v)) == Some(text)
  {
    hide BitsOf, Value, Unpack, Pack, Pow2;
    var bits := DataStream(text, v);
    PowFour();
    ValueOfBits(4, 4);
    ValueOfBits(|text|, 8);
    assert bits[..4] == BitsOf(4, 4);
    assert bits[4..12] == BitsOf(|text|, 8);
    assert bits[12..12 + 8 * |text|] == Unpack(text);
    PackUnpack(text);
  }

  lemma PowFour()
    ensures Pow2(4) == 16 && Pow2(8) == 256
  {
  }

  // ----- the data words, byte by byte -----

  /** Mode, count, text and terminator as bytes, four bits before they are needed. */
  function Segment(text: seq<byte>): seq<byte>
    requires |text| < 256
  {
    [4, |text|] + text + [0]
  }

  lemma {:induction false} ValueConcat(a: seq<bool>, b: seq<bool>)
    ensures Value(a + b) == Value(a) * Pow2(|b|) + Value(b)
    decreases |b|
  {
    hide *;
    if b == [] {
      PowByte();
      EmptyIsZero();
      assert a + b == a;
    } else {
      var n := |b| - 1;
      ValueConcat(a, b[..n]);
      ValueLast(a + b);
      ValueLast(b);
      PowStep(n);
      assert (a + b)[..|a + b| - 1] == a + b[..n];
      var v, p := Value(a), Pow2(n);
      assert v * (2 * p) == 2 * (v * p);
    }
  }

  lemma EmptyIsZero()
    ensures Value([]) == 0
  {
  }

  lemma ValueLast(s: seq<bool>)
    requires s != []
    ensures Value(s) == 2 * Value(s[..|s| - 1]) + if s[|s| - 1] then 1 else 0
  {
  }

  lemma Nibbles(b: byte)
    ensures Value(BitsOf(b, 8)[..4]) == b / 16 && Value(BitsOf(b, 8)[4..]) == b % 16
  {
    PowFour();
    ValueOfBits(b / 16, 4);
    ValueOfBits(b, 8);
    FirstFour(b);
    var high, low := BitsOf(b, 8)[..4], BitsOf(b, 8)[4..];
    ValueConcat(high, low);
    assert high + low == BitsOf(b, 8);
  }

  lemma FirstFour(b: byte)
    ensures BitsOf(b, 8)[..4] == BitsOf(b / 16, 4)
  {
    FrontOf(b, 7);
    FrontOf(b / 2, 6);
    FrontOf(b / 4, 5);
    FrontOf(b / 8, 4);
    hide BitsOf;
    assert b / 2 / 2 == b / 4 && b / 4 / 2 == b / 8 && b / 8 / 2 == b / 16;
    var w := BitsOf(b, 8);
    assert w[..7][..6] == w[..6] && w[..6][..5] == w[..5] && w[..5][..4] == w[..4];
  }

  lemma FrontOf(v: nat, n: nat)
    ensures BitsOf(v, n + 1)[..n] == BitsOf(v / 2, n)
  {
  }

  lemma NibblePair(p: byte, q: byte)
    ensures Value(BitsOf(p, 8)[4..] + BitsOf(q, 8)[..4]) == p % 16 * 16 + q / 16
  {
    Nibbles(p);
    Nibbles(q);
    PowFour();
    hide BitsOf, Value;
    ValueConcat(BitsOf(p, 8)[4..], BitsOf(q, 8)[..4]);
  }

  lemma {:induction false} UnpackConcat(a: seq<byte>, b: seq<byte>)
    ensures Unpack(a + b) == Unpack(a) + Unpack(b)
    decreases |b|
  {
    hide BitsOf;
    if b == [] {
      assert a + b == a;
    } else {
      UnpackConcat(a, b[..|b| - 1]);
      assert (a + b)[..|a + b| - 1] == a + b[..|b| - 1];
    }
  }

  lemma SegmentBits(text: seq<byte>)
    requires |text| < 256
    ensures Unpack(Segment(text)) == BitsOf(4, 8) + BitsOf(|text|, 8) + Unpack(text) + Clear(8)
  {
    var n := |text|;
    hide *;
    SegmentIs(text);
    UnpackConcat([4, n] + text, [0]);
    UnpackConcat([4, n], text);
    UnpackSnoc([4], n);
    UnpackSnoc([], 4);
    UnpackSnoc([], 0);
    UnpackEmpty();
    assert [] + [4] == [4] && [4] + [n] == [4, n] && [] + [0] == [0];
    ZeroBits(8);
  }

  lemma SegmentIs(text: seq<byte>)
    requires |text| < 256
    ensures Segment(text) == ([4, |text|] + text) + [0]
  {
  }

  /** The stream without its padding is the segment, read from four bits on. */
  lemma StreamOfSegment(text: seq<byte>)
    requires |text| < 256
    ensures |Unpack(Segment(text))| == 8 * |text| + 24
    ensures Header(text) + Unpack(text) + Clear(4) == Unpack(Segment(text))[4..8 * |text| + 20]
  {
    SegmentBits(text);
    ModeBits();
    hide BitsOf, Unpack, Segment;
    InnerSlice(BitsOf(4, 8), BitsOf(|text|, 8), Unpack(text));
  }

  lemma InnerSlice(mode: seq<bool>, count: seq<bool>, bits: seq<bool>)
    requires |mode| == |count| == 8
    ensures (mode + count + bits + Clear(8))[4..|bits| + 20] == mode[4..] + count + bits + Clear(4)
  {
  }

  lemma ModeBits()
    ensures BitsOf(4, 8)[4..] == BitsOf(4, 4)
  {
    PowFour();
    Nibbles(4);
    BitsOfValue(BitsOf(4, 8)[4..]);
  }

  /** The data words of a symbol: mode 4, count and text, each word made of a low and a high half byte, then
      0xEC and 0x11 in turn. */
  lemma DataWord(text: seq<byte>, v: nat, i: nat)
    requires IsVersion(v) && Fits(|text|, v) && i < DataCodewords(v)
    ensures |Pack(DataStream(text, v))| == DataCodewords(v)
    ensures Pack(DataStream(text, v))[i]
      == if i < |text| + 2 then Segment(text)[i] % 16 * 16 + Segment(text)[i + 1] / 16
         else if (i - |text|) % 2 == 0 then 0xEC else 0x11
  {
    hide *;
    var n := |text|;
    StreamParts(text, v);
    var front, pads := Header(text) + Unpack(text) + Clear(4), PadWords(DataCodewords(v) - n - 2);
    WordOf(DataStream(text, v), i);
    if i < n + 2 {
      SegmentWord(text, i);
      FrontSlice(front, Unpack(pads), i, n);
    } else {
      PadWord(pads, i - n - 2);
      PadSlice(front, Unpack(pads), i - n - 2, n);
      assert (i - n - 2) % 2 == (i - n) % 2;
    }
  }

  lemma StreamParts(text: seq<byte>, v: nat)
    requires IsVersion(v) && Fits(|text|, v)
    ensures |text| + 2 <= DataCodewords(v) && |text| < 256 && |Header(text) + Unpack(text) + Clear(4)| == 8 * |text| + 16
    ensures DataStream(text, v) == (Header(text) + Unpack(text) + Clear(4)) + Unpack(PadWords(DataCodewords(v) - |text| - 2))
  {
    hide BitsOf, Unpack;
  }

  lemma WordOf(bits: seq<bool>, i: nat)
    requires |bits| % 8 == 0 && 8 * i + 8 <= |bits|
    ensures |Pack(bits)| == |bits| / 8 && Pack(bits)[i] == Value(bits[8 * i..8 * i + 8])
  {
    hide Value;
  }

  lemma PadWord(pads: seq<byte>, k: nat)
    requires k < |pads| && pads == PadWords(|pads|)
    ensures Value(Unpack(pads)[8 * k..8 * k + 8]) == if k % 2 == 0 then 0xEC else 0x11
  {
    hide BitsOf, Unpack, Value;
    UnpackSlice(pads, k);
    PowFour();
    ValueOfBits(pads[k], 8);
  }

  lemma FrontSlice(front: seq<bool>, pads: seq<bool>, i: nat, n: nat)
    requires |front| == 8 * n + 16 && i < n + 2
    ensures (front + pads)[8 * i..8 * i + 8] == front[8 * i..8 * i + 8]
  {
  }

  lemma PadSlice(front: seq<bool>, pads: seq<bool>, k: nat, n: nat)
    requires |front| == 8 * n + 16 && 8 * k + 8 <= |pads|
    ensures (front + pads)[8 * (k + n + 2)..8 * (k + n + 2) + 8] == pads[8 * k..8 * k + 8]
  {
  }

  lemma SegmentWord(text: seq<byte>, i: nat)
    requires |text| < 256 && i < |text| + 2
    ensures |Header(text) + Unpack(text) + Clear(4)| == 8 * |text| + 16
    ensures Value((Header(text) + Unpack(text) + Clear(4))[8 * i..8 * i + 8]) == Segment(text)[i] % 16 * 16 + Segment(text)[i + 1] / 16
  {
    hide *;
    var seg := Segment(text);
    SegmentIs(text);
    StreamOfSegment(text);
    UnpackSlice(seg, i);
    UnpackSlice(seg, i + 1);
    NibblePair(seg[i], seg[i + 1]);
    SliceAcross(Unpack(seg), |text|, i, BitsOf(seg[i], 8), BitsOf(seg[i + 1], 8));
  }

  lemma SliceAcross(bits: seq<bool>, n: nat, i: nat, p: seq<bool>, q: seq<bool>)
    requires |bits| == 8 * n + 24 && i < n + 2 && p == bits[8 * i..8 * i + 8] && q == bits[8 * (i + 1)..8 * (i + 1) + 8]
    ensures bits[4..8 * n + 20][8 * i..8 * i + 8] == p[4..] + q[..4]
  {
    InnerAt(bits, 4, 8 * n + 20, 8 * i, 8 * i + 8);
    Halved(bits, 8 * i);
  }

  lemma InnerAt(bits: seq<bool>, lo: nat, hi: nat, a: nat, b: nat)
    requires lo + b <= hi <= |bits| && a <= b
    ensures bits[lo..hi][a..b] == bits[lo + a..lo + b]
  {
    forall k | 0 <= k < b - a
      ensures bits[lo..hi][a..b][k] == bits[lo + a..lo + b][k]
    {
      assert bits[lo..hi][a + k] == bits[lo + (a + k)];
    }
  }

  lemma Halved(bits: seq<bool>, a: nat)
    requires a + 16 <= |bits|
    ensures bits[a + 4..a + 12] == bits[a..a + 8][4..] + bits[a + 8..a + 16][..4]
  {
  }

  /** A text fits some version exactly when it has at most 106 bytes. */
  lemma CapacityIff(n: nat)
    ensures (exists v :: IsSmallestVersion(n, v)) <==> n <= 106
  {
    if n <= 106 {
      var v := if n <= 17 then 1 else if n <= 32 then 2 else if n <= 53 then 3 else if n <= 78 then 4 else 5;
      assert IsSmallestVersion(n, v);
    }
  }

  lemma SmallestIs(n: nat, v: nat)
    requires IsSmallestVersion(n, v)
    ensures v == if n <= 17 then 1 else if n <= 32 then 2 else if n <= 53 then 3 else if n <= 78 then 4 else 5
    ensures n <= 106
  {
    assert v > 1 ==> !Fits(n, v - 1);
  }

  /** The first byte-mode version with room, as the encoder searches for it. */
  method PickVersion(n: nat) returns (version: nat)
    ensures version == if n <= 17 then 1 else if n <= 32 then 2 else if n <= 53 then 3 else if n <= 78 then 4 else if n <= 106 then 5 else 0
    ensures version == 0 <==> n > 106
    ensures version != 0 ==> IsSmallestVersion(n, version)
  {
    var needBits := 4 + 8 + 8 * n;
    version := 0;
    for v := 1 to 6
      invariant version == 0
      invariant forall u :: 1 <= u < v ==> !Fits(n, u)
    {
      if DataCodewords(v) * 8 >= needBits {
        version := v;
        SmallestIs(n, v);
        break;
      }
    }
    if version == 0 {
      assert !Fits(n, 5);
    }
  }

  /** Fills the bit buffer: header, bytes, terminator, byte alignment, pad bytes. */
  method BuildData(text: seq<byte>, version: nat) returns (bits: Buffer)
    requires IsVersion(version) && Fits(|text|, version)
    ensures fresh(bits) && bits.bits == DataStream(text, version)
  {
    hide BitsOf, Unpack;
    bits := new Buffer();
    bits.Append(4, 4);
    bits.Append(|text|, 8);
    assert bits.bits == Header(text) + Unpack(text[..0]) by { UnpackEmpty(); }
    for i := 0 to |text|
      invariant bits.bits == Header(text) + Unpack(text[..i])
    {
      UnpackSnoc(text[..i], text[i]);
      assert text[..i] + [text[i]] == text[..i + 1];
      bits.Append(text[i], 8);
    }
    assert text[..|text|] == text;
    var capBits := DataCodewords(version) * 8;
    var term := 4;
    var rem := capBits - bits.Len();
    if rem < term {
      term := rem;
    }
    bits.Append(0, term);
    // The terminator already ends on a byte boundary, so pad is 0 and the guard of the source never holds.
    var pad := (8 - bits.Len() % 8) % 8;
    bits.Append(0, pad);
    assert bits.bits == Header(text) + Unpack(text) + Clear(4) by { ZeroBits(4); ZeroBits(0); }
    PadToCapacity(bits, capBits);
  }

  /** Alternates the two pad bytes until the capacity is full. */
  method PadToCapacity(bits: Buffer, capBits: nat)
    requires |bits.bits| <= capBits && |bits.bits| % 8 == capBits % 8
    modifies bits
    ensures bits.bits == old(bits.bits) + Unpack(PadWords((capBits - old(|bits.bits|)) / 8))
  {
    hide *;
    var padByte: nat := 0xEC;
    ghost var prefix, n := bits.bits, 0;
    PadStep(0);
    assert PadWords(0) == [];
    UnpackEmpty();
    while |bits.bits| < capBits
      invariant |bits.bits| == |prefix| + 8 * n <= capBits
      invariant bits.bits == prefix + Unpack(PadWords(n))
      invariant padByte == PadByte(n)
      decreases capBits - |bits.bits|
    {
      bits.Append(padByte, 8);
      PadStep(n);
      padByte := Xor(padByte, Xor(0xEC, 0x11));
      n := n + 1;
    }
  }

  lemma UnpackEmpty()
    ensures Unpack([]) == []
  {
  }

  lemma UnpackSnoc(words: seq<byte>, w: byte)
    ensures Unpack(words + [w]) == Unpack(words) + BitsOf(w, 8)
  {
    hide BitsOf;
    assert (words + [w])[..|words|] == words;
  }

  lemma {:induction false} ZeroBits(n: nat)
    ensures BitsOf(0, n) == Clear(n)
  {
    if n > 0 {
      ZeroBits(n - 1);
    }
  }

  /** pad ^= 0xEC ^ 0x11 alternates between the two pad bytes. */
  lemma PadStep(n: nat)
    ensures PadByte(0) == 0xEC
    ensures Unpack(PadWords(n + 1)) == Unpack(PadWords(n)) + BitsOf(PadByte(n), 8)
    ensures Xor(PadByte(n), Xor(0xEC, 0x11)) == PadByte(n + 1)
  {
    hide Xor, Unpack, BitsOf;
    XorCancel(0xEC, 0x11);
    XorCommute(0x11, Xor(0xEC, 0x11));
    XorCommute(0xEC, 0x11);
    XorCancel(0x11, 0xEC);
    UnpackSnoc(PadWords(n), PadByte(n));
    assert PadWords(n) + [PadByte(n)] == PadWords(n + 1);
  }
}
