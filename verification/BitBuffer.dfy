/** The growing bit stream of the encoder and its packing into codewords. */
module BitBuffer {
  import opened Arithmetic
  import opened Bits

  // ----- numbers and bit strings, most significant bit first -----

  function BitsOf(val: nat, n: nat): (r: seq<bool>)
    ensures |r| == n
  {
    if n == 0 then [] else BitsOf(val / 2, n - 1) + [val % 2 == 1]
  }

  function Value(bits: seq<bool>): (v: nat)
    ensures v < Pow2(|bits|)
  {
    if bits == [] then 0 else 2 * Value(bits[..|bits| - 1]) + if bits[|bits| - 1] then 1 else 0
  }

  function Clear(n: nat): (r: seq<bool>)
    ensures |r| == n && forall i :: 0 <= i < n ==> !r[i]
  {
    seq(n, i => false)
  }

  lemma {:induction false} ValueOfBits(val: nat, n: nat)
    requires val < Pow2(n)
    ensures Value(BitsOf(val, n)) == val
  {
    if n > 0 {
      ValueOfBits(val / 2, n - 1);
      assert BitsOf(val, n)[..n - 1] == BitsOf(val / 2, n - 1);
    }
  }

  lemma {:induction false} BitsOfValue(bits: seq<bool>)
    ensures BitsOf(Value(bits), |bits|) == bits
    decreases |bits|
  {
    if bits != [] {
      var n := |bits| - 1;
      BitsOfValue(bits[..n]);
      assert bits == bits[..n] + [bits[n]];
    }
  }

  /** Bit i of an n-bit string is a shift and a mask of its number. */
  lemma {:induction false} BitAt(val: nat, n: nat, i: nat)
    requires i < n
    ensures BitsOf(val, n)[i] == (Shr(val, n - 1 - i) % 2 == 1)
  {
    if i < n - 1 {
      BitAt(val / 2, n - 1, i);
      DivTwice(val, 2, Pow2(n - 2 - i));
    }
  }

  // ----- packing -----

  /** The bits of a codeword sequence, in order. */
  function Unpack(words: seq<byte>): (r: seq<bool>)
    ensures |r| == 8 * |words|
  {
    if words == [] then [] else Unpack(words[..|words| - 1]) + BitsOf(words[|words| - 1], 8)
  }

  /** Codeword i of a bit string, the missing low bits of a last partial word being clear. */
  function WordAt(bits: seq<bool>, i: nat): byte
    requires 8 * i < |bits|
  {
    assert Pow2(8) == 256;
    if 8 * i + 8 <= |bits| then Value(bits[8 * i..8 * i + 8])
    else Value(bits[8 * i..] + Clear(8 * i + 8 - |bits|))
  }

  function Pack(bits: seq<bool>): (r: seq<byte>)
    ensures |r| == (|bits| + 7) / 8
  {
    seq((|bits| + 7) / 8, i requires 0 <= i < (|bits| + 7) / 8 => WordAt(bits, i))
  }

  lemma {:induction false} UnpackSlice(words: seq<byte>, i: nat)
    requires i < |words|
    ensures Unpack(words)[8 * i..8 * i + 8] == BitsOf(words[i], 8)
    decreases |words|
  {
    var n := |words| - 1;
    var head, tail := Unpack(words[..n]), BitsOf(words[n], 8);
    assert Unpack(words) == head + tail;
    hide *;
    if i < n {
      UnpackSlice(words[..n], i);
      assert (head + tail)[8 * i..8 * i + 8] == head[8 * i..8 * i + 8];
    } else {
      assert (head + tail)[8 * n..8 * n + 8] == tail;
    }
  }

  /** Bit k of the stream, as the placement loop extracts it. */
  lemma UnpackBit(words: seq<byte>, k: nat)
    requires k < 8 * |words|
    ensures Unpack(words)[k] == (Shr(words[k / 8], 7 - k % 8) % 2 == 1)
  {
    hide BitsOf, Unpack, Shr;
    var i := k / 8;
    UnpackSlice(words, i);
    BitAt(words[i], 8, k % 8);
    assert Unpack(words)[8 * i..8 * i + 8][k % 8] == Unpack(words)[k];
  }

  lemma PackUnpack(words: seq<byte>)
    ensures Pack(Unpack(words)) == words
  {
    hide BitsOf, Unpack, Value;
    forall i | 0 <= i < |words|
      ensures WordAt(Unpack(words), i) == words[i]
    {
      UnpackSlice(words, i);
      assert Pow2(8) == 256;
      ValueOfBits(words[i], 8);
    }
  }

  lemma UnpackPack(bits: seq<bool>)
    requires |bits| % 8 == 0
    ensures Unpack(Pack(bits)) == bits
  {
    hide BitsOf, Unpack, Value, Pow2;
    var words := Pack(bits);
    forall k | 0 <= k < |bits|
      ensures Unpack(words)[k] == bits[k]
    {
      var i := k / 8;
      UnpackSlice(words, i);
      BitsOfValue(bits[8 * i..8 * i + 8]);
      assert Unpack(words)[8 * i..8 * i + 8][k % 8] == bits[8 * i..8 * i + 8][k % 8];
    }
  }

  // ----- the buffer -----

  class Buffer {
    var bits: seq<bool>

    constructor ()
      ensures bits == []
    {
      bits := [];
    }

    function Len(): nat
      reads this
    {
      |bits|
    }

    /** Appends the low n bits of val, highest first. */
    method Append(val: nat, n: nat)
      modifies this
      ensures bits == old(bits) + BitsOf(val, n)
    {
      hide *;
      var i := n - 1;
      NoBits(Shr(val, i + 1));
      while i >= 0
        invariant -1 <= i < n
        invariant bits == old(bits) + BitsOf(Shr(val, i + 1), n - 1 - i)
      {
        NextBit(val, n, i);
        bits := bits + [Shr(val, i) % 2 == 1];
        i := i - 1;
      }
      AllBits(val);
    }

    /** The bits as bytes, the last one filled up with clear bits. */
    method Bytes() returns (r: array<byte>)
      ensures fresh(r) && r[..] == Pack(bits)
    {
      hide *;
      var out := new byte[(|bits| + 7) / 8](_ => 0);
      PartialDone(bits);
      for i := 0 to |bits|
        invariant forall j :: 0 <= j < out.Length ==> out[j] == Partial(bits, j, i)
      {
        var j := i / 8;
        PartialStep(bits, i);
        if bits[i] {
          out[j] := Or(out[j], Pow2(7 - i % 8));
        }
      }
      r := out;
    }
  }

  /** Word j of the output after i bits have been taken in. */
  ghost function Partial(bits: seq<bool>, j: nat, i: nat): byte
    requires 8 * j < |bits| && i <= |bits|
  {
    if i <= 8 * j then 0
    else if 8 * j + 8 <= i then WordAt(bits, j)
    else
      SetBit(bits, 8 * j, i - 1);
      Value(bits[8 * j..i]) * Pow2(8 * j + 8 - i)
  }

  lemma PartialStep(bits: seq<bool>, i: nat)
    requires i < |bits|
    ensures var a := Partial(bits, i / 8, i);
      (if bits[i] then Or(a, Pow2(7 - i % 8)) else a) == Partial(bits, i / 8, i + 1)
    ensures forall j :: 0 <= j != i / 8 && 8 * j < |bits| ==> Partial(bits, j, i) == Partial(bits, j, i + 1)
  {
    var lo := 8 * (i / 8);
    SetBit(bits, lo, i);
    EmptyValue(bits[lo..lo]);
    if i == lo + 7 {
      FullWord(bits, i / 8);
    }
    hide Value, Pow2, Or, WordAt;
  }

  lemma EmptyValue(bits: seq<bool>)
    ensures bits == [] ==> forall n: nat :: Value(bits) * Pow2(n) == 0
  {
  }

  lemma PartialDone(bits: seq<bool>)
    ensures forall j :: 0 <= j < (|bits| + 7) / 8 ==> Partial(bits, j, |bits|) == Pack(bits)[j]
    ensures forall j :: 0 <= j < (|bits| + 7) / 8 ==> Partial(bits, j, 0) == 0
  {
    hide Value, Pow2, WordAt;
    forall j | 0 <= j < (|bits| + 7) / 8
      ensures Partial(bits, j, |bits|) == Pack(bits)[j]
    {
      if |bits| < 8 * j + 8 {
        LastWord(bits, j);
      }
    }
  }

  lemma NoBits(val: nat)
    ensures BitsOf(val, 0) == []
  {
  }

  lemma AllBits(val: nat)
    ensures Shr(val, 0) == val
  {
  }

  lemma NextBit(val: nat, n: nat, i: nat)
    requires i < n
    ensures BitsOf(Shr(val, i), n - i) == BitsOf(Shr(val, i + 1), n - 1 - i) + [Shr(val, i) % 2 == 1]
  {
    DivTwice(val, Pow2(i), 2);
    assert Pow2(i) * 2 == Pow2(i + 1);
  }

  /** Or-ing one more bit into a partial word. */
  lemma SetBit(bits: seq<bool>, lo: nat, i: nat)
    requires lo <= i < lo + 8 && i < |bits|
    ensures var a := Value(bits[lo..i]) * Pow2(lo + 8 - i);
      (if bits[i] then Or(a, Pow2(lo + 7 - i)) else a) == Value(bits[lo..i + 1]) * Pow2(lo + 7 - i)
    ensures Value(bits[lo..i + 1]) * Pow2(lo + 7 - i) < 256
  {
    hide *;
    var m, k := i + 1 - lo, lo + 7 - i;
    ValueSnoc(bits, lo, i);
    ShiftIn(Value(bits[lo..i]), k, bits[i]);
    PowSplit(m, k);
    MulMonotone(Value(bits[lo..i + 1]), Pow2(m), Pow2(k));
    PowByte();
  }

  lemma PowByte()
    ensures Pow2(8) == 256 && Pow2(0) == 1
  {
  }

  lemma ValueSnoc(bits: seq<bool>, lo: nat, i: nat)
    requires lo <= i < |bits|
    ensures Value(bits[lo..i + 1]) == 2 * Value(bits[lo..i]) + if bits[i] then 1 else 0
  {
    hide Pow2;
    assert bits[lo..i + 1][..i - lo] == bits[lo..i];
  }

  lemma ShiftIn(v: nat, k: nat, bit: bool)
    ensures (if bit then Or(v * Pow2(k + 1), Pow2(k)) else v * Pow2(k + 1)) == (2 * v + if bit then 1 else 0) * Pow2(k)
  {
    var p := Pow2(k);
    assert v * Pow2(k + 1) == 2 * v * p;
    OrClear(v, k);
    hide *;
    assert (2 * v + 1) * p == 2 * v * p + p;
  }

  lemma MulMonotone(a: nat, b: nat, c: nat)
    requires a < b && c > 0
    ensures a * c < b * c
  {
  }

  lemma {:induction false} PowSplit(m: nat, n: nat)
    ensures Pow2(m) * Pow2(n) == Pow2(m + n)
  {
    if n > 0 {
      PowSplit(m, n - 1);
      assert Pow2(m) * (2 * Pow2(n - 1)) == 2 * (Pow2(m) * Pow2(n - 1));
    }
  }

  lemma {:induction false} ValueClear(bits: seq<bool>, n: nat)
    ensures Value(bits + Clear(n)) == Value(bits) * Pow2(n)
  {
    hide *;
    if n == 0 {
      PowByte();
      assert bits + Clear(0) == bits;
    } else {
      ValueClear(bits, n - 1);
      PaddedValue(bits, n);
      PowStep(n - 1);
      var v, p := Value(bits), Pow2(n - 1);
      assert v * (2 * p) == 2 * (v * p);
    }
  }

  lemma PowStep(n: nat)
    ensures Pow2(n + 1) == 2 * Pow2(n)
  {
  }

  lemma PaddedValue(bits: seq<bool>, n: nat)
    requires n > 0
    ensures Value(bits + Clear(n)) == 2 * Value(bits + Clear(n - 1))
  {
    hide Value, Pow2;
    var padded := bits + Clear(n);
    assert padded[0..|bits| + n - 1] == bits + Clear(n - 1) && padded[0..|padded|] == padded;
    ValueSnoc(padded, 0, |bits| + n - 1);
  }

  lemma FullWord(bits: seq<bool>, j: nat)
    requires 8 * j + 8 <= |bits|
    ensures WordAt(bits, j) == Value(bits[8 * j..8 * j + 8]) == Value(bits[8 * j..8 * j + 8]) * Pow2(0)
  {
    hide Value;
  }

  lemma LastWord(bits: seq<bool>, j: nat)
    requires 8 * j < |bits| < 8 * j + 8
    ensures WordAt(bits, j) == Value(bits[8 * j..|bits|]) * Pow2(8 * j + 8 - |bits|)
  {
    hide Value, Pow2;
    assert bits[8 * j..|bits|] == bits[8 * j..];
    ValueClear(bits[8 * j..], 8 * j + 8 - |bits|);
  }

  // ----- reading fields back -----

  datatype Field = Field(val: nat, width: nat)

  ghost predicate InRange(fields: seq<Field>) {
    forall i :: 0 <= i < |fields| ==> fields[i].val < Pow2(fields[i].width)
  }

  /** What the buffer holds after appending the fields one by one: each Append extends the end. */
  ghost function Stream(fields: seq<Field>): seq<bool> {
    if fields == [] then []
    else Stream(fields[..|fields| - 1]) + BitsOf(fields[|fields| - 1].val, fields[|fields| - 1].width)
  }

  /** One more Append. */
  lemma StreamAppend(fields: seq<Field>, f: Field)
    ensures Stream(fields + [f]) == Stream(fields) + BitsOf(f.val, f.width)
  {
    assert (fields + [f])[..|fields|] == fields;
  }

  lemma {:induction false} StreamHead(fields: seq<Field>)
    requires fields != []
    ensures Stream(fields) == BitsOf(fields[0].val, fields[0].width) + Stream(fields[1..])
    decreases |fields|
  {
    var n := |fields| - 1;
    var f, l := fields[0], fields[n];
    if n == 0 {
      hide BitsOf;
      assert fields[..0] == [] && fields[1..] == [];
    } else {
      hide *;
      var middle := fields[1..n];
      StreamHead(fields[..n]);
      StreamAppend(fields[..n], l);
      StreamAppend(middle, l);
      assert fields[..n][1..] == middle && middle + [l] == fields[1..] && fields[..n] + [l] == fields;
      var head, tail := BitsOf(f.val, f.width), BitsOf(l.val, l.width);
      assert (head + Stream(middle)) + tail == head + (Stream(middle) + tail);
    }
  }

  function Widths(fields: seq<Field>): seq<nat> {
    seq(|fields|, i requires 0 <= i < |fields| => fields[i].width)
  }

  /** Reads consecutive fields of the given widths; None when the bits run out. */
  function ReadFields(bits: seq<bool>, widths: seq<nat>): seq<nat> {
    if widths == [] || |bits| < widths[0] then []
    else [Value(bits[..widths[0]])] + ReadFields(bits[widths[0]..], widths[1..])
  }

  /** Whatever was appended is read back from the packed bytes, field by field. */
  lemma FieldsReadBack(fields: seq<Field>)
    requires InRange(fields)
    ensures ReadFields(Unpack(Pack(Stream(fields))), Widths(fields))
         == seq(|fields|, i requires 0 <= i < |fields| => fields[i].val)
  {
    hide *;
    var bits := Stream(fields);
    var pad := (8 - |bits| % 8) % 8;
    assert (|bits| + pad) % 8 == 0;
    PackPadded(bits, pad);
    UnpackPack(bits + Clear(pad));
    StreamReadBack(fields, Clear(pad));
  }

  lemma PackPadded(bits: seq<bool>, pad: nat)
    requires pad == (8 - |bits| % 8) % 8
    ensures Pack(bits) == Pack(bits + Clear(pad))
  {
    hide Value;
    var full := bits + Clear(pad);
    forall i | 0 <= i < (|bits| + 7) / 8
      ensures WordAt(bits, i) == WordAt(full, i)
    {
      if 8 * i + 8 <= |bits| {
        assert full[8 * i..8 * i + 8] == bits[8 * i..8 * i + 8];
      } else {
        assert full[8 * i..8 * i + 8] == bits[8 * i..] + Clear(8 * i + 8 - |bits|);
      }
    }
  }

  lemma {:induction false} StreamReadBack(fields: seq<Field>, rest: seq<bool>)
    requires InRange(fields)
    ensures ReadFields(Stream(fields) + rest, Widths(fields))
         == seq(|fields|, i requires 0 <= i < |fields| => fields[i].val)
    decreases |fields|
  {
    if fields != [] {
      hide ReadFields;
      var f := fields[0];
      StreamReadBack(fields[1..], rest);
      assert Widths(fields) == [f.width] + Widths(fields[1..]);
      StreamHead(fields);
      assert Stream(fields) + rest == BitsOf(f.val, f.width) + (Stream(fields[1..]) + rest) by { hide BitsOf, Stream; }
      ReadOne(f, Stream(fields[1..]) + rest, Widths(fields[1..]));
    }
  }

  lemma ReadOne(f: Field, rest: seq<bool>, widths: seq<nat>)
    requires f.val < Pow2(f.width)
    ensures ReadFields(BitsOf(f.val, f.width) + rest, [f.width] + widths) == [f.val] + ReadFields(rest, widths)
  {
    hide BitsOf, Value, Pow2;
    var bits := BitsOf(f.val, f.width) + rest;
    ValueOfBits(f.val, f.width);
    assert bits[..f.width] == BitsOf(f.val, f.width) && bits[f.width..] == rest;
    assert ([f.width] + widths)[1..] == widths;
  }
}
