/** What a reader makes of a symbol, and why it finds the text that was encoded. */
module SymbolReader {
  import opened PackedBits
  import opened Interleave
  import opened Segments
  import opened BitStream
  import opened CodewordPlacement

  // ---------- Bits to bytes ----------

  /** The byte whose first n bits, most significant first, are those given and whose others are 0. */
  function ByteWith(bits: seq<bool>, n: nat): bv8
    requires n <= 8 <= |bits|
  {
    if n == 0 then 0 else WithBit(ByteWith(bits, n - 1), 8 - n, bits[n - 1])
  }

  function BytesOf(bits: seq<bool>, n: nat): (data: seq<bv8>)
    requires 8 * n <= |bits|
    ensures |data| == n
  {
    seq(n, k requires 0 <= k < n => ByteWith(bits[8 * k..], 8))
  }

  lemma {:induction false} BitOfByteWith(bits: seq<bool>, n: nat, i: nat)
    requires i < n <= 8 <= |bits|
    ensures Bit(ByteWith(bits, n), 7 - i) == bits[i]
  {
    hide Bit, WithBit;
    BitOfWithBit(ByteWith(bits, n - 1), 8 - n, bits[n - 1], 7 - i);
    if i < n - 1 {
      BitOfByteWith(bits, n - 1, i);
    }
  }

  lemma ByteReadsBack(b: bv8, bits: seq<bool>)
    requires |bits| >= 8 && forall i :: 0 <= i < 8 ==> bits[i] == Bit(b, 7 - i)
    ensures ByteWith(bits, 8) == b
  {
    hide Bit, ByteWith;
    forall i | 0 <= i < 8
      ensures Bit(ByteWith(bits, 8), i) == Bit(b, i)
    {
      BitOfByteWith(bits, 8, 7 - i);
      assert bits[7 - i] == Bit(b, 7 - (7 - i));
    }
    ByteFromBits(ByteWith(bits, 8), b);
  }

  /** The bytes read from the bits of a byte string, whatever follows them, are the string. */
  lemma BytesReadBack(data: seq<bv8>, bits: seq<bool>)
    requires 8 * |data| <= |bits| && forall i :: 0 <= i < 8 * |data| ==> bits[i] == Bits(data)[i]
    ensures BytesOf(bits, |data|) == data
  {
    hide Bit, ByteWith;
    forall k | 0 <= k < |data|
      ensures BytesOf(bits, |data|)[k] == data[k]
    {
      var rest := bits[8 * k..];
      forall i | 0 <= i < 8
        ensures rest[i] == Bit(data[k], 7 - i)
      {
        assert bits[8 * k + i] == Bits(data)[8 * k + i];
      }
      ByteReadsBack(data[k], rest);
    }
  }

  // ---------- The reader ----------

  /**
   The segments in a symbol q, for a reader that knows the function modules f,
   the mask and the layout of the codewords: it unmasks, reads the codeword
   modules in scan order, puts the blocks of the data together and reads the
   segments from them.
   */
  function ReadSymbol(q: seq<bool>, f: seq<bool>, side: nat, mask: nat, l: Layout, version: nat): seq<Item>
    requires IsSide(side) && |f| == |q| == side * side && mask < 8 && 1 <= version <= 40
    requires l.Valid() && 8 * l.rawCodewords <= FreeBefore(f, side, ScanLength(side))
  {
    var scanned := ReadBack(Masked(f, q, side, mask, side * side), f, side, ScanLength(side));
    ReadItems(Bits(ReadBlocks(l, BytesOf(scanned, l.rawCodewords), l.numBlocks)), version)
  }

  /** Two symbols are the same outside the function modules f. */
  ghost predicate SameCodewords(f: seq<bool>, q: seq<bool>, r: seq<bool>) {
    |q| == |r| == |f| && forall k :: 0 <= k < |f| && !f[k] ==> q[k] == r[k]
  }

  lemma MaskKeepsSame(f: seq<bool>, q: seq<bool>, r: seq<bool>, side: nat, mask: nat)
    requires |f| == |q| == |r| == side * side && mask < 8 && SameCodewords(f, q, r)
    ensures SameCodewords(f, Masked(f, q, side, mask, side * side), Masked(f, r, side, mask, side * side))
  {
    hide InPicture, CellAt;
  }

  lemma PlacedAt(v: seq<bool>, side: nat, bits: seq<bool>, n: nat)
    requires IsSide(side) && |v| == side * side && n <= ScanLength(side)
    ensures forall k: nat :: k < side * side ==> PlacedView(v, side, bits, n)[k] == Placed(v, side, bits, n, k)
  {
    hide IsSide, ScanLength, Placed;
  }

  /** The codewords of a stream, placed and masked, are scanned again, however the function modules look. */
  lemma StreamScansBack(f: seq<bool>, q: seq<bool>, side: nat, stream: seq<bv8>, mask: nat)
    requires IsSide(side) && |f| == side * side && mask < 8 && 8 * |stream| <= FreeBefore(f, side, ScanLength(side))
    requires SameCodewords(f, q,
      Masked(f, PlacedView(f, side, Bits(stream), ScanLength(side)), side, mask, side * side))
    ensures BytesOf(ReadBack(Masked(f, q, side, mask, side * side), f, side, ScanLength(side)), |stream|) == stream
  {
    hide IsSide, ScanLength, FreeBefore, ReadBack, Masked, Placed, PlacedView, Bits, BytesOf;
    var bits, n := Bits(stream), ScanLength(side);
    var placed, w := PlacedView(f, side, bits, n), Masked(f, q, side, mask, side * side);
    MaskKeepsSame(f, q, Masked(f, placed, side, mask, side * side), side, mask);
    MaskUndoesItself(f, placed, side, mask);
    PlacedAt(f, side, bits, n);
    BitsReadBack(w, f, side, bits, n);
    BytesReadBack(stream, ReadBack(w, f, side, n));
  }

  lemma WholeBytes(n: nat)
    ensures 8 * n % 8 == 0
  {}

  /** The segments that a symbol was made of, encoded in the data codewords of a layout. */
  ghost predicate Encodes(data: seq<bv8>, items: seq<Item>, version: nat)
    requires 1 <= version <= 40
  {
    WholeBytes(|data|);
    |StreamBits(items, version)| <= 8 * |data|
    && Bits(data) == StreamBits(items, version) + Tail(8 * |data|, |StreamBits(items, version)|)
  }

  /** The symbol of a list of segments reads back as these segments, however its function modules look. */
  lemma SymbolReadsBack(items: seq<Item>, version: nat, data: seq<bv8>, l: Layout, f: seq<bool>, q: seq<bool>,
                        side: nat, mask: nat)
    requires 1 <= version <= 40 && forall k :: 0 <= k < |items| ==> IsReadable(items[k], version)
    requires l.Valid() && |data| == l.DataLen() && Encodes(data, items, version)
    requires IsSide(side) && |f| == side * side && mask < 8
      && 8 * l.rawCodewords <= FreeBefore(f, side, ScanLength(side))
    requires SameCodewords(f, q,
      Masked(f, PlacedView(f, side, Bits(Interleaved(l, data)), ScanLength(side)), side, mask, side * side))
    ensures ReadSymbol(q, f, side, mask, l, version) == items
  {
    hide IsSide, ScanLength, FreeBefore, ReadBack, Masked, PlacedView, Interleaved, ReadBlocks, Bits, BytesOf,
      IsReadable, ReadItems, Layout.Valid, Layout.DataLen, Encodes, SameCodewords;
    StreamScansBack(f, q, side, Interleaved(l, data), mask);
    InterleavingIsReversible(l, data);
    DataReadsBack(items, version, data);
  }

  lemma DataReadsBack(items: seq<Item>, version: nat, data: seq<bv8>)
    requires 1 <= version <= 40 && forall k :: 0 <= k < |items| ==> IsReadable(items[k], version)
    requires Encodes(data, items, version)
    ensures ReadItems(Bits(data), version) == items
  {
    hide IsReadable, ReadItems, StreamBits, Bits, Tail;
    PaddedStreamReadsBack(items, version, 8 * |data|);
  }

  // ---------- Texts ----------

  /** A text of one byte per character. */
  predicate IsByteText(text: string) {
    forall k :: 0 <= k < |text| ==> text[k] as int < 256
  }

  /** The text that a segment stands for. */
  function ItemText(item: Item): string {
    match item.mode
    case NumericMode =>
      if |item.payload| < PackedLength(Numeric, item.numChars) then ""
      else DigitText(Unpack(Numeric, item.payload, item.numChars))
    case AlphanumericMode =>
      if |item.payload| < PackedLength(Alphanumeric, item.numChars) then ""
      else CharText(Unpack(Alphanumeric, item.payload, item.numChars))
    case ByteMode => if |item.payload| < 8 * item.numChars then "" else ByteText(item.payload, item.numChars)
    case _ => ""
  }

  function ItemsText(items: seq<Item>): string {
    if items == [] then "" else ItemText(items[0]) + ItemsText(items[1..])
  }

  function DigitText(values: seq<nat>): string {
    seq(|values|, k requires 0 <= k < |values| => if values[k] < 10 then '0' + values[k] as char else '?')
  }

  function CharText(values: seq<nat>): string {
    seq(|values|, k requires 0 <= k < |values| =>
      if values[k] < |ALPHANUMERIC_CHARSET| then ALPHANUMERIC_CHARSET[values[k]] else '?')
  }

  function ByteText(bits: seq<bool>, n: nat): string
    requires 8 * n <= |bits|
  {
    seq(n, k requires 0 <= k < n =>
      var v := BitsValue(bits[8 * k..8 * k + 8]);
      if v < 256 then v as char else '?')
  }

  /** The code of a character as a byte. */
  function CharByte(c: char): bv8 {
    ByteWith(ValueBits(c as nat, 8), 8)
  }

  function TextMode(text: string): Mode {
    if IsNumeric(text) then NumericMode else if IsAlphanumeric(text) then AlphanumericMode else ByteMode
  }

  /** The payload of a text, in the mode that is chosen for it. */
  function TextPayload(text: string): seq<bool>
    requires IsByteText(text)
  {
    if IsNumeric(text) then Pack(Numeric, DigitValues(text))
    else if IsAlphanumeric(text) then Pack(Alphanumeric, CharValues(text))
    else Bits(TextBytes(text))
  }

  function TextBytes(text: string): (data: seq<bv8>)
    requires IsByteText(text)
    ensures |data| == |text|
  {
    seq(|text|, k requires 0 <= k < |text| => CharByte(text[k]))
  }

  /** The segments of a text: none for the empty one. */
  function TextItems(text: string): seq<Item>
    requires IsByteText(text)
  {
    if text == "" then [] else [Item(TextMode(text), |text|, TextPayload(text))]
  }

  lemma PackedReadsBack(p: Packing, values: seq<nat>)
    requires AllBelow(values, p.Base())
    ensures |Pack(p, values)| == PackedLength(p, |values|) && Unpack(p, Pack(p, values), |values|) == values
  {
    hide Pack, Unpack, PackedLength;
    PackedLengthIsExact(p, values);
    PackRoundTrip(p, values, []);
    assert Pack(p, values) + [] == Pack(p, values);
  }

  lemma ByteTextReadsBack(text: string)
    requires IsByteText(text)
    ensures ByteText(Bits(TextBytes(text)), |text|) == text
  {
    hide Bit, BitsValue, CharByte;
    var bits := Bits(TextBytes(text));
    forall k | 0 <= k < |text|
      ensures BitsValue(bits[8 * k..8 * k + 8]) == text[k] as nat
    {
      var code := ValueBits(text[k] as nat, 8);
      forall i | 0 <= i < 8
        ensures bits[8 * k..8 * k + 8][i] == code[i]
      {
        assert bits[8 * k + i] == Bit(CharByte(text[k]), 7 - i);
        CharBits(text[k], i);
      }
      assert bits[8 * k..8 * k + 8] == code;
      CodeReadsBack(text[k] as nat);
    }
  }

  lemma CharBits(c: char, i: nat)
    requires i < 8
    ensures Bit(CharByte(c), 7 - i) == ValueBits(c as nat, 8)[i]
  {
    hide Bit, ByteWith, ValueBits;
    BitOfByteWith(ValueBits(c as nat, 8), 8, i);
  }

  lemma CodeReadsBack(code: nat)
    requires code < 256
    ensures BitsValue(ValueBits(code, 8)) == code
  {
    hide ValueBits, BitsValue;
    assert Pow2(4) == 16 && Pow2(8) == 256;
    ValueRoundTrip(code, 8);
  }

  /** The segments of a text stand for it, and have the lengths that a reader works out. */
  lemma TextReadsBack(text: string, version: nat)
    requires IsByteText(text) && 1 <= version <= 40
    ensures ItemsText(TextItems(text)) == text
    ensures text != "" && |text| < Pow2(TextMode(text).CountBits(version)) ==> IsReadable(TextItems(text)[0], version)
  {
    hide Pack, Unpack, PackedLength, IsNumeric, IsAlphanumeric, Bits, BytesOf, Mode.CountBits, DigitText, CharText,
      ByteText, DigitValues, CharValues, TextBytes;
    if text != "" {
      var items := TextItems(text);
      assert items[1..] == [] && ItemsText(items) == ItemText(items[0]) + "";
      if IsNumeric(text) {
        PackedReadsBack(Numeric, DigitValues(text));
        DigitsReadBack(text);
      } else if IsAlphanumeric(text) {
        PackedReadsBack(Alphanumeric, CharValues(text));
        CharsReadBack(text);
      } else {
        ByteTextReadsBack(text);
      }
    }
  }

  lemma DigitsReadBack(text: string)
    requires IsNumeric(text)
    ensures DigitText(DigitValues(text)) == text
  {}

  lemma CharsReadBack(text: string)
    requires IsAlphanumeric(text)
    ensures CharText(CharValues(text)) == text
  {
    hide Find;
  }
}
