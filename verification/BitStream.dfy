/** Concatenating segments, padding the stream, and reading it back. */
module BitStream {
  import opened Wrappers
  import opened PackedBits
  import opened Segments

  /** A segment as a reader sees it. */
  datatype Item = Item(mode: Mode, numChars: nat, payload: seq<bool>)

  function ItemBits(item: Item, version: nat): seq<bool>
    requires 1 <= version <= 40
  {
    ValueBits(item.mode.Indicator(), 4) + ValueBits(item.numChars, item.mode.CountBits(version)) + item.payload
  }

  function StreamBits(items: seq<Item>, version: nat): seq<bool>
    requires 1 <= version <= 40
  {
    if items == [] then [] else ItemBits(items[0], version) + StreamBits(items[1..], version)
  }

  function Zeros(n: nat): (z: seq<bool>)
    ensures |z| == n
  {
    seq(n, _ => false)
  }

  /** Bytes 0xEC and 0x11 in turn. */
  function PadBytes(n: nat, first: nat): (bits: seq<bool>)
    ensures |bits| == 8 * n
  {
    if n == 0 then [] else ValueBits(first, 8) + PadBytes(n - 1, NextPad(first))
  }

  /** XOR with 0xEC ^ 0x11, which exchanges the two pad bytes. */
  function NextPad(padByte: nat): nat {
    if padByte == 0xEC then 0x11 else 0xEC
  }

  function TerminatorBits(capacity: nat, used: nat): nat
    requires used <= capacity
  {
    if capacity - used > 4 then 4 else capacity - used
  }

  /** The zero bits that complete a byte. */
  function Fill(used: nat): nat {
    (8 - used % 8) % 8
  }

  lemma FillAligns(used: nat, capacity: nat)
    requires used <= capacity && capacity % 8 == 0
    ensures used + Fill(used) <= capacity && (capacity - (used + Fill(used))) % 8 == 0
  {}

  /** What stands behind the segments: terminator, zeros up to a byte, pad bytes. */
  function Tail(capacity: nat, used: nat): (tail: seq<bool>)
    requires used <= capacity && capacity % 8 == 0
    ensures |tail| == capacity - used
  {
    var t := TerminatorBits(capacity, used);
    var fill := Fill(used + t);
    FillAligns(used + t, capacity);
    Zeros(t) + Zeros(fill) + PadBytes((capacity - (used + t + fill)) / 8, 0xEC)
  }

  /** Bit i of pad byte k: 1110 1100 and 0001 0001 in turn. */
  predicate PadBit(k: nat, i: nat)
    requires i < 8
  {
    if k % 2 == 0 then "11101100"[i] == '1' else "00010001"[i] == '1'
  }

  lemma PadByteBits(first: nat, i: nat)
    requires first in {0xEC, 0x11} && i < 8
    ensures ValueBits(first, 8)[i] == PadBit(if first == 0xEC then 0 else 1, i)
  {
    if first == 0xEC {
      BitsOfEC();
    } else {
      BitsOf11();
    }
  }

  lemma BitsOfEC()
    ensures ValueBits(0xEC, 8) == [true, true, true, false, true, true, false, false]
  {
    assert ValueBits(0xE, 4) == [true, true, true, false];
  }

  lemma BitsOf11()
    ensures ValueBits(0x11, 8) == [false, false, false, true, false, false, false, true]
  {
    assert ValueBits(1, 4) == [false, false, false, true];
  }

  lemma {:induction false} PadBytesAt(n: nat, first: nat, i: nat)
    requires first in {0xEC, 0x11} && i < 8 * n
    ensures PadBytes(n, first)[i] == PadBit(i / 8 + if first == 0xEC then 0 else 1, i % 8)
  {
    hide ValueBits, PadBit;
    if i < 8 {
      PadByteBits(first, i);
    } else {
      PadBytesAt(n - 1, NextPad(first), i - 8);
      SamePad(i / 8 - 1 + if first == 0xEC then 1 else 0, i / 8 + if first == 0xEC then 0 else 1, i % 8);
    }
  }

  lemma SamePad(j: nat, k: nat, i: nat)
    requires i < 8 && j % 2 == k % 2
    ensures PadBit(j, i) == PadBit(k, i)
  {}

  /** Where the pad bytes begin: the first whole byte behind the terminator, which ends at the capacity at most. */
  predicate PadStart(capacity: nat, used: nat, start: nat) {
    var end := if used + 4 <= capacity then used + 4 else capacity;
    start % 8 == 0 && end <= start < end + 8
  }

  /** Behind the segments there are zeros up to the pad bytes, and these are 0xEC and 0x11 in turn. */
  lemma TailAt(capacity: nat, used: nat, start: nat, i: nat)
    requires used <= capacity && capacity % 8 == 0 && PadStart(capacity, used, start) && i < capacity - used
    ensures Tail(capacity, used)[i] == (used + i >= start && PadBit((used + i - start) / 8, (used + i) % 8))
  {
    hide PadBytes, PadBit, PadStart, Tail, Zeros;
    TailParts(capacity, used, start);
    if used + i >= start {
      PadBytesAt((capacity - start) / 8, 0xEC, used + i - start);
      SameColumn(used + i, start);
    } else {
      ZerosAt(start - used, i);
    }
  }

  lemma ZerosAt(n: nat, i: nat)
    requires i < n
    ensures !Zeros(n)[i]
  {}

  lemma SameColumn(p: nat, start: nat)
    requires start % 8 == 0 && start <= p
    ensures p % 8 == (p - start) % 8
  {}

  lemma TailParts(capacity: nat, used: nat, start: nat)
    requires used <= capacity && capacity % 8 == 0 && PadStart(capacity, used, start)
    ensures used <= start <= capacity && (capacity - start) % 8 == 0
    ensures Tail(capacity, used) == Zeros(start - used) + PadBytes((capacity - start) / 8, 0xEC)
  {
    hide PadBytes, Fill;
    var t := TerminatorBits(capacity, used);
    FillAligns(used + t, capacity);
    FillIs(used + t, start);
    assert Zeros(t) + Zeros(start - used - t) == Zeros(start - used);
  }

  lemma FillIs(end: nat, start: nat)
    requires start % 8 == 0 && end <= start < end + 8
    ensures Fill(end) == start - end
  {}

  // ---------- Reading the stream ----------

  /** The length of an ECI designator, told by its first bits. */
  function EciLength(bits: seq<bool>): nat {
    if |bits| < 3 then 0 else if !bits[0] then 8 else if !bits[1] then 16 else if !bits[2] then 24 else 0
  }

  function PayloadLength(mode: Mode, numChars: nat, bits: seq<bool>): nat {
    match mode
    case NumericMode => PackedLength(Numeric, numChars)
    case AlphanumericMode => PackedLength(Alphanumeric, numChars)
    case ByteMode => 8 * numChars
    case KanjiMode => 13 * numChars
    case EciMode => EciLength(bits)
  }

  function ModeOf(indicator: nat): Option<Mode> {
    match indicator
    case 1 => Some(NumericMode) case 2 => Some(AlphanumericMode) case 4 => Some(ByteMode)
    case 8 => Some(KanjiMode) case 7 => Some(EciMode) case _ => None
  }

  /** Reads segments until a terminator, an unknown mode or the end of the bits. */
  function ReadItems(bits: seq<bool>, version: nat): seq<Item>
    requires 1 <= version <= 40
    decreases |bits|
  {
    if |bits| < 4 then [] else
    match ModeOf(BitsValue(bits[..4]))
    case None => []
    case Some(mode) =>
      var start := 4 + mode.CountBits(version);
      if |bits| < start then [] else
      var numChars := BitsValue(bits[4..start]);
      var end := start + PayloadLength(mode, numChars, bits[start..]);
      if |bits| < end then [] else
      [Item(mode, numChars, bits[start..end])] + ReadItems(bits[end..], version)
  }

  /** The count fits its field and the payload has the length the reader will work out. */
  predicate IsReadable(item: Item, version: nat)
    requires 1 <= version <= 40
  {
    item.numChars < Pow2(item.mode.CountBits(version))
    && |item.payload| == PayloadLength(item.mode, item.numChars, item.payload)
    && (item.mode.EciMode? ==> 8 <= |item.payload|)
  }

  lemma {:induction false} ItemsReadBack(items: seq<Item>, version: nat, tail: seq<bool>)
    requires 1 <= version <= 40
    requires forall k :: 0 <= k < |items| ==> IsReadable(items[k], version)
    requires forall k :: 0 <= k < |tail| && k < 4 ==> !tail[k]
    ensures ReadItems(StreamBits(items, version) + tail, version) == items
    decreases |items|
  {
    hide ReadItems, IsReadable, ItemBits;
    if items == [] {
      NothingReads(tail, version);
      assert StreamBits(items, version) + tail == tail;
    } else {
      var item := items[0];
      var rest := StreamBits(items[1..], version) + tail;
      var bits := StreamBits(items, version) + tail;
      ItemReadsBack(item, version, rest);
      assert bits == ItemBits(item, version) + rest;
      ItemsReadBack(items[1..], version, tail);
    }
  }

  lemma NothingReads(tail: seq<bool>, version: nat)
    requires 1 <= version <= 40
    requires forall k :: 0 <= k < |tail| && k < 4 ==> !tail[k]
    ensures ReadItems(tail, version) == []
  {
    hide BitsValue;
    NoMode(tail);
  }

  lemma NoMode(tail: seq<bool>)
    requires forall k :: 0 <= k < |tail| && k < 4 ==> !tail[k]
    ensures |tail| >= 4 ==> BitsValue(tail[..4]) == 0
  {
    if |tail| >= 4 { ZerosValue(tail[..4]); }
  }

  lemma {:induction false} ZerosValue(bits: seq<bool>)
    requires forall k :: 0 <= k < |bits| ==> !bits[k]
    ensures BitsValue(bits) == 0
  {
    if bits != [] { ZerosValue(bits[..|bits| - 1]); }
  }

  lemma ItemReadsBack(item: Item, version: nat, rest: seq<bool>)
    requires 1 <= version <= 40 && IsReadable(item, version)
    ensures ReadItems(ItemBits(item, version) + rest, version) == [item] + ReadItems(rest, version)
  {
    hide Mode.CountBits, ValueBits, BitsValue, PackedLength;
    var bits := ItemBits(item, version) + rest;
    var cc := item.mode.CountBits(version);
    assert Pow2(4) == 16;
    ValueRoundTrip(item.mode.Indicator(), 4);
    ValueRoundTrip(item.numChars, cc);
    assert bits[..4] == ValueBits(item.mode.Indicator(), 4);
    assert bits[4..4 + cc] == ValueBits(item.numChars, cc);
    assert bits[4 + cc..] == item.payload + rest;
    assert ModeOf(item.mode.Indicator()) == Some(item.mode);
    assert PayloadLength(item.mode, item.numChars, item.payload + rest) == |item.payload|;
    assert bits[4 + cc..4 + cc + |item.payload|] == item.payload;
    assert bits[4 + cc + |item.payload|..] == rest;
  }

  /** The padded stream reads back as the segments that went in, terminator or not. */
  lemma PaddedStreamReadsBack(items: seq<Item>, version: nat, capacity: nat)
    requires 1 <= version <= 40 && capacity % 8 == 0
    requires forall k :: 0 <= k < |items| ==> IsReadable(items[k], version)
    requires |StreamBits(items, version)| <= capacity
    ensures var stream := StreamBits(items, version) + Tail(capacity, |StreamBits(items, version)|);
      |stream| == capacity && ReadItems(stream, version) == items
  {
    ItemsReadBack(items, version, Tail(capacity, |StreamBits(items, version)|));
  }

  // ---------- The loops of the encoder ----------

  /** A segment as the encoder is given it: the payload is the first bitLength bits of data. */
  datatype Segment = Segment(mode: Mode, numChars: nat, data: array<bv8>, bitLength: nat) {
    ghost function AsItem(): Item
      requires bitLength <= 8 * data.Length
      reads data
    {
      Item(mode, numChars, Bits(data[..])[..bitLength])
    }
  }

  ghost predicate AllStored(segs: seq<Segment>, qrcode: array<bv8>) {
    forall k :: 0 <= k < |segs| ==> segs[k].bitLength <= 8 * segs[k].data.Length && segs[k].data != qrcode
  }

  ghost function Datas(segs: seq<Segment>): set<array<bv8>> {
    set k | 0 <= k < |segs| :: segs[k].data
  }

  ghost function Items(segs: seq<Segment>): (items: seq<Item>)
    requires forall k :: 0 <= k < |segs| ==> segs[k].bitLength <= 8 * segs[k].data.Length
    reads Datas(segs)
    ensures |items| == |segs|
  {
    seq(|segs|, k requires 0 <= k < |segs| reads Datas(segs)
                  requires forall k :: 0 <= k < |segs| ==> segs[k].bitLength <= 8 * segs[k].data.Length
                  => segs[k].AsItem())
  }

  /** The bits of the first n segments. */
  function SumBits(segs: seq<Segment>, version: nat, n: nat): nat
    requires 1 <= version <= 40 && n <= |segs|
  {
    if n == 0 then 0
    else SumBits(segs, version, n - 1) + 4 + segs[n - 1].mode.CountBits(version) + segs[n - 1].bitLength
  }

  lemma SumBitsGrows(segs: seq<Segment>, version: nat, m: nat, n: nat)
    requires 1 <= version <= 40 && m <= n <= |segs|
    ensures SumBits(segs, version, m) <= SumBits(segs, version, n)
  {}

  /**
   The number of bits the segments need, or -1 exactly if some segment's
   length does not fit its field or the sum exceeds 32767.
   */
  method GetTotalBits(segs: seq<Segment>, version: nat) returns (result: int)
    requires 1 <= version <= 40
    ensures result == -1 <==>
      SumBits(segs, version, |segs|) > INT16_MAX
      || exists k :: 0 <= k < |segs| && segs[k].numChars >= Pow2(segs[k].mode.CountBits(version))
    ensures result != -1 ==> result == SumBits(segs, version, |segs|)
  {
    hide Mode.CountBits;
    result := 0;
    for i := 0 to |segs|
      invariant 0 <= result == SumBits(segs, version, i) <= INT16_MAX
      invariant forall k :: 0 <= k < i ==> segs[k].numChars < Pow2(segs[k].mode.CountBits(version))
    {
      var ccbits := segs[i].mode.CountBits(version);
      if segs[i].numChars >= Pow2(ccbits) {
        return -1;
      }
      result := result + 4 + ccbits + segs[i].bitLength;
      SumBitsGrows(segs, version, i + 1, |segs|);
      if result > INT16_MAX {
        return -1;
      }
    }
  }

  lemma {:induction false} StreamBitsSnoc(items: seq<Item>, item: Item, version: nat)
    requires 1 <= version <= 40
    ensures StreamBits(items + [item], version) == StreamBits(items, version) + ItemBits(item, version)
  {
    if items == [] {
      assert items + [item] == [item] && [item][1..] == [];
    } else {
      assert (items + [item])[1..] == items[1..] + [item];
      StreamBitsSnoc(items[1..], item, version);
    }
  }

  lemma {:induction false} SumBitsIsLength(segs: seq<Segment>, version: nat, n: nat)
    requires 1 <= version <= 40 && n <= |segs|
    requires forall k :: 0 <= k < |segs| ==> segs[k].bitLength <= 8 * segs[k].data.Length
    ensures |StreamBits(Items(segs)[..n], version)| == SumBits(segs, version, n)
  {
    if n > 0 {
      SumBitsIsLength(segs, version, n - 1);
      assert Items(segs)[..n] == Items(segs)[..n - 1] + [Items(segs)[n - 1]];
      StreamBitsSnoc(Items(segs)[..n - 1], Items(segs)[n - 1], version);
    }
  }

  /** Appends a value behind the content that the buffer carries. */
  method AppendValue(val: nat, numBits: nat, buffer: array<bv8>, bitLen: nat,
                     ghost content: seq<bool>, ghost limit: nat)
    returns (newLen: nat)
    requires numBits <= 16 && val < Pow2(numBits) && bitLen == |content| && bitLen + numBits <= limit
    requires Carries(Bits(buffer[..]), limit, content)
    modifies buffer
    ensures newLen == bitLen + numBits
    ensures Carries(Bits(buffer[..]), limit, content + ValueBits(val, numBits))
  {
    hide Carries, Bits, Ored, ValueBits;
    CarriesFits(Bits(buffer[..]), limit, content);
    CarriesMore(Bits(buffer[..]), limit, content, ValueBits(val, numBits));
    newLen := AppendBitsToBuffer(val, numBits, buffer, bitLen);
  }

  /** The body of the concatenation loop: mode, count, then the payload bit by bit. */
  method AppendSegment(seg: Segment, version: nat, qrcode: array<bv8>, bitLen: nat,
                       ghost content: seq<bool>, ghost limit: nat)
    returns (newLen: nat)
    requires 1 <= version <= 40 && seg.data != qrcode && seg.bitLength <= 8 * seg.data.Length
    requires seg.numChars < Pow2(seg.mode.CountBits(version)) && bitLen == |content|
    requires bitLen + 4 + seg.mode.CountBits(version) + seg.bitLength <= limit
    requires Carries(Bits(qrcode[..]), limit, content)
    modifies qrcode
    ensures newLen == bitLen + 4 + seg.mode.CountBits(version) + seg.bitLength
    ensures Carries(Bits(qrcode[..]), limit, content + ItemBits(seg.AsItem(), version))
  {
    hide Carries, Ored, ValueBits, Bits, Mode.CountBits;
    var ccbits := seg.mode.CountBits(version);
    CountBitsSmall(seg.mode, version);
    ghost var c := content;
    newLen := AppendValue(seg.mode.Indicator(), 4, qrcode, bitLen, c, limit);
    c := c + ValueBits(seg.mode.Indicator(), 4);
    newLen := AppendValue(seg.numChars, ccbits, qrcode, newLen, c, limit);
    c := c + ValueBits(seg.numChars, ccbits);
    newLen := AppendPayload(seg, qrcode, newLen, c, limit);
    assert c + Bits(seg.data[..])[..seg.bitLength] == content + ItemBits(seg.AsItem(), version);
  }

  /** The payload of a segment, bit by bit. */
  method AppendPayload(seg: Segment, qrcode: array<bv8>, bitLen: nat, ghost content: seq<bool>, ghost limit: nat)
    returns (newLen: nat)
    requires seg.data != qrcode && seg.bitLength <= 8 * seg.data.Length
    requires bitLen == |content| && bitLen + seg.bitLength <= limit && Carries(Bits(qrcode[..]), limit, content)
    modifies qrcode
    ensures newLen == bitLen + seg.bitLength
    ensures Carries(Bits(qrcode[..]), limit, content + Bits(seg.data[..])[..seg.bitLength])
  {
    hide Carries, Ored, ValueBits, Bit;
    ghost var payload := Bits(seg.data[..]);
    newLen := bitLen;
    assert content + payload[..0] == content;
    for j := 0 to seg.bitLength
      invariant newLen == bitLen + j
      invariant Carries(Bits(qrcode[..]), limit, content + payload[..j])
    {
      var bit := if Bit(seg.data[j / 8], 7 - j % 8) then 1 else 0;
      OneBit(bit);
      assert payload[j] == (bit == 1);
      OneMore(content, payload, j);
      newLen := AppendValue(bit, 1, qrcode, newLen, content + payload[..j], limit);
    }
  }

  lemma OneMore(content: seq<bool>, payload: seq<bool>, j: nat)
    requires j < |payload|
    ensures content + payload[..j + 1] == content + payload[..j] + [payload[j]]
  {}

  lemma OneBit(bit: nat)
    requires bit < 2
    ensures bit < Pow2(1) && ValueBits(bit, 1) == [bit == 1]
  {
    assert ValueBits(bit / 2, 0) == [];
    assert Pow2(1) == 2 * Pow2(0);
  }

  lemma CountBitsSmall(mode: Mode, version: nat)
    requires 1 <= version <= 40
    ensures mode.CountBits(version) <= 16 && mode.Indicator() < Pow2(4)
  {
    assert Pow2(4) == 16;
  }

  /** The padding loop: pad bytes behind a whole number of bytes, up to the capacity. */
  method AppendPadBytes(capacity: nat, qrcode: array<bv8>, bitLen: nat, ghost content: seq<bool>, ghost limit: nat)
    requires bitLen == |content| <= capacity <= limit && (capacity - bitLen) % 8 == 0
    requires Carries(Bits(qrcode[..]), limit, content)
    modifies qrcode
    ensures Carries(Bits(qrcode[..]), limit, content + PadBytes((capacity - bitLen) / 8, 0xEC))
  {
    hide Carries, Ored, ValueBits, Bits;
    var n, padByte := bitLen, 0xEC;
    ghost var total := (capacity - bitLen) / 8;
    ghost var k, done := 0, [];
    assert content + done == content;
    PadByteFits();
    while n < capacity
      invariant k <= total && n == bitLen + 8 * k && padByte in {0xEC, 0x11}
      invariant |done| == 8 * k && done + PadBytes(total - k, padByte) == PadBytes(total, 0xEC)
      invariant Carries(Bits(qrcode[..]), limit, content + done)
    {
      n := AppendValue(padByte, 8, qrcode, n, content + done, limit);
      ghost var next := done + ValueBits(padByte, 8);
      assert content + done + ValueBits(padByte, 8) == content + next;
      assert next + PadBytes(total - k - 1, NextPad(padByte)) == done + PadBytes(total - k, padByte);
      padByte, k, done := NextPad(padByte), k + 1, next;
    }
    assert done == PadBytes(total, 0xEC);
  }

  lemma PadByteFits()
    ensures 0xEC < Pow2(8) && 0x11 < Pow2(8)
  {
    assert Pow2(4) == 16;
  }

  /** Terminator, zeros up to a byte, then pad bytes up to the capacity. */
  method PadStream(capacity: nat, qrcode: array<bv8>, bitLen: nat, ghost content: seq<bool>, ghost limit: nat)
    requires bitLen == |content| <= capacity <= limit && capacity % 8 == 0
    requires Carries(Bits(qrcode[..]), limit, content)
    modifies qrcode
    ensures Carries(Bits(qrcode[..]), limit, content + Tail(capacity, |content|))
  {
    hide Carries, Ored, ValueBits, Bits, PadBytes, Zeros;
    var terminatorBits := capacity - bitLen;
    if terminatorBits > 4 {
      terminatorBits := 4;
    }
    FillAligns(bitLen + terminatorBits, capacity);
    ZeroValue(terminatorBits);
    var n := AppendValue(0, terminatorBits, qrcode, bitLen, content, limit);
    var fill := (8 - n % 8) % 8;
    ZeroValue(fill);
    ghost var c := content + Zeros(terminatorBits);
    n := AppendValue(0, fill, qrcode, n, c, limit);
    AppendPadBytes(capacity, qrcode, n, c + Zeros(fill), limit);
    assert c + Zeros(fill) + PadBytes((capacity - n) / 8, 0xEC)
        == content + (Zeros(terminatorBits) + Zeros(fill) + PadBytes((capacity - n) / 8, 0xEC));
  }

  lemma ZeroValue(n: nat)
    requires n <= 8
    ensures ValueBits(0, n) == Zeros(n) && 0 < Pow2(n)
  {
    if n > 0 { ZeroValue(n - 1); }
  }

  /**
   Fills the first capacity bits of the buffer with the segments and the
   padding, as the encoder does once a version with room for them is chosen.
   */
  method EncodeStream(segs: seq<Segment>, version: nat, capacity: nat, bufferLen: nat, qrcode: array<bv8>)
    requires 1 <= version <= 40 && capacity % 8 == 0 && capacity <= 8 * bufferLen && bufferLen <= qrcode.Length
    requires AllStored(segs, qrcode)
    requires SumBits(segs, version, |segs|) <= capacity
    requires forall k :: 0 <= k < |segs| ==> segs[k].numChars < Pow2(segs[k].mode.CountBits(version))
    modifies qrcode
    ensures |StreamBits(old(Items(segs)), version)| <= capacity
    ensures Carries(Bits(qrcode[..]), 8 * bufferLen,
      StreamBits(old(Items(segs)), version) + Tail(capacity, |StreamBits(old(Items(segs)), version)|))
  {
    hide Carries, Bits, ItemBits, Mode.CountBits, Tail;
    ghost var items := Items(segs);
    ClearBytes(qrcode, bufferLen);
    var bitLen := 0;
    assert items[..0] == [];
    for i := 0 to |segs|
      invariant Items(segs) == items
      invariant bitLen == SumBits(segs, version, i) == |StreamBits(items[..i], version)|
      invariant Carries(Bits(qrcode[..]), 8 * bufferLen, StreamBits(items[..i], version))
    {
      SumBitsGrows(segs, version, i + 1, |segs|);
      assert items[i] == segs[i].AsItem() && items[..i + 1] == items[..i] + [items[i]];
      StreamBitsSnoc(items[..i], items[i], version);
      SumBitsIsLength(segs, version, i + 1);
      bitLen := AppendSegment(segs[i], version, qrcode, bitLen, StreamBits(items[..i], version), 8 * bufferLen);
    }
    assert items[..|segs|] == items;
    PadStream(capacity, qrcode, bitLen, StreamBits(items, version), 8 * bufferLen);
  }
}
