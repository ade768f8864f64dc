/**
 The symbol generator from a text or a list of segments to the masked modules:
 the choice of version, error correction level and mask, and all stages in
 turn.
 */
module SymbolEncoder {
  import opened GridIndexing
  import opened Wrappers
  import opened PackedBits
  import opened Interleave
  import opened Segments
  import opened BitStream
  import opened ModuleGrid
  import opened CodewordPlacement
  import opened SymbolReader

  const HIGH: nat := 3

  predicate IsVersion(version: nat) {
    1 <= version <= 40
  }

  function SideOf(version: nat): nat {
    4 * version + 17
  }

  function BufferLen(version: nat): (n: nat)
    ensures n >= 1
  {
    (SideOf(version) * SideOf(version) + 7) / 8 + 1
  }

  /**
   What depends on the version alone: the layout of the codewords at each
   error correction level, and the grid in which exactly the function modules
   are black; and the penalty score of modules, once a level and a mask are
   drawn into them.
   */
  datatype Tables = Tables(layout: (nat, nat) -> Layout, functionGrid: nat -> seq<bv8>,
                           penalty: (seq<bool>, nat, nat) -> nat) {

    /** The codewords of a version fit in the buffers and in the modules outside the function modules. */
    ghost predicate Valid() {
      forall version, level: nat :: IsVersion(version) && level <= HIGH ==> Fits(version, level)
    }

    predicate Fits(version: nat, level: nat) {
      var (l, g) := (layout(version, level), functionGrid(version));
      l.Valid() && l.rawCodewords <= BufferLen(version) && |g| == BufferLen(version)
      && IsGrid(g) && IsSide(Side(g)) && Side(g) == SideOf(version)
      && 8 * l.rawCodewords <= FreeBefore(View(g), Side(g), ScanLength(Side(g)))
    }

    /** The bits that are there for segments. */
    function Capacity(version: nat, level: nat): int {
      8 * layout(version, level).DataLen()
    }
  }

  // ---------- Such tables exist ----------

  /** The side of a version as a byte. */
  function SideByte(version: nat): bv8
    requires IsVersion(version)
  {
    if version == 1 then 21 else SideByte(version - 1) + 4
  }

  lemma {:induction false} SideByteIsSide(version: nat)
    requires IsVersion(version)
    ensures SideByte(version) as nat == SideOf(version)
  {
    if version > 1 {
      SideByteIsSide(version - 1);
      FourMore(SideByte(version - 1));
    }
  }

  lemma FourMore(b: bv8)
    requires b as nat <= 173
    ensures (b + 4) as nat == b as nat + 4
  {}

  /** A grid without function modules. */
  function WhiteGrid(version: nat): (g: seq<bv8>)
    ensures |g| == BufferLen(version)
  {
    [if IsVersion(version) then SideByte(version) else 0] + seq(BufferLen(version) - 1, _ => 0)
  }

  lemma {:induction false} WhiteIsFree(v: seq<bool>, side: nat, n: nat)
    requires IsSide(side) && |v| == side * side && n <= ScanLength(side) && forall k :: 0 <= k < |v| ==> !v[k]
    ensures FreeBefore(v, side, n) == n
  {
    hide IsSide, ScanLength, ScanIndex;
    if n > 0 {
      WhiteIsFree(v, side, n - 1);
    }
  }

  lemma WhiteGridFits(version: nat)
    requires IsVersion(version)
    ensures var g := WhiteGrid(version);
      IsGrid(g) && IsSide(Side(g)) && Side(g) == SideOf(version)
      && 208 <= FreeBefore(View(g), Side(g), ScanLength(Side(g)))
  {
    hide Bit, FreeBefore, SideByte;
    var g, side := WhiteGrid(version), SideOf(version);
    SideByteIsSide(version);
    RoomForModules(version);
    forall k | 0 <= k < side * side
      ensures !View(g)[k]
    {
      BitOfZero(k % 8);
    }
    WhiteIsFree(View(g), side, ScanLength(side));
  }

  lemma RoomForModules(version: nat)
    requires IsVersion(version)
    ensures var side := SideOf(version);
      side * side / 8 + 1 < BufferLen(version) && 208 <= ScanLength(side) && 26 <= BufferLen(version)
  {
    hide SideOf, ScanLength, BufferLen;
    SquareOfSide(version);
    LongScan(version);
  }

  lemma SquareOfSide(version: nat)
    requires IsVersion(version)
    ensures var side := SideOf(version);
      side * side / 8 + 1 < BufferLen(version) && 26 <= BufferLen(version)
  {
    var side, q := SideOf(version), 2 * (version * version) + 17 * version + 36;
    assert side * side == 8 * q + 1;
  }

  lemma LongScan(version: nat)
    requires IsVersion(version)
    ensures 208 <= ScanLength(SideOf(version))
  {
    RowBelow(9, SideOf(version) / 2, SideOf(version));
  }

  /**
   Tables with the layout of version 1 at the lowest level, 26 codewords of which
   7 are error correction, throughout.
   */
  lemma TablesExist() returns (t: Tables)
    ensures t.Valid()
  {
    hide BufferLen, IsGrid, Side, View, IsSide, FreeBefore, ScanLength, WhiteGrid;
    t := Tables((_, _) => Layout(1, 7, 26), (version: nat) => WhiteGrid(version), (_, _, _) => 0);
    forall version, level: nat | IsVersion(version) && level <= HIGH
      ensures t.Fits(version, level)
    {
      WhiteGridFits(version);
      RoomForModules(version);
    }
  }

  // ---------- The choice of version ----------

  /** The segments can be written in a symbol of the version and level. */
  ghost predicate HasRoom(segs: seq<Segment>, version: nat, level: nat, t: Tables)
    requires IsVersion(version)
  {
    SumBits(segs, version, |segs|) <= INT16_MAX && SumBits(segs, version, |segs|) <= t.Capacity(version, level)
    && forall k :: 0 <= k < |segs| ==> segs[k].numChars < Pow2(segs[k].mode.CountBits(version))
  }

  /** The least version that has room for the segments, and the number of their bits. */
  method ChooseVersion(segs: seq<Segment>, level: nat, minVersion: nat, maxVersion: nat, t: Tables)
    returns (ok: bool, version: nat, dataUsedBits: int)
    requires IsVersion(minVersion) && minVersion <= maxVersion <= 40
    ensures ok <==> exists v :: minVersion <= v <= maxVersion && HasRoom(segs, v, level, t)
    ensures minVersion <= version <= maxVersion
    ensures ok ==>
      HasRoom(segs, version, level, t) && dataUsedBits == SumBits(segs, version, |segs|)
      && forall v :: minVersion <= v < version ==> !HasRoom(segs, v, level, t)
  {
    hide SumBits, Mode.CountBits;
    version := minVersion;
    while true
      invariant minVersion <= version <= maxVersion
      invariant forall v :: minVersion <= v < version ==> !HasRoom(segs, v, level, t)
      decreases maxVersion - version
    {
      var dataCapacityBits := t.Capacity(version, level);
      dataUsedBits := GetTotalBits(segs, version);
      assert HasRoom(segs, version, level, t) <==> dataUsedBits != -1 && dataUsedBits <= dataCapacityBits;
      if dataUsedBits != -1 && dataUsedBits <= dataCapacityBits {
        return true, version, dataUsedBits;
      }
      if version >= maxVersion {
        return false, version, dataUsedBits;
      }
      version := version + 1;
    }
  }

  /** Increases the level while the data still fit in the version. */
  method BoostLevel(level: nat, version: nat, dataUsedBits: int, boost: bool, t: Tables) returns (boosted: nat)
    requires level <= HIGH && dataUsedBits <= t.Capacity(version, level)
    ensures boosted <= HIGH && dataUsedBits <= t.Capacity(version, boosted)
    ensures !boost ==> boosted == level
    ensures boost ==> forall i :: boosted < i <= HIGH ==> dataUsedBits > t.Capacity(version, i)
  {
    boosted := level;
    for i := 1 to HIGH + 1
      invariant boosted <= HIGH && dataUsedBits <= t.Capacity(version, boosted)
      invariant !boost ==> boosted == level
      invariant boost ==> forall j :: boosted < j < i ==> dataUsedBits > t.Capacity(version, j)
    {
      if boost && dataUsedBits <= t.Capacity(version, i) {
        boosted := i;
      }
    }
  }

  // ---------- The stages ----------

  /** The modules of a symbol with the segments' codewords, masked; its function modules are black. */
  ghost predicate IsSymbol(v: seq<bool>, items: seq<Item>, version: nat, level: nat, mask: nat, t: Tables)
    requires t.Valid() && IsVersion(version) && level <= HIGH && mask < 8
  {
    var l := LayoutOf(t, version, level);
    exists data :: |data| == l.DataLen() && Encodes(data, items, version)
      && v == MaskedSymbol(FunctionModules(t, version), SideOf(version), Interleaved(l, data), mask)
  }

  function MaskedSymbol(f: seq<bool>, side: nat, stream: seq<bv8>, mask: nat): (v: seq<bool>)
    requires IsSide(side) && |f| == side * side && mask < 8
    ensures |v| == |f|
  {
    Masked(f, PlacedView(f, side, Bits(stream), ScanLength(side)), side, mask, side * side)
  }

  ghost function LayoutOf(t: Tables, version: nat, level: nat): (l: Layout)
    requires t.Valid() && IsVersion(version) && level <= HIGH
    ensures l == t.layout(version, level) && l.Valid() && 0 <= l.DataLen() <= l.rawCodewords <= BufferLen(version)
    ensures var f, side := FunctionModules(t, version), SideOf(version);
      8 * l.rawCodewords <= FreeBefore(f, side, ScanLength(side))
  {
    assert t.Fits(version, level);
    t.layout(version, level).RoomForEcc();
    t.layout(version, level)
  }

  ghost function FunctionModules(t: Tables, version: nat): (f: seq<bool>)
    requires t.Valid() && IsVersion(version)
    ensures IsSide(SideOf(version)) && |f| == SideOf(version) * SideOf(version)
  {
    assert t.Fits(version, 0);
    View(t.functionGrid(version))
  }

  /**
   A reader that knows the version, the level and the mask finds the segments
   in the symbol, whatever is drawn over its function modules.
   */
  ghost predicate ReadsAs(v: seq<bool>, items: seq<Item>, version: nat, level: nat, mask: nat, t: Tables)
    requires t.Valid() && IsVersion(version) && level <= HIGH && mask < 8
  {
    var f, side := FunctionModules(t, version), SideOf(version);
    forall q: seq<bool> :: SameCodewords(f, q, v) ==>
      ReadSymbol(q, f, side, mask, LayoutOf(t, version, level), version) == items
  }

  /** A symbol reads as its segments. */
  lemma {:induction false} SymbolReads(v: seq<bool>, items: seq<Item>, version: nat, level: nat, mask: nat, t: Tables)
    requires t.Valid() && IsVersion(version) && level <= HIGH && mask < 8 && IsSymbol(v, items, version, level, mask, t)
    requires forall k :: 0 <= k < |items| ==> IsReadable(items[k], version)
    ensures ReadsAs(v, items, version, level, mask, t)
  {
    hide Tables.Fits, Tables.Valid, Encodes, ReadSymbol, IsReadable, Interleaved, Masked, PlacedView, FunctionModules,
      LayoutOf, IsSide, SideOf, FreeBefore, ScanLength, Layout.Valid, Layout.DataLen, Bits;
    var l, f, side := LayoutOf(t, version, level), FunctionModules(t, version), SideOf(version);
    var data :| |data| == l.DataLen() && Encodes(data, items, version)
      && v == MaskedSymbol(f, side, Interleaved(l, data), mask);
    forall q: seq<bool> | SameCodewords(f, q, v)
      ensures ReadSymbol(q, f, side, mask, l, version) == items
    {
      SymbolReadsBack(items, version, data, l, f, q, side, mask);
    }
  }

  lemma GridPrefix(g: seq<bv8>, bytes: seq<bv8>)
    requires IsGrid(g) && g <= bytes
    ensures IsGrid(bytes) && Side(bytes) == Side(g) && View(bytes) == View(g)
  {
    hide Bit;
    assert bytes[0] == g[0];
    forall k: nat | k < Side(g) * Side(g)
      ensures Packed(bytes, k) == Packed(g, k)
    {
      assert bytes[k / 8 + 1] == g[k / 8 + 1];
    }
  }

  /** Puts the grid of function modules into a buffer. */
  method InitializeFunctionModules(t: Tables, version: nat, qr: array<bv8>)
    requires t.Valid() && IsVersion(version) && BufferLen(version) <= qr.Length
    modifies qr
    ensures IsGrid(qr[..]) && Side(qr[..]) == SideOf(version) && View(qr[..]) == FunctionModules(t, version)
  {
    hide IsGrid, Side, View, SideOf, IsSide, BufferLen, FreeBefore, ScanLength;
    var g := t.functionGrid(version);
    assert t.Fits(version, 0);
    forall k | 0 <= k < |g| {
      qr[k] := g[k];
    }
    assert qr[..|g|] == g;
    GridPrefix(g, qr[..]);
  }

  /** Tries all masks on the symbol and leaves it as it was; the first one of the lowest penalty is chosen. */
  method ChooseMask(functionModules: array<bv8>, qr: array<bv8>, level: nat, t: Tables) returns (mask: nat)
    requires functionModules != qr && IsGrid(qr[..]) && IsGrid(functionModules[..])
    requires Side(functionModules[..]) == Side(qr[..])
    modifies qr
    ensures IsGrid(qr[..]) && Side(qr[..]) == old(Side(qr[..])) && View(qr[..]) == old(View(qr[..]))
    ensures mask < 8
    ensures forall m: nat :: m < 8 ==> var f, v, side := View(functionModules[..]), View(qr[..]), Side(qr[..]);
      t.penalty(Masked(f, v, side, mask, side * side), level, mask)
        <= t.penalty(Masked(f, v, side, m, side * side), level, m)
  {
    hide IsGrid, Side, View, Masked;
    SideIsFirst(qr[..]);
    ghost var f, v, side := View(functionModules[..]), View(qr[..]), Side(qr[..]);
    mask := 0;
    var minPenalty := None;
    for i := 0 to 8
      invariant IsGrid(qr[..]) && Side(qr[..]) == side && View(qr[..]) == v
      invariant mask < 8 && (i == 0 <==> minPenalty.None?)
      invariant minPenalty.Some? ==> minPenalty.value == t.penalty(Masked(f, v, side, mask, side * side), level, mask)
      invariant forall m: nat :: m < i ==> minPenalty.value <= t.penalty(Masked(f, v, side, m, side * side), level, m)
    {
      ApplyMask(functionModules, qr, i);
      var penalty := t.penalty(View(qr[..]), level, i);
      if minPenalty.None? || penalty < minPenalty.value {
        mask, minPenalty := i, Some(penalty);
      }
      MaskUndoesItself(f, v, side, i);
      ApplyMask(functionModules, qr, i);
    }
  }

  /** No other mask instead of this one gives the modules v a lower penalty. */
  ghost predicate LowestPenalty(v: seq<bool>, f: seq<bool>, side: nat, level: nat, mask: nat, t: Tables)
    requires |f| == |v| == side * side && mask < 8
  {
    var unmasked := Masked(f, v, side, mask, side * side);
    forall m: nat :: m < 8 ==>
      t.penalty(v, level, mask) <= t.penalty(Masked(f, unmasked, side, m, side * side), level, m)
  }

  /** The buffer carries the codewords of the data and nothing behind them. */
  lemma CarriedData(bytes: seq<bv8>, limit: nat, items: seq<Item>, version: nat, n: nat)
    requires 1 <= version <= 40 && n <= |bytes| && |StreamBits(items, version)| <= 8 * n
    requires 8 * n % 8 == 0
      && Carries(Bits(bytes), limit, StreamBits(items, version) + Tail(8 * n, |StreamBits(items, version)|))
    ensures Encodes(bytes[..n], items, version)
  {
    hide Tail, StreamBits, Bit;
    var stream := StreamBits(items, version) + Tail(8 * n, |StreamBits(items, version)|);
    assert |stream| == 8 * n;
    forall i: nat | i < 8 * n
      ensures Bits(bytes[..n])[i] == stream[i]
    {
      assert Bits(bytes)[..8 * n][i] == stream[i];
    }
    assert Bits(bytes[..n]) == stream;
  }

  /** The stages up to the placed codewords; the function modules are left in the other buffer. */
  method DrawSymbol(segs: seq<Segment>, version: nat, level: nat, t: Tables, tempBuffer: array<bv8>, qrcode: array<bv8>)
    requires t.Valid() && IsVersion(version) && level <= HIGH && tempBuffer != qrcode
    requires BufferLen(version) <= tempBuffer.Length && BufferLen(version) <= qrcode.Length
    requires AllStored(segs, qrcode) && HasRoom(segs, version, level, t)
    modifies tempBuffer, qrcode
    ensures IsGrid(tempBuffer[..]) && Side(tempBuffer[..]) == SideOf(version)
    ensures View(tempBuffer[..]) == FunctionModules(t, version)
    ensures IsGrid(qrcode[..]) && Side(qrcode[..]) == SideOf(version)
    ensures IsPlaced(View(qrcode[..]), old(Items(segs)), version, level, t)
  {
    hide IsGrid, Side, View, SideOf, IsSide, BufferLen, FreeBefore, ScanLength, Interleaved, PlacedView, Bits, Carries,
      Encodes, Tail, StreamBits, SumBits, Mode.CountBits, FunctionModules, LayoutOf, Tables.Fits, Tables.Valid;
    ghost var items := Items(segs);
    var l := t.layout(version, level);
    assert l == LayoutOf(t, version, level);
    var n: nat := l.DataLen();
    WholeBytes(n);
    EncodeStream(segs, version, 8 * n, BufferLen(version), qrcode);
    ghost var data := qrcode[..n];
    CarriedData(qrcode[..], 8 * BufferLen(version), items, version, n);
    AddEccAndInterleave(l, qrcode, tempBuffer);
    InitializeFunctionModules(t, version, qrcode);
    DrawCodewords(tempBuffer, l.rawCodewords, qrcode);
    InitializeFunctionModules(t, version, tempBuffer);
    assert |data| == l.DataLen();
  }

  /** The modules with the segments' codewords, before masking. */
  ghost predicate IsPlaced(v: seq<bool>, items: seq<Item>, version: nat, level: nat, t: Tables)
    requires t.Valid() && IsVersion(version) && level <= HIGH
  {
    var l, side := LayoutOf(t, version, level), SideOf(version);
    exists data :: |data| == l.DataLen() && Encodes(data, items, version)
      && v == PlacedView(FunctionModules(t, version), side, Bits(Interleaved(l, data)), ScanLength(side))
  }

  lemma {:induction false} PlacedAndMasked(v: seq<bool>, items: seq<Item>, version: nat, level: nat, mask: nat,
                                           t: Tables)
    requires t.Valid() && IsVersion(version) && level <= HIGH && mask < 8 && IsPlaced(v, items, version, level, t)
    ensures var f, side := FunctionModules(t, version), SideOf(version);
      |f| == |v| == side * side && IsSymbol(Masked(f, v, side, mask, side * side), items, version, level, mask, t)
  {
    hide Tables.Fits, Tables.Valid, Encodes, Interleaved, Masked, PlacedView, FunctionModules, LayoutOf, IsSide,
      SideOf, ScanLength;
  }

  /**
   Makes the symbol of a list of segments, in the least version of the range
   that has room for them; there is none exactly if no version has.  The level
   is raised as far as the version allows, if that is asked for.
   */
  method EncodeSegmentsAdvanced(segs: seq<Segment>, level: nat, minVersion: nat, maxVersion: nat, mask: Option<nat>,
                                boost: bool, t: Tables, tempBuffer: array<bv8>, qrcode: array<bv8>)
    returns (ok: bool, version: nat, usedLevel: nat, usedMask: nat)
    requires t.Valid() && level <= HIGH && (mask.Some? ==> mask.value < 8)
    requires IsVersion(minVersion) && minVersion <= maxVersion <= 40
    requires BufferLen(maxVersion) <= tempBuffer.Length && BufferLen(maxVersion) <= qrcode.Length
      && tempBuffer != qrcode
    requires AllStored(segs, qrcode)
    modifies tempBuffer, qrcode
    ensures ok <==> exists v :: minVersion <= v <= maxVersion && HasRoom(segs, v, level, t)
    ensures !ok ==> qrcode[0] == 0
    ensures minVersion <= version <= maxVersion && usedLevel <= HIGH && usedMask < 8
    ensures ok ==> HasRoom(segs, version, usedLevel, t)
    ensures ok ==> forall v :: minVersion <= v < version ==> !HasRoom(segs, v, level, t)
    ensures ok && boost ==> forall i :: usedLevel < i <= HIGH ==> !HasRoom(segs, version, i, t)
    ensures ok && !boost ==> usedLevel == level
    ensures ok && mask.Some? ==> usedMask == mask.value
    ensures ok ==> IsGrid(qrcode[..]) && Side(qrcode[..]) == SideOf(version)
    ensures ok ==> IsSymbol(View(qrcode[..]), old(Items(segs)), version, usedLevel, usedMask, t)
    ensures ok && mask.None? ==>
      LowestPenalty(View(qrcode[..]), FunctionModules(t, version), SideOf(version), usedLevel, usedMask, t)
  {
    hide IsGrid, Side, View, SideOf, IsSide, Masked, IsSymbol, IsPlaced, SumBits, Mode.CountBits, FunctionModules,
      Tables.Fits, Tables.Valid, Bits;
    ghost var items := Items(segs);
    version, usedLevel, usedMask := minVersion, level, 0;
    var dataUsedBits;
    ok, version, dataUsedBits := ChooseVersion(segs, level, minVersion, maxVersion, t);
    if !ok {
      qrcode[0] := 0;
      return;
    }
    usedLevel := BoostLevel(level, version, dataUsedBits, boost, t);
    BufferLenGrows(version, maxVersion);
    assert Items(segs) == items;
    DrawSymbol(segs, version, usedLevel, t, tempBuffer, qrcode);
    if mask.Some? {
      usedMask := mask.value;
    } else {
      usedMask := ChooseMask(tempBuffer, qrcode, usedLevel, t);
    }
    MaskUndoesItself(View(tempBuffer[..]), View(qrcode[..]), SideOf(version), usedMask);
    PlacedAndMasked(View(qrcode[..]), items, version, usedLevel, usedMask, t);
    ApplyMask(tempBuffer, qrcode, usedMask);
  }

  lemma BufferLenGrows(v: nat, w: nat)
    requires v <= w
    ensures BufferLen(v) <= BufferLen(w)
  {
    assert SideOf(v) * SideOf(v) <= SideOf(w) * SideOf(w);
  }

  // ---------- Texts ----------

  /** The text can be written in a symbol of the version and level. */
  ghost predicate TextHasRoom(text: string, version: nat, level: nat, t: Tables)
    requires IsByteText(text) && IsVersion(version)
  {
    var bits := |StreamBits(TextItems(text), version)|;
    bits <= INT16_MAX && bits <= t.Capacity(version, level)
    && (text != "" ==> |text| < Pow2(TextMode(text).CountBits(version)))
  }

  /** A reader finds the text in the symbol, whatever is drawn over its function modules. */
  ghost predicate ReadsAsText(v: seq<bool>, text: string, version: nat, level: nat, mask: nat, t: Tables)
    requires t.Valid() && IsVersion(version) && level <= HIGH && mask < 8
  {
    var f, side := FunctionModules(t, version), SideOf(version);
    forall q: seq<bool> :: SameCodewords(f, q, v) ==>
      ItemsText(ReadSymbol(q, f, side, mask, LayoutOf(t, version, level), version)) == text
  }

  /** Makes the segment of a text in the buffer, if the buffer of the largest version has room for its payload. */
  method MakeTextSegment(text: string, bufLen: nat, tempBuffer: array<bv8>) returns (ok: bool, seg: Segment)
    requires IsByteText(text) && text != "" && bufLen <= tempBuffer.Length
    modifies tempBuffer
    ensures ok ==> seg.data == tempBuffer && seg.bitLength <= 8 * tempBuffer.Length && [seg.AsItem()] == TextItems(text)
    ensures !ok ==> |TextPayload(text)| > INT16_MAX || |TextPayload(text)| > 8 * bufLen
  {
    hide Pack, PackedLength, IsNumeric, IsAlphanumeric, Bits, DigitValues, CharValues;
    var n := |text|;
    seg := Segment(ByteMode, 0, tempBuffer, 0);
    if IsNumeric(text) {
      PayloadLengths(text);
      var size := CalcSegmentBitLength(NumericMode, n);
      if size == -1 || (size + 7) / 8 > bufLen {
        return false, seg;
      }
      var bitLength := MakeNumeric(text, tempBuffer);
      seg := Segment(NumericMode, n, tempBuffer, bitLength);
    } else if IsAlphanumeric(text) {
      PayloadLengths(text);
      var size := CalcSegmentBitLength(AlphanumericMode, n);
      if size == -1 || (size + 7) / 8 > bufLen {
        return false, seg;
      }
      var bitLength := MakeAlphanumeric(text, tempBuffer);
      seg := Segment(AlphanumericMode, n, tempBuffer, bitLength);
    } else {
      if n > bufLen {
        return false, seg;
      }
      for i := 0 to n
        invariant forall k :: 0 <= k < i ==> tempBuffer[k] == CharByte(text[k])
      {
        tempBuffer[i] := CharByte(text[i]);
      }
      var bitLength := CalcSegmentBitLength(ByteMode, n);
      if bitLength == -1 {
        return false, seg;
      }
      BitsOfPrefix(tempBuffer[..], TextBytes(text));
      seg := Segment(ByteMode, n, tempBuffer, bitLength);
    }
    ok := true;
  }

  /** The bit length that the generator computes is that of the payload, or -1 above 32767. */
  lemma PayloadLengths(text: string)
    requires IsByteText(text)
    ensures CalcSegmentBitLength(TextMode(text), |text|)
      == if |TextPayload(text)| <= INT16_MAX then |TextPayload(text)| else -1
  {
    hide Pack, PackedLength, IsNumeric, IsAlphanumeric, Bits, DigitValues, CharValues;
    if IsNumeric(text) {
      BitLengthIsExact(Numeric, DigitValues(text));
    } else if IsAlphanumeric(text) {
      BitLengthIsExact(Alphanumeric, CharValues(text));
    }
  }

  lemma BitsOfPrefix(bytes: seq<bv8>, data: seq<bv8>)
    requires |data| <= |bytes| && forall k :: 0 <= k < |data| ==> bytes[k] == data[k]
    ensures Bits(bytes)[..8 * |data|] == Bits(data)
  {
    hide Bit;
  }

  /** A payload that the largest version has no room for fits in none. */
  lemma {:induction false} NoVersionHasRoom(text: string, level: nat, maxVersion: nat, t: Tables)
    requires IsByteText(text) && text != "" && t.Valid() && level <= HIGH && IsVersion(maxVersion)
    requires |TextPayload(text)| > INT16_MAX || |TextPayload(text)| > 8 * BufferLen(maxVersion)
    ensures forall v :: 1 <= v <= maxVersion ==> !TextHasRoom(text, v, level, t)
  {
    hide Tables.Valid, BufferLen, TextPayload, Mode.CountBits, TextMode;
    forall v | 1 <= v <= maxVersion
      ensures !TextHasRoom(text, v, level, t)
    {
      BufferLenGrows(v, maxVersion);
      assert LayoutOf(t, v, level) == t.layout(v, level);
      StreamOfOne(TextItems(text), v);
    }
  }

  lemma StreamOfOne(items: seq<Item>, version: nat)
    requires |items| == 1 && 1 <= version <= 40
    ensures |StreamBits(items, version)| == 4 + items[0].mode.CountBits(version) + |items[0].payload|
  {
    hide Mode.CountBits, ValueBits;
    assert items[1..] == [] && StreamBits(items[1..], version) == [];
  }

  lemma SegmentsOfText(segs: seq<Segment>, text: string, tempBuffer: array<bv8>, qrcode: array<bv8>)
    requires IsByteText(text) && tempBuffer != qrcode
    requires if text == "" then segs == [] else
      |segs| == 1 && segs[0].data == tempBuffer && segs[0].bitLength <= 8 * tempBuffer.Length
      && [segs[0].AsItem()] == TextItems(text)
    ensures AllStored(segs, qrcode) && Items(segs) == TextItems(text)
  {
    hide TextPayload, TextMode, Bits;
  }

  /** Segments have room exactly where the text has that they stand for. */
  lemma {:induction false} SameRoom(segs: seq<Segment>, text: string, version: nat, level: nat, t: Tables)
    requires IsByteText(text) && IsVersion(version)
    requires forall k :: 0 <= k < |segs| ==> segs[k].bitLength <= 8 * segs[k].data.Length
    requires Items(segs) == TextItems(text)
    ensures HasRoom(segs, version, level, t) <==> TextHasRoom(text, version, level, t)
  {
    hide Mode.CountBits, TextPayload, TextMode, StreamBits, SumBits;
    SumBitsIsLength(segs, version, |segs|);
    assert Items(segs)[..|segs|] == Items(segs);
    if text != "" {
      assert Items(segs)[0] == TextItems(text)[0] == segs[0].AsItem();
    }
  }

  /** A symbol of the segments of a text reads as the text. */
  lemma {:induction false} TextSymbolReads(v: seq<bool>, text: string, version: nat, level: nat, mask: nat, t: Tables)
    requires IsByteText(text) && t.Valid() && IsVersion(version) && level <= HIGH && mask < 8
    requires TextHasRoom(text, version, level, t) && IsSymbol(v, TextItems(text), version, level, mask, t)
    ensures ReadsAsText(v, text, version, level, mask, t)
  {
    hide IsSymbol, FunctionModules, LayoutOf, SameCodewords, ReadSymbol, Tables.Valid, IsReadable, ItemsText,
      TextPayload, TextMode, Mode.CountBits, SideOf;
    TextReadsBack(text, version);
    SymbolReads(v, TextItems(text), version, level, mask, t);
  }

  /**
   Makes the symbol of a text.  It does exactly if some version of the range
   has room for the text, and then a reader of the symbol gets the text back.
   */
  method EncodeText(text: string, level: nat, minVersion: nat, maxVersion: nat, mask: Option<nat>, boost: bool,
                    t: Tables, tempBuffer: array<bv8>, qrcode: array<bv8>)
    returns (ok: bool, version: nat, usedLevel: nat, usedMask: nat)
    requires IsByteText(text) && t.Valid() && level <= HIGH && (mask.Some? ==> mask.value < 8)
    requires IsVersion(minVersion) && minVersion <= maxVersion <= 40
    requires BufferLen(maxVersion) <= tempBuffer.Length && BufferLen(maxVersion) <= qrcode.Length
      && tempBuffer != qrcode
    modifies tempBuffer, qrcode
    ensures ok <==> exists v :: minVersion <= v <= maxVersion && TextHasRoom(text, v, level, t)
    ensures !ok ==> qrcode[0] == 0
    ensures minVersion <= version <= maxVersion && usedLevel <= HIGH && usedMask < 8
    ensures ok ==> TextHasRoom(text, version, usedLevel, t)
    ensures ok ==> forall v :: minVersion <= v < version ==> !TextHasRoom(text, v, level, t)
    ensures ok && boost ==> forall i :: usedLevel < i <= HIGH ==> !TextHasRoom(text, version, i, t)
    ensures ok && !boost ==> usedLevel == level
    ensures ok && mask.Some? ==> usedMask == mask.value
    ensures ok ==> IsGrid(qrcode[..]) && Side(qrcode[..]) == SideOf(version)
    ensures ok ==> ReadsAsText(View(qrcode[..]), text, version, usedLevel, usedMask, t)
    ensures ok && mask.None? ==>
      LowestPenalty(View(qrcode[..]), FunctionModules(t, version), SideOf(version), usedLevel, usedMask, t)
  {
    hide IsGrid, Side, View, SideOf, BufferLen, IsSymbol, HasRoom, TextHasRoom, ReadsAsText, TextPayload, Items,
      Tables.Valid, LowestPenalty, FunctionModules;
    version, usedLevel, usedMask := minVersion, level, 0;
    var segs: seq<Segment> := [];
    if text != "" {
      var seg;
      ok, seg := MakeTextSegment(text, BufferLen(maxVersion), tempBuffer);
      if !ok {
        NoVersionHasRoom(text, level, maxVersion, t);
        qrcode[0] := 0;
        return;
      }
      segs := [seg];
    }
    SegmentsOfText(segs, text, tempBuffer, qrcode);
    forall v, i: nat | minVersion <= v <= maxVersion
      ensures HasRoom(segs, v, i, t) <==> TextHasRoom(text, v, i, t)
    {
      SameRoom(segs, text, v, i, t);
    }
    ok, version, usedLevel, usedMask :=
      EncodeSegmentsAdvanced(segs, level, minVersion, maxVersion, mask, boost, t, tempBuffer, qrcode);
    if ok {
      TextSymbolReads(View(qrcode[..]), text, version, usedLevel, usedMask, t);
    }
  }
}
