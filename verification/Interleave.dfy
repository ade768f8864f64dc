/**
 Splitting the data codewords of a symbol into blocks, adding error correction
 to each and interleaving the result (section 7.6 of ISO/IEC 18004:2015).

 The layout is a parameter: any number of blocks, any number of error
 correction codewords per block and any raw codeword count that leave no block
 with a negative length.
 */
module Interleave {
  import opened Polynomial
  import opened ReedSolomon
  import opened GridIndexing

  /** What one position of the interleaved stream holds. */
  datatype Slot = DataSlot(block: nat, index: nat) | EccSlot(block: nat, index: nat)

  datatype Layout = Layout(numBlocks: nat, eccLen: nat, rawCodewords: nat) {
    predicate Valid() {
      1 <= numBlocks && 1 <= eccLen <= MAX_DEGREE && eccLen <= rawCodewords / numBlocks
    }

    function ShortLen(): nat
      requires Valid()
    {
      rawCodewords / numBlocks - eccLen
    }

    function NumShort(): nat
      requires Valid()
    {
      numBlocks - rawCodewords % numBlocks
    }

    function DataLen(): int {
      rawCodewords - eccLen * numBlocks
    }

    function BlockLen(i: nat): nat
      requires Valid()
    {
      ShortLen() + if i < NumShort() then 0 else 1
    }

    /** Where block i begins in the data. */
    function BlockStart(i: nat): nat
      requires Valid()
    {
      i * ShortLen() + if i <= NumShort() then 0 else i - NumShort()
    }

    predicate Holds(s: Slot)
      requires Valid()
    {
      s.block < numBlocks && s.index < if s.DataSlot? then BlockLen(s.block) else eccLen
    }

    /** The index in the interleaved stream to which the copy loops send a slot. */
    function Position(s: Slot): int
      requires Valid()
    {
      if s.EccSlot? then DataLen() + s.block + s.index * numBlocks
      else s.block + s.index * numBlocks - if s.index == ShortLen() then NumShort() else 0
    }

    /** The slot found at an index of the interleaved stream. */
    function SlotAt(k: nat): Slot
      requires Valid() && k < rawCodewords
    {
      hide Layout.Valid, Layout.ShortLen, Layout.NumShort, Layout.DataLen;
      Shape();
      if DataLen() <= k then EccSlot((k - DataLen()) % numBlocks, (k - DataLen()) / numBlocks)
      else if k < numBlocks * ShortLen() then DataSlot(k % numBlocks, k / numBlocks)
      else DataSlot(k - numBlocks * ShortLen() + NumShort(), ShortLen())
    }

    lemma Shape()
      requires Valid()
      ensures 1 <= NumShort() <= numBlocks
      ensures DataLen() == numBlocks * ShortLen() + (numBlocks - NumShort())
      ensures rawCodewords == DataLen() + eccLen * numBlocks
    {
      var q := rawCodewords / numBlocks;
      assert rawCodewords == numBlocks * q + rawCodewords % numBlocks;
      assert numBlocks * q == numBlocks * (q - eccLen) + numBlocks * eccLen;
    }

    lemma RoomForEcc()
      requires Valid()
      ensures 0 <= DataLen() && DataLen() + eccLen <= rawCodewords
    {
      Shape();
      assert eccLen <= eccLen * numBlocks;
    }

    lemma EccPositions(i: nat, j: nat)
      requires Valid()
      ensures Position(EccSlot(i, 0)) == DataLen() + i
      ensures Position(EccSlot(i, j + 1)) == Position(EccSlot(i, j)) + numBlocks
    {
      assert (j + 1) * numBlocks == j * numBlocks + numBlocks;
    }

    lemma BlockStartStep(i: nat)
      requires Valid() && i < numBlocks
      ensures BlockStart(i + 1) == BlockStart(i) + BlockLen(i)
      ensures BlockStart(0) == 0 && BlockStart(numBlocks) == DataLen()
    {
      Shape();
      assert (i + 1) * ShortLen() == i * ShortLen() + ShortLen();
    }

    lemma {:induction false} BlockStartBounded(i: nat)
      requires Valid() && i <= numBlocks
      ensures BlockStart(i) <= DataLen()
      decreases numBlocks - i
    {
      if i < numBlocks {
        BlockStartStep(i);
        BlockStartBounded(i + 1);
      } else {
        Shape();
        BlockStartStep(0);
      }
    }
  }

  /** Every slot is sent to an index of the stream, and the slot found there is itself. */
  lemma SlotAtPosition(l: Layout, s: Slot)
    requires l.Valid() && l.Holds(s)
    ensures 0 <= l.Position(s) < l.rawCodewords
    ensures l.SlotAt(l.Position(s)) == s
  {
    hide Layout.Position, Layout.SlotAt, Layout.ShortLen, Layout.NumShort;
    if s.EccSlot? {
      EccAtPosition(l, s);
    } else if s.index < l.ShortLen() {
      DataAtPosition(l, s);
    } else {
      LongDataAtPosition(l, s);
    }
  }

  lemma EccAtPosition(l: Layout, s: Slot)
    requires l.Valid() && l.Holds(s) && s.EccSlot?
    ensures 0 <= l.Position(s) < l.rawCodewords && l.SlotAt(l.Position(s)) == s
  {
    hide Layout.ShortLen, Layout.NumShort, Layout.DataLen;
    l.Shape();
    GridIndex(s.block, s.index, l.eccLen, l.numBlocks);
    assert l.Position(s) - l.DataLen() == s.block + s.index * l.numBlocks;
  }

  lemma DataAtPosition(l: Layout, s: Slot)
    requires l.Valid() && l.Holds(s) && s.DataSlot? && s.index < l.ShortLen()
    ensures 0 <= l.Position(s) < l.rawCodewords && l.SlotAt(l.Position(s)) == s
  {
    hide Layout.ShortLen, Layout.NumShort, Layout.DataLen;
    l.Shape();
    GridIndex(s.block, s.index, l.ShortLen(), l.numBlocks);
    assert l.Position(s) == s.block + s.index * l.numBlocks;
  }

  /** The last codeword of a long block. */
  lemma LongDataAtPosition(l: Layout, s: Slot)
    requires l.Valid() && l.Holds(s) && s.DataSlot? && s.index >= l.ShortLen()
    ensures 0 <= l.Position(s) < l.rawCodewords && l.SlotAt(l.Position(s)) == s
  {
    hide Layout.ShortLen, Layout.NumShort, Layout.DataLen;
    l.Shape();
    assert l.Position(s) == s.block + l.numBlocks * l.ShortLen() - l.NumShort();
  }

  /** Every index of the stream comes from a slot, and that slot is sent back to it. */
  lemma PositionOfSlotAt(l: Layout, k: nat)
    requires l.Valid() && k < l.rawCodewords
    ensures l.Holds(l.SlotAt(k)) && l.Position(l.SlotAt(k)) == k
  {
    l.Shape();
    hide Layout.ShortLen, Layout.NumShort, Layout.DataLen;
    var n, L := l.numBlocks, l.ShortLen();
    assert L * n == n * L;
    if l.DataLen() <= k {
      GridInverse(k - l.DataLen(), l.eccLen, n);
    } else if k < n * L {
      GridInverse(k, L, n);
    }
  }

  /** SlotAt with what the two lemmas say about it. */
  function SlotOf(l: Layout, k: nat): (s: Slot)
    requires l.Valid() && k < l.rawCodewords
    ensures l.Holds(s) && l.Position(s) == k
  {
    PositionOfSlotAt(l, k);
    l.SlotAt(k)
  }

  /** Data before error correction; within each, by index first and by block second. */
  predicate Precedes(s: Slot, t: Slot) {
    if s.DataSlot? != t.DataSlot? then s.DataSlot?
    else s.index < t.index || (s.index == t.index && s.block < t.block)
  }

  /** The order of the stream. */
  lemma PositionsInOrder(l: Layout, s: Slot, t: Slot)
    requires l.Valid() && l.Holds(s) && l.Holds(t)
    ensures l.Position(s) < l.Position(t) <==> Precedes(s, t)
  {
    hide Layout.Position, Layout.SlotAt, Layout.Holds;
    if Precedes(s, t) {
      PrecedesLess(l, s, t);
    } else if s != t {
      PrecedesLess(l, t, s);
    }
  }

  lemma PrecedesLess(l: Layout, s: Slot, t: Slot)
    requires l.Valid() && l.Holds(s) && l.Holds(t) && Precedes(s, t)
    ensures l.Position(s) < l.Position(t)
  {
    hide Layout.ShortLen, Layout.NumShort, Layout.DataLen;
    l.Shape();
    if s.DataSlot? && t.EccSlot? {
      RowBelow(s.index, s.index + 1, l.numBlocks);
      DataBeforeEcc(l, s);
    } else if s.index < t.index {
      RowBelow(s.index, t.index, l.numBlocks);
      if t.DataSlot? && t.index == l.ShortLen() {
        assert t.block >= l.NumShort();
      }
    }
  }

  lemma DataBeforeEcc(l: Layout, s: Slot)
    requires l.Valid() && l.Holds(s) && s.DataSlot?
    ensures l.Position(s) < l.DataLen()
  {
    hide Layout.ShortLen, Layout.NumShort, Layout.DataLen;
    l.Shape();
    if s.index < l.ShortLen() {
      RowBelow(s.index, l.ShortLen(), l.numBlocks);
    }
  }

  /** The data are dealt out as evenly as possible, the shorter blocks first. */
  lemma ShortBlocksFirst(l: Layout, i: nat, j: nat)
    requires l.Valid() && i < j < l.numBlocks
    ensures l.BlockLen(i) <= l.BlockLen(j) <= l.BlockLen(i) + 1
    ensures l.BlockStart(0) == 0 && l.BlockStart(i + 1) == l.BlockStart(i) + l.BlockLen(i)
    ensures l.BlockStart(l.numBlocks) == l.rawCodewords - l.eccLen * l.numBlocks
  {
    l.BlockStartStep(i);
  }

  // ---------- What the stream holds ----------

  function Block(l: Layout, data: Poly, i: nat): (b: Poly)
    requires l.Valid() && i < l.numBlocks && |data| == l.DataLen()
    ensures |b| == l.BlockLen(i)
  {
    l.BlockStartStep(i);
    l.BlockStartBounded(i + 1);
    data[l.BlockStart(i)..l.BlockStart(i) + l.BlockLen(i)]
  }

  function BlockEcc(l: Layout, data: Poly, i: nat): (e: Poly)
    requires l.Valid() && i < l.numBlocks && |data| == l.DataLen()
    ensures |e| == l.eccLen
  {
    Remainder(Block(l, data, i), Divisor(l.eccLen))
  }

  function Content(l: Layout, data: Poly, s: Slot): bv8
    requires l.Valid() && l.Holds(s) && |data| == l.DataLen()
  {
    match s
    case DataSlot(i, j) => Block(l, data, i)[j]
    case EccSlot(i, j) => BlockEcc(l, data, i)[j]
  }

  function ContentAt(l: Layout, data: Poly, k: nat): bv8
    requires l.Valid() && k < l.rawCodewords && |data| == l.DataLen()
  {
    Content(l, data, SlotOf(l, k))
  }

  /** The interleaved stream of the given data. */
  function Interleaved(l: Layout, data: Poly): (stream: Poly)
    requires l.Valid() && |data| == l.DataLen()
    ensures |stream| == l.rawCodewords
  {
    seq(l.rawCodewords, k requires 0 <= k < l.rawCodewords => ContentAt(l, data, k))
  }

  /** The de-interleaver: reads block i, or its error correction, back out of a stream. */
  function ReadBlock(l: Layout, stream: Poly, i: nat): (b: Poly)
    requires l.Valid() && i < l.numBlocks && |stream| == l.rawCodewords
    ensures |b| == l.BlockLen(i)
  {
    seq(l.BlockLen(i), j requires 0 <= j < l.BlockLen(i) =>
      SlotAtPosition(l, DataSlot(i, j)); stream[l.Position(DataSlot(i, j))])
  }

  function ReadEcc(l: Layout, stream: Poly, i: nat): (e: Poly)
    requires l.Valid() && i < l.numBlocks && |stream| == l.rawCodewords
    ensures |e| == l.eccLen
  {
    seq(l.eccLen, j requires 0 <= j < l.eccLen =>
      SlotAtPosition(l, EccSlot(i, j)); stream[l.Position(EccSlot(i, j))])
  }

  /** The first n blocks of a stream, one after the other. */
  function ReadBlocks(l: Layout, stream: Poly, n: nat): Poly
    requires l.Valid() && n <= l.numBlocks && |stream| == l.rawCodewords
  {
    if n == 0 then [] else ReadBlocks(l, stream, n - 1) + ReadBlock(l, stream, n - 1)
  }

  lemma BlockReadBack(l: Layout, data: Poly, i: nat)
    requires l.Valid() && i < l.numBlocks && |data| == l.DataLen()
    ensures ReadBlock(l, Interleaved(l, data), i) == Block(l, data, i)
    ensures ReadEcc(l, Interleaved(l, data), i) == BlockEcc(l, data, i)
  {
    hide Layout.Position, Layout.SlotAt, Layout.ShortLen, Layout.NumShort, Layout.DataLen, Block, BlockEcc;
    var stream := Interleaved(l, data);
    forall j | 0 <= j < l.BlockLen(i)
      ensures ReadBlock(l, stream, i)[j] == Block(l, data, i)[j]
    {
      SlotAtPosition(l, DataSlot(i, j));
    }
    forall j | 0 <= j < l.eccLen
      ensures ReadEcc(l, stream, i)[j] == BlockEcc(l, data, i)[j]
    {
      SlotAtPosition(l, EccSlot(i, j));
    }
  }

  lemma {:induction false} BlocksReadBack(l: Layout, data: Poly, n: nat)
    requires l.Valid() && n <= l.numBlocks && |data| == l.DataLen()
    ensures l.BlockStart(n) <= |data|
    ensures ReadBlocks(l, Interleaved(l, data), n) == data[..l.BlockStart(n)]
  {
    hide Layout.Position, Layout.SlotAt, Layout.ShortLen, Layout.NumShort, Layout.DataLen, Interleaved, ReadBlock,
      Layout.BlockStart;
    l.BlockStartBounded(n);
    l.BlockStartStep(0);
    if n > 0 {
      BlocksReadBack(l, data, n - 1);
      BlockReadBack(l, data, n - 1);
      l.BlockStartStep(n - 1);
    }
  }

  /**
   Interleaving loses nothing: the blocks read back out of the stream are the
   data in order, and each block with its error correction is a codeword.
   */
  lemma InterleavingIsReversible(l: Layout, data: Poly)
    requires l.Valid() && |data| == l.DataLen()
    ensures ReadBlocks(l, Interleaved(l, data), l.numBlocks) == data
    ensures forall i: nat :: i < l.numBlocks ==>
      IsCodeword(ReadBlock(l, Interleaved(l, data), i) + ReadEcc(l, Interleaved(l, data), i), l.eccLen)
  {
    hide Layout.Position, Layout.SlotAt, Layout.ShortLen, Layout.NumShort, Layout.DataLen, Interleaved, ReadBlock,
      ReadEcc, Remainder, Divisor, IsCodeword, Layout.BlockStart;
    BlocksReadBack(l, data, l.numBlocks);
    assert l.BlockStart(l.numBlocks) == l.DataLen() by { l.BlockStartStep(0); }
    assert data[..l.DataLen()] == data;
    forall i: nat | i < l.numBlocks
      ensures IsCodeword(ReadBlock(l, Interleaved(l, data), i) + ReadEcc(l, Interleaved(l, data), i), l.eccLen)
    {
      BlockReadBack(l, data, i);
      RemainderMakesCodeword(Block(l, data, i), l.eccLen);
    }
  }

  // ---------- The copy loops ----------

  method CopyData(l: Layout, data: array<bv8>, from: nat, i: nat, result: array<bv8>)
    requires l.Valid() && i < l.numBlocks && data != result
    requires from + l.BlockLen(i) <= data.Length && l.rawCodewords <= result.Length
    modifies result
    ensures forall m: nat :: m < l.rawCodewords ==>
      result[m] == (var s := SlotOf(l, m); if s.DataSlot? && s.block == i then data[from + s.index] else old(result[m]))
    ensures forall m: nat :: l.rawCodewords <= m < result.Length ==> result[m] == old(result[m])
  {
    hide Layout.SlotAt, Layout.ShortLen, Layout.NumShort, Layout.DataLen, SlotOf;
    var datLen := l.BlockLen(i);
    var k: int := i;
    for j := 0 to datLen
      invariant j <= l.ShortLen() ==> k == i + j * l.numBlocks
      invariant forall m: nat :: m < l.rawCodewords ==>
        result[m] == (var s := SlotOf(l, m);
          if s.DataSlot? && s.block == i && s.index < j then data[from + s.index] else old(result[m]))
      invariant forall m: nat :: l.rawCodewords <= m < result.Length ==> result[m] == old(result[m])
    {
      var slot := DataSlot(i, j);
      if j == l.ShortLen() {
        k := k - l.NumShort();
      }
      assert l.Position(slot) == k;
      SlotOfPosition(l, slot);
      result[k] := data[from + j];
      k := k + l.numBlocks;
    }
  }

  method CopyEcc(l: Layout, data: array<bv8>, at: nat, i: nat, result: array<bv8>)
    requires l.Valid() && i < l.numBlocks && data != result
    requires at + l.eccLen <= data.Length && l.rawCodewords <= result.Length
    modifies result
    ensures forall m: nat :: m < l.rawCodewords ==>
      result[m] == (var s := SlotOf(l, m); if s.EccSlot? && s.block == i then data[at + s.index] else old(result[m]))
    ensures forall m: nat :: l.rawCodewords <= m < result.Length ==> result[m] == old(result[m])
  {
    hide Layout.SlotAt, Layout.ShortLen, Layout.NumShort, Layout.DataLen, Layout.Position, SlotOf;
    var k: int := l.DataLen() + i;
    l.EccPositions(i, 0);
    for j := 0 to l.eccLen
      invariant k == l.Position(EccSlot(i, j))
      invariant forall m: nat :: m < l.rawCodewords ==>
        result[m] == (var s := SlotOf(l, m);
          if s.EccSlot? && s.block == i && s.index < j then data[at + s.index] else old(result[m]))
      invariant forall m: nat :: l.rawCodewords <= m < result.Length ==> result[m] == old(result[m])
    {
      var slot := EccSlot(i, j);
      l.EccPositions(i, j);
      SlotOfPosition(l, slot);
      result[k] := data[at + j];
      k := k + l.numBlocks;
    }
  }

  lemma SlotOfPosition(l: Layout, s: Slot)
    requires l.Valid() && l.Holds(s)
    ensures 0 <= l.Position(s) < l.rawCodewords && SlotOf(l, l.Position(s)) == s
  {
    SlotAtPosition(l, s);
  }

  /** Block i of the loop below: error correction, then the two copies. */
  method AddBlock(l: Layout, data: array<bv8>, dat: nat, i: nat, rsdiv: array<bv8>, result: array<bv8>)
    requires l.Valid() && i < l.numBlocks && 0 <= l.DataLen() && dat == l.BlockStart(i)
    requires data != result && rsdiv != data && l.eccLen <= rsdiv.Length && rsdiv[..l.eccLen] == Divisor(l.eccLen)
    requires l.DataLen() + l.eccLen <= l.rawCodewords <= data.Length && l.rawCodewords <= result.Length
    modifies data, result
    ensures data[..l.DataLen()] == old(data[..l.DataLen()])
    ensures data[l.rawCodewords..] == old(data[l.rawCodewords..])
    ensures forall m: nat :: m < l.rawCodewords ==>
      result[m] == if SlotOf(l, m).block == i then ContentAt(l, old(data[..l.DataLen()]), m) else old(result[m])
    ensures result[l.rawCodewords..] == old(result[l.rawCodewords..])
  {
    hide Layout.SlotAt, Layout.ShortLen, Layout.NumShort, Layout.DataLen, Layout.BlockStart, SlotOf, Remainder, Divisor,
      Layout.Position;
    var dataLen := l.DataLen();
    ghost var d := data[..dataLen];
    var datLen := l.BlockLen(i);
    l.BlockStartStep(i);
    l.BlockStartBounded(i + 1);
    ghost var block := Block(l, d, i);
    assert data[dat..dat + datLen] == block;
    ReedSolomonComputeRemainder(data, dat, datLen, rsdiv, l.eccLen, data, dataLen);
    ghost var ecc := BlockEcc(l, d, i);
    assert data[dataLen..dataLen + l.eccLen] == ecc;
    CopyData(l, data, dat, i, result);
    CopyEcc(l, data, dataLen, i, result);
    forall m: nat | m < l.rawCodewords && SlotOf(l, m).block == i
      ensures result[m] == ContentAt(l, d, m)
    {
      var s := SlotOf(l, m);
      if s.DataSlot? {
        assert result[m] == data[dat + s.index] == block[s.index];
      } else {
        assert result[m] == data[dataLen..dataLen + l.eccLen][s.index] == ecc[s.index];
      }
    }
  }

  /** The slots of the first n blocks hold their codewords. */
  ghost predicate Filled(l: Layout, data: Poly, stream: Poly, n: nat)
    requires l.Valid() && |data| == l.DataLen() && |stream| == l.rawCodewords
  {
    forall m: nat :: m < l.rawCodewords && SlotOf(l, m).block < n ==> stream[m] == ContentAt(l, data, m)
  }

  lemma AllSlotsFilled(l: Layout, data: Poly, stream: Poly)
    requires l.Valid() && |data| == l.DataLen() && |stream| == l.rawCodewords && Filled(l, data, stream, l.numBlocks)
    ensures stream == Interleaved(l, data)
  {}

  lemma NextSlotsFilled(l: Layout, data: Poly, before: Poly, after: Poly, n: nat)
    requires l.Valid() && |data| == l.DataLen() && |before| == |after| == l.rawCodewords && Filled(l, data, before, n)
    requires forall m: nat :: m < l.rawCodewords ==>
      after[m] == if SlotOf(l, m).block == n then ContentAt(l, data, m) else before[m]
    ensures Filled(l, data, after, n + 1)
  {
    hide SlotOf, ContentAt;
  }

  /** The loop over the blocks. */
  method AddBlocks(l: Layout, data: array<bv8>, rsdiv: array<bv8>, result: array<bv8>)
    requires l.Valid() && data != result && rsdiv != data && rsdiv != result && 0 <= l.DataLen()
    requires l.eccLen <= rsdiv.Length && rsdiv[..l.eccLen] == Divisor(l.eccLen)
    requires l.DataLen() + l.eccLen <= l.rawCodewords <= data.Length && l.rawCodewords <= result.Length
    modifies data, result
    ensures result[..l.rawCodewords] == Interleaved(l, old(data[..l.DataLen()]))
    ensures result[l.rawCodewords..] == old(result[l.rawCodewords..])
    ensures data[..l.DataLen()] == old(data[..l.DataLen()])
    ensures data[l.rawCodewords..] == old(data[l.rawCodewords..])
  {
    hide Layout.SlotAt, Layout.ShortLen, Layout.NumShort, Layout.DataLen, Layout.BlockStart, SlotOf, Divisor,
      Layout.Position, ContentAt, Layout.BlockLen, Interleaved, Filled;
    ghost var d, rest, behind := data[..l.DataLen()], data[l.rawCodewords..], result[l.rawCodewords..];
    l.BlockStartStep(0);
    NoneFilled(l, d, result[..l.rawCodewords]);
    var dat := 0;
    for i := 0 to l.numBlocks
      invariant dat == l.BlockStart(i)
      invariant rsdiv[..l.eccLen] == Divisor(l.eccLen)
      invariant data[..l.DataLen()] == d && data[l.rawCodewords..] == rest
      invariant Filled(l, d, result[..l.rawCodewords], i)
      invariant result[l.rawCodewords..] == behind
    {
      ghost var before := result[..l.rawCodewords];
      AddBlock(l, data, dat, i, rsdiv, result);
      NextSlotsFilled(l, d, before, result[..l.rawCodewords], i);
      l.BlockStartStep(i);
      dat := dat + l.BlockLen(i);
    }
    AllSlotsFilled(l, d, result[..l.rawCodewords]);
  }

  lemma NoneFilled(l: Layout, data: Poly, stream: Poly)
    requires l.Valid() && |data| == l.DataLen() && |stream| == l.rawCodewords
    ensures Filled(l, data, stream, 0)
  {}

  /**
   Adds error correction to every block of data[..DataLen] and interleaves, as
   the symbol generator does: the error correction of each block is computed in
   the data array behind the data, and neither loop touches data still unread.
   */
  method AddEccAndInterleave(l: Layout, data: array<bv8>, result: array<bv8>)
    requires l.Valid() && data != result
    requires l.rawCodewords <= data.Length && l.rawCodewords <= result.Length
    modifies data, result
    ensures 0 <= l.DataLen() <= l.rawCodewords
    ensures result[..l.rawCodewords] == Interleaved(l, old(data[..l.DataLen()]))
    ensures result[l.rawCodewords..] == old(result[l.rawCodewords..])
    ensures data[..l.DataLen()] == old(data[..l.DataLen()])
    ensures data[l.rawCodewords..] == old(data[l.rawCodewords..])
  {
    hide Layout.ShortLen, Layout.NumShort, Divisor, Interleaved;
    l.RoomForEcc();
    var rsdiv := new bv8[MAX_DEGREE];
    ReedSolomonComputeDivisor(l.eccLen, rsdiv);
    AddBlocks(l, data, rsdiv, result);
  }
}
