/**
 The bit-packed module grid of the QR Code generator.  Byte 0 of the array is
 the side length; module (x, y) is bit (y * side + x) of the bytes that follow,
 least significant bit first.
 */
module ModuleGrid {
  import opened GridIndexing
  import opened PackedBits

  const MIN_SIDE: nat := 21
  const MAX_SIDE: nat := 177

  /** The bytes hold a grid whose side the generator supports. */
  predicate IsGrid(bytes: seq<bv8>) {
    bytes != [] && MIN_SIDE <= Side(bytes) <= MAX_SIDE && Side(bytes) * Side(bytes) / 8 + 1 < |bytes|
  }

  function Side(bytes: seq<bv8>): nat
    requires bytes != []
  {
    bytes[0] as nat
  }

  function Packed(bytes: seq<bv8>, k: nat): bool
    requires k / 8 + 1 < |bytes|
  {
    Bit(bytes[k / 8 + 1], k % 8)
  }

  /** The modules of a grid, row by row; true is black. */
  function View(bytes: seq<bv8>): (v: seq<bool>)
    requires IsGrid(bytes)
    ensures |v| == Side(bytes) * Side(bytes)
  {
    seq(Side(bytes) * Side(bytes), k requires 0 <= k < Side(bytes) * Side(bytes) => Packed(bytes, k))
  }

  datatype Cell = Cell(x: nat, y: nat)

  /** The position of a cell in the row-by-row order. */
  function Index(side: nat, c: Cell): (k: nat)
    requires c.x < side && c.y < side
    ensures k < side * side
  {
    RowBelow(c.y, side, side);
    c.y * side + c.x
  }

  lemma ViewUpdate(bytes: seq<bv8>, index: nat, value: bool)
    requires IsGrid(bytes) && index < Side(bytes) * Side(bytes)
    ensures var after := bytes[index / 8 + 1 := WithBit(bytes[index / 8 + 1], index % 8, value)];
      IsGrid(after) && Side(after) == Side(bytes) && View(after) == View(bytes)[index := value]
  {
    hide Bit, WithBit;
    var b := bytes[index / 8 + 1];
    var after := bytes[index / 8 + 1 := WithBit(b, index % 8, value)];
    forall k: nat | k < Side(bytes) * Side(bytes)
      ensures Packed(after, k) == if k == index then value else Packed(bytes, k)
    {
      if k / 8 == index / 8 {
        BitOfWithBit(b, index % 8, value, k % 8);
      }
    }
  }

  lemma SideIsFirst(bytes: seq<bv8>)
    requires IsGrid(bytes)
    ensures bytes != [] && Side(bytes) == bytes[0] as nat && MIN_SIDE <= Side(bytes) <= MAX_SIDE
  {}

  lemma ByteOfModule(bytes: seq<bv8>, index: nat)
    requires IsGrid(bytes) && index < Side(bytes) * Side(bytes)
    ensures index / 8 + 1 < |bytes| && View(bytes)[index] == Bit(bytes[index / 8 + 1], index % 8)
  {}

  /** Where a module stands in memory: row by row behind byte 0, least significant bit first. */
  lemma ModuleIsDigit(bytes: seq<bv8>, x: nat, y: nat)
    requires IsGrid(bytes) && x < Side(bytes) && y < Side(bytes)
    ensures var k := y * Side(bytes) + x;
      0 <= k && 1 + k / 8 < |bytes|
      && View(bytes)[Index(Side(bytes), Cell(x, y))] == ShiftedBit(bytes[1 + k / 8] as nat, k % 8)
  {
    hide Bit, ShiftedBit;
    var k := Index(Side(bytes), Cell(x, y));
    ByteOfModule(bytes, k);
    BitIsDigit(bytes[k / 8 + 1], k % 8);
  }

  method GetModule(qr: array<bv8>, x: nat, y: nat) returns (black: bool)
    requires IsGrid(qr[..]) && x < Side(qr[..]) && y < Side(qr[..])
    ensures black == View(qr[..])[Index(Side(qr[..]), Cell(x, y))]
  {
    hide Bit, View, IsGrid, Side;
    SideIsFirst(qr[..]);
    var side := qr[0] as nat;
    var index := y * side + x;
    assert index == Index(side, Cell(x, y));
    ByteOfModule(qr[..], index);
    black := Bit(qr[index / 8 + 1], index % 8);
  }

  method SetModule(qr: array<bv8>, x: nat, y: nat, isBlack: bool)
    requires IsGrid(qr[..]) && x < Side(qr[..]) && y < Side(qr[..])
    modifies qr
    ensures IsGrid(qr[..]) && Side(qr[..]) == old(Side(qr[..]))
    ensures View(qr[..]) == old(View(qr[..]))[Index(Side(qr[..]), Cell(x, y)) := isBlack]
  {
    hide Bit, View, IsGrid, Side, WithBit;
    ghost var before := qr[..];
    SideIsFirst(before);
    var side := qr[0] as nat;
    var index := y * side + x;
    assert index == Index(side, Cell(x, y));
    ByteOfModule(before, index);
    ViewUpdate(before, index, isBlack);
    var b := qr[index / 8 + 1];
    qr[index / 8 + 1] := WithBit(b, index % 8, isBlack);
    assert qr[..] == before[index / 8 + 1 := WithBit(b, index % 8, isBlack)];
  }
}
