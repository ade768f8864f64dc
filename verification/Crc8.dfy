/** The 8-bit CRC of the 1-Wire bus: the lookup table and what it computes. */
module Crc8 {
  import opened PackedBits

  /** One bit of the CRC with polynomial x^8 + x^5 + x^4 + 1, least significant bit first. */
  function ShiftOne(c: bv8): bv8 {
    if c & 1 != 0 then (c >> 1) ^ 0x8C else c >> 1
  }

  /** Eight bits of the CRC: the function that the table tabulates. */
  function ShiftByte(c: bv8): bv8 {
    ShiftOne(ShiftOne(ShiftOne(ShiftOne(ShiftOne(ShiftOne(ShiftOne(ShiftOne(c))))))))
  }

  /** The lookup table, in rows of 16. */
  function TableRow(r: nat): (row: seq<bv8>)
    requires r < 16
    ensures |row| == 16
  {
    match r
    case 0 => [0, 94, 188, 226, 97, 63, 221, 131, 194, 156, 126, 32, 163, 253, 31, 65]
    case 1 => [157, 195, 33, 127, 252, 162, 64, 30, 95, 1, 227, 189, 62, 96, 130, 220]
    case 2 => [35, 125, 159, 193, 66, 28, 254, 160, 225, 191, 93, 3, 128, 222, 60, 98]
    case 3 => [190, 224, 2, 92, 223, 129, 99, 61, 124, 34, 192, 158, 29, 67, 161, 255]
    case 4 => [70, 24, 250, 164, 39, 121, 155, 197, 132, 218, 56, 102, 229, 187, 89, 7]
    case 5 => [219, 133, 103, 57, 186, 228, 6, 88, 25, 71, 165, 251, 120, 38, 196, 154]
    case 6 => [101, 59, 217, 135, 4, 90, 184, 230, 167, 249, 27, 69, 198, 152, 122, 36]
    case 7 => [248, 166, 68, 26, 153, 199, 37, 123, 58, 100, 134, 216, 91, 5, 231, 185]
    case 8 => [140, 210, 48, 110, 237, 179, 81, 15, 78, 16, 242, 172, 47, 113, 147, 205]
    case 9 => [17, 79, 173, 243, 112, 46, 204, 146, 211, 141, 111, 49, 178, 236, 14, 80]
    case 10 => [175, 241, 19, 77, 206, 144, 114, 44, 109, 51, 209, 143, 12, 82, 176, 238]
    case 11 => [50, 108, 142, 208, 83, 13, 239, 177, 240, 174, 76, 18, 145, 207, 45, 115]
    case 12 => [202, 148, 118, 40, 171, 245, 23, 73, 8, 86, 180, 234, 105, 55, 213, 139]
    case 13 => [87, 9, 235, 181, 54, 104, 138, 212, 149, 203, 41, 119, 244, 170, 72, 22]
    case 14 => [233, 183, 85, 11, 136, 214, 52, 106, 43, 117, 151, 201, 74, 20, 246, 168]
    case _ => [116, 42, 200, 150, 21, 75, 169, 247, 182, 232, 10, 84, 215, 137, 107, 53]
  }

  function Table(x: bv8): bv8 {
    TableRow((x >> 4) as nat)[(x & 15) as nat]
  }

  /** Feeds a byte into the CRC. */
  function CalcCrc(crc: bv8, data: bv8): bv8 {
    Table(Xor(crc, data))
  }

  function Xor(a: bv8, b: bv8): bv8 {
    a ^ b
  }

  // ---------- The table is the CRC ----------

  function ShiftAt(base: bv8, lo: bv8): bv8 {
    ShiftByte(base ^ lo)
  }

  function ShiftRow(base: bv8): (row: seq<bv8>)
    ensures |row| == 16
  {
    [ShiftAt(base, 0), ShiftAt(base, 1), ShiftAt(base, 2), ShiftAt(base, 3),
     ShiftAt(base, 4), ShiftAt(base, 5), ShiftAt(base, 6), ShiftAt(base, 7),
     ShiftAt(base, 8), ShiftAt(base, 9), ShiftAt(base, 10), ShiftAt(base, 11),
     ShiftAt(base, 12), ShiftAt(base, 13), ShiftAt(base, 14), ShiftAt(base, 15)]
  }

  lemma Rows0To3()
    ensures TableRow(0) == ShiftRow(0x00)
    ensures TableRow(1) == ShiftRow(0x10)
    ensures TableRow(2) == ShiftRow(0x20)
    ensures TableRow(3) == ShiftRow(0x30)
  {}

  lemma Rows4To7()
    ensures TableRow(4) == ShiftRow(0x40)
    ensures TableRow(5) == ShiftRow(0x50)
    ensures TableRow(6) == ShiftRow(0x60)
    ensures TableRow(7) == ShiftRow(0x70)
  {}

  lemma Rows8To11()
    ensures TableRow(8) == ShiftRow(0x80)
    ensures TableRow(9) == ShiftRow(0x90)
    ensures TableRow(10) == ShiftRow(0xA0)
    ensures TableRow(11) == ShiftRow(0xB0)
  {}

  lemma Rows12To13()
    ensures TableRow(12) == ShiftRow(0xC0)
    ensures TableRow(13) == ShiftRow(0xD0)
  {}

  lemma Rows14To15()
    ensures TableRow(14) == ShiftRow(0xE0)
    ensures TableRow(15) == ShiftRow(0xF0)
  {}

  lemma RowIsShifted(hi: bv8)
    requires hi < 16
    ensures TableRow(hi as nat) == ShiftRow(hi << 4)
  {
    hide TableRow, ShiftRow;
    Rows0To3(); Rows4To7(); Rows8To11(); Rows12To13(); Rows14To15();
    Nibble(hi);
  }

  lemma Nibble(n: bv8)
    requires n < 16
    ensures n in [0, 1, 2, 3, 4, 5, 6, 7, 8, 9, 10, 11, 12, 13, 14, 15]
  {}

  lemma ColumnIsShifted(base: bv8, lo: bv8)
    requires lo < 16
    ensures ShiftRow(base)[lo as nat] == ShiftAt(base, lo)
  {
    if lo < 8 {
      LowColumn(base, lo);
    } else {
      HighColumn(base, lo);
    }
  }

  lemma LowColumn(base: bv8, lo: bv8)
    requires lo < 8
    ensures ShiftRow(base)[lo as nat] == ShiftAt(base, lo)
  {
    hide ShiftAt;
    assert lo in [0, 1, 2, 3, 4, 5, 6, 7];
  }

  lemma HighColumn(base: bv8, lo: bv8)
    requires 8 <= lo < 16
    ensures ShiftRow(base)[lo as nat] == ShiftAt(base, lo)
  {
    hide ShiftAt;
    assert lo in [8, 9, 10, 11, 12, 13, 14, 15];
  }

  /** The table is the CRC of its index. */
  lemma TableIsShift(x: bv8)
    ensures Table(x) == ShiftByte(x)
  {
    hide TableRow, ShiftRow, ShiftByte;
    var hi, lo := x >> 4, x & 15;
    RowIsShifted(hi);
    ColumnIsShifted(hi << 4, lo);
    assert (hi << 4) ^ lo == x;
  }

  lemma ShiftOneInjective(x: bv8, y: bv8)
    requires ShiftOne(x) == ShiftOne(y)
    ensures x == y
  {}

  lemma ShiftByteInjective(x: bv8, y: bv8)
    requires ShiftByte(x) == ShiftByte(y)
    ensures x == y
  {
    hide ShiftOne;
    var x1, y1 := ShiftOne(x), ShiftOne(y);
    var x2, y2 := ShiftOne(x1), ShiftOne(y1);
    var x3, y3 := ShiftOne(x2), ShiftOne(y2);
    var x4, y4 := ShiftOne(x3), ShiftOne(y3);
    var x5, y5 := ShiftOne(x4), ShiftOne(y4);
    var x6, y6 := ShiftOne(x5), ShiftOne(y5);
    var x7, y7 := ShiftOne(x6), ShiftOne(y6);
    ShiftOneInjective(x7, y7);
    ShiftOneInjective(x6, y6);
    ShiftOneInjective(x5, y5);
    ShiftOneInjective(x4, y4);
    ShiftOneInjective(x3, y3);
    ShiftOneInjective(x2, y2);
    ShiftOneInjective(x1, y1);
    ShiftOneInjective(x, y);
  }

  /** The table is a permutation that fixes 0, and nothing else is sent to 0. */
  lemma TableIsPermutation(x: bv8, y: bv8)
    ensures Table(x) == Table(y) <==> x == y
    ensures Table(x) == 0 <==> x == 0
  {
    hide ShiftByte, Table;
    TableIsShift(x);
    TableIsShift(y);
    TableIsShift(0);
    ShiftByteOfZero();
    if Table(x) == Table(y) { ShiftByteInjective(x, y); }
    if Table(x) == 0 { ShiftByteInjective(x, 0); }
  }

  lemma ShiftByteOfZero()
    ensures ShiftByte(0) == 0
  {}

  lemma CalcCrcCancels(c: bv8, d: bv8, x: bv8, y: bv8)
    ensures CalcCrc(c, x) == CalcCrc(d, x) <==> c == d
    ensures CalcCrc(c, x) == CalcCrc(c, y) <==> x == y
    ensures CalcCrc(c, x) == 0 <==> c == x
  {
    hide Table, Xor;
    TableIsPermutation(Xor(c, x), Xor(d, x));
    TableIsPermutation(Xor(c, x), Xor(c, y));
    XorCancels(c, d, x);
    XorCancels(x, y, c);
  }

  lemma XorCancels(a: bv8, b: bv8, c: bv8)
    ensures Xor(a, c) == Xor(b, c) <==> a == b
    ensures Xor(c, a) == Xor(c, b) <==> a == b
    ensures Xor(a, c) == 0 <==> a == c
  {}

  lemma XorZero(a: bv8)
    ensures Xor(a, 0) == a
  {}

  // ---------- Blocks ----------

  function CrcOf(crc: bv8, data: seq<bv8>): bv8 {
    if data == [] then crc else CalcCrc(CrcOf(crc, data[..|data| - 1]), data[|data| - 1])
  }

  /** Accumulates the CRC of a block; like the driver it takes at least one byte. */
  method CalcCrcBlock(crc: bv8, buffer: array<bv8>, len: nat) returns (r: bv8)
    requires 1 <= len <= buffer.Length
    ensures r == CrcOf(crc, buffer[..len])
  {
    hide CalcCrc;
    r := crc;
    var i := 0;
    while true
      invariant i < len && r == CrcOf(crc, buffer[..i])
      decreases len - i
    {
      assert buffer[..i + 1][..i] == buffer[..i];
      r := CalcCrc(r, buffer[i]);
      i := i + 1;
      if len - i == 0 {
        break;
      }
    }
  }

  lemma {:induction false} CrcFromDifferentStart(c: bv8, d: bv8, data: seq<bv8>)
    ensures CrcOf(c, data) == CrcOf(d, data) <==> c == d
  {
    hide CalcCrc;
    if data != [] {
      var n := |data| - 1;
      CrcFromDifferentStart(c, d, data[..n]);
      CalcCrcCancels(CrcOf(c, data[..n]), CrcOf(d, data[..n]), data[n], data[n]);
    }
  }

  lemma {:induction false} CrcConcat(c: bv8, a: seq<bv8>, b: seq<bv8>)
    ensures CrcOf(c, a + b) == CrcOf(CrcOf(c, a), b)
  {
    hide CalcCrc;
    if b == [] {
      assert a + b == a;
    } else {
      var n := |b| - 1;
      assert (a + b)[..|a| + n] == a + b[..n];
      CrcConcat(c, a, b[..n]);
    }
  }

  /** Changing any one byte of a block, of any length, changes its CRC. */
  lemma OneByteChangeDetected(crc: bv8, data: seq<bv8>, k: nat, v: bv8)
    requires k < |data|
    ensures CrcOf(crc, data[k := v]) == CrcOf(crc, data) <==> v == data[k]
  {
    hide CalcCrc;
    var a, b := data[..k], data[k + 1..];
    assert data == a + [data[k]] + b && data[k := v] == a + [v] + b;
    CrcConcat(crc, a + [data[k]], b);
    CrcConcat(crc, a + [v], b);
    CrcFromDifferentStart(CrcOf(crc, a + [v]), CrcOf(crc, a + [data[k]]), b);
    assert (a + [v])[..k] == a && (a + [data[k]])[..k] == a;
    CalcCrcCancels(CrcOf(crc, a), 0, v, data[k]);
  }

  /** A block with CRC 0 has its last byte determined by the others. */
  lemma LastByteDetermined(a: seq<bv8>, x: bv8, y: bv8)
    requires CrcOf(0, a + [x]) == 0 && CrcOf(0, a + [y]) == 0
    ensures x == y
  {
    hide CalcCrc;
    assert (a + [x])[..|a|] == a && (a + [y])[..|a|] == a;
    CalcCrcCancels(CrcOf(0, a), 0, x, y);
  }

  // ---------- The CRC is what a one-bit shift register holds ----------

  /** Eight cells, the lowest bit of the register first. */
  type Register = r: seq<bool> | |r| == 8 witness seq(8, _ => false)

  /**
   One bit enters the register of the polynomial x^8 + x^5 + x^4 + 1: all cells
   move down by one, and the lowest one, if it differs from the bit, is fed
   back into the highest cell and into cells 3 and 2.
   */
  function Feed(r: Register, bit: bool): Register {
    var feedback := r[0] != bit;
    [r[1], r[2], r[3] != feedback, r[4] != feedback, r[5], r[6], r[7], feedback]
  }

  function FeedAll(r: Register, bits: seq<bool>): Register {
    if bits == [] then r else Feed(FeedAll(r, bits[..|bits| - 1]), bits[|bits| - 1])
  }

  /** The bits of a byte, least significant first. */
  function Cells(b: bv8): Register {
    [Bit(b, 0), Bit(b, 1), Bit(b, 2), Bit(b, 3), Bit(b, 4), Bit(b, 5), Bit(b, 6), Bit(b, 7)]
  }

  /** The bits of the bytes in the order in which the bus carries them, least significant first. */
  function BitsInOrder(data: seq<bv8>): (bits: seq<bool>)
    ensures |bits| == 8 * |data|
  {
    if data == [] then [] else BitsInOrder(data[..|data| - 1]) + Cells(data[|data| - 1])
  }

  function BitByte(bit: bool): bv8 {
    if bit then 1 else 0
  }

  lemma CellsOfFirst(c: bv8, bit: bool)
    ensures Cells(Xor(c, BitByte(bit))) == Cells(c)[0 := Bit(c, 0) != bit]
  {
    if bit {
      CellsOfOther(c);
    } else {
      assert c ^ 0 == c;
    }
  }

  lemma CellsOfOther(c: bv8)
    ensures Cells(c ^ 1) == Cells(c)[0 := !Bit(c, 0)]
  {
    hide Bit, WithBit;
    LowestFlipped(c);
    forall j | 0 <= j < 8
      ensures Bit(c ^ 1, j) == if j == 0 then !Bit(c, 0) else Bit(c, j)
    {
      BitOfWithBit(c, 0, !Bit(c, 0), j);
    }
  }

  lemma LowestFlipped(c: bv8)
    ensures c ^ 1 == WithBit(c, 0, !Bit(c, 0))
  {}

  lemma CellsOfShift(c: bv8)
    ensures var r := Cells(c);
      Cells(ShiftOne(c)) == [r[1], r[2], r[3] != r[0], r[4] != r[0], r[5], r[6], r[7], r[0]]
  {}

  lemma FeedIsShift(c: bv8, bit: bool)
    ensures Feed(Cells(c), bit) == Cells(ShiftOne(Xor(c, BitByte(bit))))
  {
    hide ShiftOne, Xor, Bit, BitByte;
    CellsOfShift(Xor(c, BitByte(bit)));
    CellsOfFirst(c, bit);
  }

  /** The bits above the one that enters pass through the shift. */
  lemma StepOut(c: bv8, e: bv8)
    ensures ShiftOne(Xor(c, e)) == Xor(ShiftOne(Xor(c, BitByte(Bit(e, 0)))), e >> 1)
  {}

  /** e without its n lowest bits. */
  function Behind(e: bv8, n: nat): bv8 {
    if n == 0 then e else Behind(e, n - 1) >> 1
  }

  /** The register as a byte after the n lowest bits of e. */
  function Fed(c: bv8, e: bv8, n: nat): bv8 {
    if n == 0 then c else ShiftOne(Xor(Fed(c, e, n - 1), BitByte(Bit(Behind(e, n - 1), 0))))
  }

  function Shifted(c: bv8, n: nat): bv8 {
    if n == 0 then c else ShiftOne(Shifted(c, n - 1))
  }

  lemma {:induction false} FedIsShifted(c: bv8, e: bv8, n: nat)
    ensures Shifted(Xor(c, e), n) == Xor(Fed(c, e, n), Behind(e, n))
  {
    hide ShiftOne, Xor, Bit, BitByte;
    if n > 0 {
      FedIsShifted(c, e, n - 1);
      StepOut(Fed(c, e, n - 1), Behind(e, n - 1));
    }
  }

  lemma {:induction false} FedIsFeed(c: bv8, e: bv8, n: nat)
    requires n <= 8
    ensures Cells(Fed(c, e, n)) == FeedAll(Cells(c), Cells(e)[..n])
  {
    hide ShiftOne, Xor, Bit, BitByte, Feed, Cells, Behind;
    if n > 0 {
      FedIsFeed(c, e, n - 1);
      FeedIsShift(Fed(c, e, n - 1), Bit(Behind(e, n - 1), 0));
      BitBehind(e, n - 1, 0);
      assert Cells(e)[..n][..n - 1] == Cells(e)[..n - 1];
    }
  }

  lemma BitOfShift(e: bv8, i: nat)
    requires i < 7
    ensures Bit(e >> 1, i) == Bit(e, i + 1)
  {
    match i
    case 0 => case 1 => case 2 => case 3 => case 4 => case 5 => case 6 =>
  }

  lemma {:induction false} BitBehind(e: bv8, n: nat, i: nat)
    requires n + i < 8
    ensures Bit(Behind(e, n), i) == Cells(e)[n + i]
  {
    hide Bit;
    if n > 0 {
      BitOfShift(Behind(e, n - 1), i);
      BitBehind(e, n - 1, i + 1);
    }
  }

  lemma NothingBehind(e: bv8)
    ensures Behind(e, 8) == 0
  {
    assert Behind(e, 1) == e >> 1;
    assert Behind(e, 2) == e >> 2;
    assert Behind(e, 4) == e >> 4;
    assert Behind(e, 6) == e >> 6;
  }

  lemma EightShifts(x: bv8)
    ensures Shifted(x, 8) == ShiftByte(x)
  {
    hide ShiftOne;
    assert Shifted(x, 1) == ShiftOne(Shifted(x, 0));
    assert Shifted(x, 2) == ShiftOne(Shifted(x, 1));
    assert Shifted(x, 3) == ShiftOne(Shifted(x, 2));
    assert Shifted(x, 4) == ShiftOne(Shifted(x, 3));
    assert Shifted(x, 5) == ShiftOne(Shifted(x, 4));
    assert Shifted(x, 6) == ShiftOne(Shifted(x, 5));
    assert Shifted(x, 7) == ShiftOne(Shifted(x, 6));
  }

  /** A byte looked up in the table is its eight bits fed one at a time. */
  lemma ByteIsFed(c: bv8, d: bv8)
    ensures Cells(CalcCrc(c, d)) == FeedAll(Cells(c), Cells(d))
  {
    hide ShiftOne, ShiftByte, Shifted, Fed, Behind, Xor, Bit, Feed, Cells, Table;
    TableIsShift(Xor(c, d));
    EightShifts(Xor(c, d));
    FedIsShifted(c, d, 8);
    NothingBehind(d);
    XorZero(Fed(c, d, 8));
    FedIsFeed(c, d, 8);
    assert Cells(d)[..8] == Cells(d);
  }

  lemma {:induction false} FeedConcat(r: Register, a: seq<bool>, b: seq<bool>)
    ensures FeedAll(r, a + b) == FeedAll(FeedAll(r, a), b)
  {
    hide Feed;
    if b == [] {
      assert a + b == a;
    } else {
      var n := |b| - 1;
      assert (a + b)[..|a| + n] == a + b[..n];
      FeedConcat(r, a, b[..n]);
    }
  }

  /**
   The CRC of a block is what the shift register holds after all bits of the
   block were fed one at a time.
   */
  lemma {:induction false} CrcIsRegister(c: bv8, data: seq<bv8>)
    ensures Cells(CrcOf(c, data)) == FeedAll(Cells(c), BitsInOrder(data))
  {
    hide CalcCrc, Cells, Feed;
    if data != [] {
      var n := |data| - 1;
      CrcIsRegister(c, data[..n]);
      ByteIsFed(CrcOf(c, data[..n]), data[n]);
      FeedConcat(Cells(c), BitsInOrder(data[..n]), Cells(data[n]));
    }
  }

  lemma NextByte(c: bv8, data: seq<bv8>, k: nat)
    requires k < |data|
    ensures CrcOf(c, data[..k + 1]) == CalcCrc(CrcOf(c, data[..k]), data[k])
  {
    assert data[..k + 1][..k] == data[..k];
  }

  lemma KnownSteps()
    ensures CalcCrc(0x00, 0x02) == 0xbc
    ensures CalcCrc(0xbc, 0x1c) == 0xaf
    ensures CalcCrc(0xaf, 0xb8) == 0x1e
    ensures CalcCrc(0x1e, 0x01) == 0xdc
    ensures CalcCrc(0xdc, 0x00) == 0xf4
    ensures CalcCrc(0xf4, 0x00) == 0x15
    ensures CalcCrc(0x15, 0x00) == 0xa2
    ensures CalcCrc(0xa2, 0xa2) == 0x00
  {
    hide Table, ShiftByte;
    TableIsShift(0x02);
    TableIsShift(0xa0);
    TableIsShift(0x17);
    TableIsShift(0x1f);
    TableIsShift(0xdc);
    TableIsShift(0xf4);
    TableIsShift(0x15);
    TableIsShift(0x00);
    KnownShifts();
  }

  lemma KnownShifts()
    ensures ShiftByte(0x02) == 0xbc
    ensures ShiftByte(0xa0) == 0xaf
    ensures ShiftByte(0x17) == 0x1e
    ensures ShiftByte(0x1f) == 0xdc
    ensures ShiftByte(0xdc) == 0xf4
    ensures ShiftByte(0xf4) == 0x15
    ensures ShiftByte(0x15) == 0xa2
    ensures ShiftByte(0x00) == 0x00
  {}

  /** A code whose CRC is right. */
  lemma KnownCode()
    ensures CrcOf(0, [0x02, 0x1C, 0xB8, 0x01, 0x00, 0x00, 0x00, 0xA2]) == 0
  {
    hide CalcCrc, CrcOf;
    var data: seq<bv8> := [0x02, 0x1C, 0xB8, 0x01, 0x00, 0x00, 0x00, 0xA2];
    KnownSteps();
    NoBytes(0);
    assert data[..0] == [] && data[..8] == data;
    NextByte(0, data, 0);
    NextByte(0, data, 1);
    NextByte(0, data, 2);
    NextByte(0, data, 3);
    NextByte(0, data, 4);
    NextByte(0, data, 5);
    NextByte(0, data, 6);
    NextByte(0, data, 7);
  }

  lemma NoBytes(c: bv8)
    ensures CrcOf(c, []) == c
  {}
}
