/** Single bits of bytes, and byte strings seen as bit strings. */
module PackedBits {
  import opened GridIndexing

  predicate Bit(b: bv8, i: nat)
    requires i < 8
  {
    (b >> i) & 1 != 0
  }

  function WithBit(b: bv8, i: nat, value: bool): bv8
    requires i < 8
  {
    if value then b | (1 << i) else b & ((1 << i) ^ 0xFF)
  }

  function Mask(i: nat): bv8
    requires i < 8
  {
    match i
    case 0 => 1 case 1 => 2 case 2 => 4 case 3 => 8 case 4 => 16 case 5 => 32 case 6 => 64 case 7 => 128
  }

  predicate HasMask(b: bv8, mask: bv8) {
    b & mask != 0
  }

  lemma BitMask(b: bv8, i: nat)
    requires i < 8
    ensures Bit(b, i) == HasMask(b, Mask(i))
  {
    match i
    case 0 => case 1 => case 2 => case 3 => case 4 => case 5 => case 6 => case 7 =>
  }

  lemma MaskIsShift(i: nat)
    requires i < 8
    ensures Mask(i) == 1 << i
  {
    match i
    case 0 => case 1 => case 2 => case 3 => case 4 => case 5 => case 6 => case 7 =>
  }

  lemma WithBitMask(b: bv8, i: nat, value: bool)
    requires i < 8
    ensures WithBit(b, i, value) == if value then b | Mask(i) else b & (Mask(i) ^ 0xFF)
  {
    hide Mask, Bit;
    MaskIsShift(i);
  }

  lemma MaskedUpdate(b: bv8, w: bv8, m: bv8, k: bv8, i: nat, j: nat, value: bool)
    requires i < 8 && j < 8 && m == Mask(i) && k == Mask(j)
    requires w == if value then b | m else b & (m ^ 0xFF)
    ensures HasMask(w, k) <==> if i == j then value else HasMask(b, k)
  {}

  lemma BitOfWithBit(b: bv8, i: nat, value: bool, j: nat)
    requires i < 8 && j < 8
    ensures Bit(WithBit(b, i, value), j) == if i == j then value else Bit(b, j)
  {
    hide Mask, HasMask, Bit, WithBit;
    BitMask(b, j);
    BitMask(WithBit(b, i, value), j);
    MaskedWithBit(b, i, value, j);
  }

  lemma MaskedWithBit(b: bv8, i: nat, value: bool, j: nat)
    requires i < 8 && j < 8
    ensures HasMask(WithBit(b, i, value), Mask(j)) <==> if i == j then value else HasMask(b, Mask(j))
  {
    hide Mask, HasMask, WithBit;
    WithBitMask(b, i, value);
    MaskedUpdate(b, WithBit(b, i, value), Mask(i), Mask(j), i, j, value);
  }

  lemma ByteFromBits(a: bv8, b: bv8)
    requires forall i :: 0 <= i < 8 ==> Bit(a, i) == Bit(b, i)
    ensures a == b
  {
    hide Bit;
    BitMask(a, 0); BitMask(a, 1); BitMask(a, 2); BitMask(a, 3);
    BitMask(a, 4); BitMask(a, 5); BitMask(a, 6); BitMask(a, 7);
    BitMask(b, 0); BitMask(b, 1); BitMask(b, 2); BitMask(b, 3);
    BitMask(b, 4); BitMask(b, 5); BitMask(b, 6); BitMask(b, 7);
    AllBits(a, b);
  }

  lemma AllBits(a: bv8, b: bv8)
    requires a & 1 == 0 <==> b & 1 == 0
    requires a & 2 == 0 <==> b & 2 == 0
    requires a & 4 == 0 <==> b & 4 == 0
    requires a & 8 == 0 <==> b & 8 == 0
    requires a & 16 == 0 <==> b & 16 == 0
    requires a & 32 == 0 <==> b & 32 == 0
    requires a & 64 == 0 <==> b & 64 == 0
    requires a & 128 == 0 <==> b & 128 == 0
    ensures a == b
  {}

  lemma Digit0(b: bv8)
    ensures HasMask(b, 1) <==> ShiftedBit(b as nat, 0)
  {}

  lemma Digit1(b: bv8)
    ensures HasMask(b, 2) <==> ShiftedBit(b as nat, 1)
  {
    assert Pow2(1) == 2;
  }

  lemma Digit2(b: bv8)
    ensures HasMask(b, 4) <==> ShiftedBit(b as nat, 2)
  {
    assert Pow2(2) == 4;
  }

  lemma Digit3(b: bv8)
    ensures HasMask(b, 8) <==> ShiftedBit(b as nat, 3)
  {
    assert Pow2(3) == 8;
  }

  lemma Digit4(b: bv8)
    ensures HasMask(b, 16) <==> ShiftedBit(b as nat, 4)
  {
    assert Pow2(4) == 16;
  }

  lemma Digit5(b: bv8)
    ensures HasMask(b, 32) <==> ShiftedBit(b as nat, 5)
  {
    assert Pow2(5) == 32;
  }

  lemma Digit6(b: bv8)
    ensures HasMask(b, 64) <==> ShiftedBit(b as nat, 6)
  {
    assert Pow2(6) == 64;
  }

  lemma Digit7(b: bv8)
    ensures HasMask(b, 128) <==> ShiftedBit(b as nat, 7)
  {
    assert Pow2(7) == 128;
  }

  /** The bits of a byte string, most significant first. */
  function Bits(data: seq<bv8>): (bits: seq<bool>)
    ensures |bits| == 8 * |data|
  {
    seq(8 * |data|, i requires 0 <= i < 8 * |data| => Bit(data[i / 8], 7 - i % 8))
  }

  lemma BitsUpdate(data: seq<bv8>, k: nat)
    requires k < 8 * |data|
    ensures Bits(data[k / 8 := WithBit(data[k / 8], 7 - k % 8, true)]) == Bits(data)[k := true]
  {
    hide Bit, WithBit;
    var b := data[k / 8];
    var after := data[k / 8 := WithBit(b, 7 - k % 8, true)];
    forall m: nat | m < 8 * |data|
      ensures Bits(after)[m] == if m == k then true else Bits(data)[m]
    {
      if m / 8 == k / 8 {
        BitOfWithBit(b, 7 - k % 8, true, 7 - m % 8);
      }
    }
  }

  // ---------- Numbers as bit strings ----------

  function Pow2(n: nat): (p: nat)
    ensures p > 0
  {
    if n == 0 then 1 else 2 * Pow2(n - 1)
  }

  /** The n low-order bits of v, most significant first. */
  function ValueBits(v: nat, n: nat): (bits: seq<bool>)
    ensures |bits| == n
  {
    if n == 0 then [] else ValueBits(v / 2, n - 1) + [v % 2 == 1]
  }

  /** Bit i of a byte is the one that a division by 2^i brings to the bottom. */
  lemma BitIsDigit(b: bv8, i: nat)
    requires i < 8
    ensures Bit(b, i) <==> ShiftedBit(b as nat, i)
  {
    hide Bit, HasMask, ShiftedBit;
    BitMask(b, i);
    match i {
      case 0 => Digit0(b);
      case 1 => Digit1(b);
      case 2 => Digit2(b);
      case 3 => Digit3(b);
      case 4 => Digit4(b);
      case 5 => Digit5(b);
      case 6 => Digit6(b);
      case 7 => Digit7(b);
    }
  }

  function BitsValue(bits: seq<bool>): nat {
    if bits == [] then 0
    else 2 * BitsValue(bits[..|bits| - 1]) + if bits[|bits| - 1] then 1 else 0
  }

  lemma {:induction false} ValueRoundTrip(v: nat, n: nat)
    requires v < Pow2(n)
    ensures BitsValue(ValueBits(v, n)) == v
  {
    if n > 0 {
      var bits := ValueBits(v, n);
      assert bits[..n - 1] == ValueBits(v / 2, n - 1);
      ValueRoundTrip(v / 2, n - 1);
    }
  }

  /** The bit that a right shift by i brings to the bottom. */
  predicate ShiftedBit(v: nat, i: nat) {
    v / Pow2(i) % 2 == 1
  }

  lemma {:induction false} ValueBitAt(v: nat, n: nat, i: nat)
    requires i < n
    ensures ValueBits(v, n)[n - 1 - i] == ShiftedBit(v, i)
  {
    if i == 0 {
      assert Pow2(0) == 1;
    } else {
      ValueBitAt(v / 2, n - 1, i - 1);
      DivDiv(v, Pow2(i - 1));
    }
  }

  lemma DivDiv(v: nat, p: nat)
    requires p > 0
    ensures v / 2 / p == v / (2 * p)
  {
    var q := v / (2 * p);
    var r := v - q * (2 * p);
    assert 0 <= r < 2 * p by { assert v == (2 * p) * q + v % (2 * p); }
    assert v / 2 == q * p + r / 2;
    GridIndex(r / 2, q, q + 1, p);
  }

  /**
   Appends the numBits low-order bits of val to the first bitLen bits of the
   buffer.  Bits are ORed in, so those already set stay set.
   */
  method AppendBitsToBuffer(val: nat, numBits: nat, buffer: array<bv8>, bitLen: nat) returns (newLen: nat)
    requires numBits <= 16 && val < Pow2(numBits)
    requires bitLen + numBits <= 8 * buffer.Length
    modifies buffer
    ensures newLen == bitLen + numBits
    ensures Bits(buffer[..]) == Ored(old(Bits(buffer[..])), bitLen, ValueBits(val, numBits))
  {
    hide Bit, WithBit, Bits, ShiftedBit, Ored, ValueBits;
    ghost var before, bits := Bits(buffer[..]), ValueBits(val, numBits);
    newLen := bitLen;
    OredNothing(before, bitLen);
    assert bits[..0] == [];
    for i := numBits downto 0
      invariant newLen == bitLen + (numBits - i)
      invariant Bits(buffer[..]) == Ored(before, bitLen, bits[..numBits - i])
    {
      ValueBitAt(val, numBits, i);
      OredStep(before, bitLen, bits, numBits - i - 1);
      ghost var now := buffer[..];
      var k := newLen / 8;
      BitsUpdate(now, newLen);
      if ShiftedBit(val, i) {
        var b := buffer[k];
        buffer[k] := WithBit(b, 7 - newLen % 8, true);
        assert buffer[..] == now[k := WithBit(now[k], 7 - newLen % 8, true)];
      }
      newLen := newLen + 1;
    }
    assert bits[..numBits] == bits;
  }

  lemma OredNothing(bits: seq<bool>, at: nat)
    requires at <= |bits|
    ensures Ored(bits, at, []) == bits
  {}

  lemma OredStep(bits: seq<bool>, at: nat, extra: seq<bool>, n: nat)
    requires n < |extra| && at + |extra| <= |bits|
    ensures var before := Ored(bits, at, extra[..n]);
      Ored(bits, at, extra[..n + 1]) == if extra[n] then before[at + n := true] else before
  {}

  /** bits with extra ORed in from position at on. */
  function Ored(bits: seq<bool>, at: nat, extra: seq<bool>): (r: seq<bool>)
    requires at + |extra| <= |bits|
    ensures |r| == |bits|
  {
    seq(|bits|, k requires 0 <= k < |bits| => bits[k] || (at <= k < at + |extra| && extra[k - at]))
  }
}
