/**
 The field GF(2^8) with modulus 0x11D in which the QR Code error correction
 works (section 7.5 of ISO/IEC 18004:2015), built on the Russian peasant loop
 of the symbol generator.

 A field element is a byte and addition is XOR.  Every law below rests on two
 facts about the loop: doubling is additive, and each pass doubles and adds.
 Inverses rest on the squares: x to the power 256 is x, and only 0 and 1 are
 their own squares.
 Proofs hide the bit-level bodies they do not need.
 */
module GaloisField {
  import opened PackedBits

  function Add(x: bv8, y: bv8): bv8 {
    x ^ y
  }

  /** z times 2, reduced by 0x11D; the carry out of bit 7 is dropped by the byte type. */
  function Double(z: bv8): bv8 {
    (z << 1) ^ (if z & 0x80 != 0 then 0x1D else 0)
  }

  /** One pass of the loop: double, then add x if the current bit of y is set. */
  function Pass(z: bv8, x: bv8, bit: bool): bv8 {
    if bit then Add(Double(z), x) else Double(z)
  }

  /** The accumulator after the loop has consumed bits 7 down to i of y. */
  function MulFrom(x: bv8, y: bv8, i: nat): bv8
    requires i <= 8
    decreases 8 - i
  {
    if i == 8 then 0 else Pass(MulFrom(x, y, i + 1), x, Bit(y, i))
  }

  function Mul(x: bv8, y: bv8): bv8 {
    MulFrom(x, y, 0)
  }

  method ReedSolomonMultiply(x: bv8, y: bv8) returns (z: bv8)
    ensures z == Mul(x, y)
  {
    z := 0;
    for i := 8 downto 0
      invariant z == MulFrom(x, y, i)
    {
      hide Bit, Double, Add;
      z := Double(z);
      if Bit(y, i) {
        z := Add(z, x);
      }
    }
  }

  // ---------- Addition ----------

  lemma AddLaws(x: bv8, y: bv8, z: bv8)
    ensures Add(x, y) == Add(y, x)
    ensures Add(Add(x, y), z) == Add(x, Add(y, z))
    ensures Add(x, x) == 0 && Add(x, 0) == x && Add(0, x) == x
  {}

  lemma AddShuffle(a: bv8, b: bv8, c: bv8, d: bv8)
    ensures Add(Add(a, b), Add(c, d)) == Add(Add(a, c), Add(b, d))
  {
    hide Add;
    AddLaws(a, b, Add(c, d));
    AddLaws(b, c, d);
    AddLaws(c, b, d);
    AddLaws(a, c, Add(b, d));
  }

  lemma AddZero(x: bv8, y: bv8)
    ensures Add(x, y) == 0 <==> x == y
  {}

  // ---------- Doubling ----------

  lemma DoubleAdd(x: bv8, y: bv8)
    ensures Double(Add(x, y)) == Add(Double(x), Double(y))
  {
    if x & 0x80 != 0 {
      if y & 0x80 != 0 { assert (x ^ y) & 0x80 == 0; } else { assert (x ^ y) & 0x80 != 0; }
    } else {
      if y & 0x80 != 0 { assert (x ^ y) & 0x80 != 0; } else { assert (x ^ y) & 0x80 == 0; }
    }
  }

  /** Addition is exclusive or, bit by bit. */
  lemma AddBit(x: bv8, y: bv8, i: nat)
    requires i < 8
    ensures Bit(Add(x, y), i) == (Bit(x, i) != Bit(y, i))
  {
    hide Bit;
    BitMask(x, i);
    BitMask(y, i);
    BitMask(Add(x, y), i);
  }

  /** Multiplication by x modulo x^8 + x^4 + x^3 + x^2 + 1, coefficient by coefficient. */
  lemma DoubleBit(z: bv8, i: nat)
    requires i < 8
    ensures Bit(Double(z), i) == ((i > 0 && Bit(z, i - 1)) != (Bit(z, 7) && i in {0, 2, 3, 4}))
  {
    hide Bit, Double;
    BitMask(Double(z), i);
    BitMask(z, 7);
    if i > 0 {
      BitMask(z, i - 1);
    }
    DoubleMask(z, Mask(i), if i > 0 then Mask(i - 1) else 0, i);
  }

  lemma DoubleMask(z: bv8, m: bv8, below: bv8, i: nat)
    requires i < 8 && m == Mask(i) && below == if i > 0 then Mask(i - 1) else 0
    ensures HasMask(Double(z), m) == ((i > 0 && HasMask(z, below)) != (HasMask(z, 128) && i in {0, 2, 3, 4}))
  {
    match i
    case 0 => case 1 => case 2 => case 3 => case 4 => case 5 => case 6 => case 7 =>
  }

  lemma DoubleOne()
    ensures Double(1) == 2
  {}

  lemma DoubleZero(x: bv8)
    ensures Double(x) == 0 <==> x == 0
  {}

  lemma PassAdd(v: bv8, w: bv8, x: bv8, y: bv8, bit: bool)
    ensures Pass(Add(v, w), Add(x, y), bit) == Add(Pass(v, x, bit), Pass(w, y, bit))
  {
    hide Double, Add;
    DoubleAdd(v, w);
    AddShuffle(Double(v), Double(w), x, y);
  }

  lemma PassDouble(v: bv8, x: bv8, bit: bool)
    ensures Pass(Double(v), Double(x), bit) == Double(Pass(v, x, bit))
  {
    hide Double, Add;
    DoubleAdd(Double(v), x);
  }

  // ---------- The multiplication is linear in its first argument ----------

  lemma {:induction false} MulFromAdd(a: bv8, b: bv8, y: bv8, i: nat)
    requires i <= 8
    ensures MulFrom(Add(a, b), y, i) == Add(MulFrom(a, y, i), MulFrom(b, y, i))
    decreases 8 - i
  {
    hide Add, Pass, Bit;
    if i < 8 {
      MulFromAdd(a, b, y, i + 1);
      PassAdd(MulFrom(a, y, i + 1), MulFrom(b, y, i + 1), a, b, Bit(y, i));
    } else {
      AddLaws(0, 0, 0);
    }
  }

  lemma {:induction false} MulFromDouble(x: bv8, y: bv8, i: nat)
    requires i <= 8
    ensures MulFrom(Double(x), y, i) == Double(MulFrom(x, y, i))
    decreases 8 - i
  {
    hide Double, Pass, Bit;
    if i < 8 {
      MulFromDouble(x, y, i + 1);
      PassDouble(MulFrom(x, y, i + 1), x, Bit(y, i));
    } else {
      DoubleZero(0);
    }
  }

  lemma {:induction false} MulFromZero(y: bv8, i: nat)
    requires i <= 8
    ensures MulFrom(0, y, i) == 0
    decreases 8 - i
  {
    hide Double, Bit, Add;
    if i < 8 {
      MulFromZero(y, i + 1);
      DoubleZero(0);
      AddLaws(0, 0, 0);
    }
  }

  lemma OneMoreBit(y: bv8, i: nat)
    requires i < 8
    ensures Pass(if i == 7 then 0 else y >> (i + 1), 1, Bit(y, i)) == y >> i
  {
    match i
    case 0 => case 1 => case 2 => case 3 => case 4 => case 5 => case 6 => case 7 =>
  }

  /** With x = 1 the loop copies y bit by bit. */
  lemma {:induction false} MulFromOne(y: bv8, i: nat)
    requires i <= 8
    ensures MulFrom(1, y, i) == if i == 8 then 0 else y >> i
    decreases 8 - i
  {
    hide Pass, Bit;
    if i < 8 {
      MulFromOne(y, i + 1);
      OneMoreBit(y, i);
    }
  }

  lemma MulLeft(a: bv8, b: bv8, y: bv8)
    ensures Mul(Add(a, b), y) == Add(Mul(a, y), Mul(b, y))
    ensures Mul(Double(a), y) == Double(Mul(a, y))
  {
    hide MulFrom, Double, Add;
    MulFromAdd(a, b, y, 0);
    MulFromDouble(a, y, 0);
  }

  lemma MulUnit(y: bv8)
    ensures Mul(0, y) == 0
    ensures Mul(1, y) == y
  {
    hide MulFrom;
    MulFromZero(y, 0);
    MulFromOne(y, 0);
    assert y >> 0 == y;
  }

  // ---------- Commutativity and associativity, by running the loop on an argument ----------

  /** Building x bit by bit from 1 on the left of y is the loop that multiplies y by x. */
  lemma {:induction false} MulSwap(x: bv8, y: bv8, i: nat)
    requires i <= 8
    ensures Mul(MulFrom(1, x, i), y) == MulFrom(y, x, i)
    decreases 8 - i
  {
    hide Double, Add, Bit, Mul;
    if i < 8 {
      MulSwap(x, y, i + 1);
      var w := MulFrom(1, x, i + 1);
      MulLeft(Double(w), 1, y);
      MulLeft(w, 1, y);
      MulUnit(y);
    } else {
      MulUnit(y);
    }
  }

  lemma MulCommutes(x: bv8, y: bv8)
    ensures Mul(x, y) == Mul(y, x)
  {
    hide MulFrom;
    MulSwap(x, y, 0);
    MulUnit(x);
  }

  lemma {:induction false} MulRegroup(x: bv8, y: bv8, z: bv8, i: nat)
    requires i <= 8
    ensures Mul(Mul(MulFrom(1, x, i), y), z) == Mul(MulFrom(1, x, i), Mul(y, z))
    decreases 8 - i
  {
    hide Double, Add, Bit, Mul;
    if i < 8 {
      MulRegroup(x, y, z, i + 1);
      var w := MulFrom(1, x, i + 1);
      MulLeft(Double(w), 1, y);
      MulLeft(w, 1, y);
      MulLeft(Double(Mul(w, y)), Mul(1, y), z);
      MulLeft(Mul(w, y), 1, z);
      MulLeft(Double(w), 1, Mul(y, z));
      MulLeft(w, 1, Mul(y, z));
      MulUnit(y);
      MulUnit(Mul(y, z));
    } else {
      MulUnit(y);
      MulUnit(z);
      MulUnit(Mul(y, z));
    }
  }

  lemma MulAssociates(x: bv8, y: bv8, z: bv8)
    ensures Mul(Mul(x, y), z) == Mul(x, Mul(y, z))
  {
    hide MulFrom;
    MulRegroup(x, y, z, 0);
    MulUnit(x);
  }

  lemma MulRight(x: bv8, a: bv8, b: bv8)
    ensures Mul(x, Add(a, b)) == Add(Mul(x, a), Mul(x, b))
    ensures Mul(x, 0) == 0 && Mul(x, 1) == x
    ensures Mul(x, 2) == Double(x)
  {
    hide MulFrom, Double, Add, Mul;
    MulCommutes(x, Add(a, b));
    MulCommutes(x, a);
    MulCommutes(x, b);
    MulCommutes(x, 0);
    MulCommutes(x, 1);
    MulCommutes(x, 2);
    MulLeft(a, b, x);
    MulUnit(x);
    MulLeft(1, b, x);
    DoubleOne();
  }

  // ---------- Inverses ----------

  function Square(x: bv8): bv8 {
    Mul(x, x)
  }

  /** x to the power 2^n. */
  function Squares(x: bv8, n: nat): bv8 {
    if n == 0 then x else Square(Squares(x, n - 1))
  }

  /** The product of x to the powers 2^0, ..., 2^(n - 1), which is x to the power 2^n - 1. */
  function Norm(x: bv8, n: nat): bv8 {
    if n == 0 then 1 else Mul(Norm(x, n - 1), Squares(x, n - 1))
  }

  /** x to the power 254. */
  function Inverse(x: bv8): bv8 {
    Norm(Square(x), 7)
  }

  lemma SquareLaws(x: bv8, y: bv8)
    ensures Square(Add(x, y)) == Add(Square(x), Square(y))
    ensures Square(Mul(x, y)) == Mul(Square(x), Square(y))
  {
    hide Add, Mul;
    MulLeft(x, y, Add(x, y));
    MulRight(x, x, y);
    MulRight(y, x, y);
    MulCommutes(x, y);
    AddLaws(Square(x), Mul(x, y), Add(Mul(x, y), Square(y)));
    AddLaws(Mul(x, y), Mul(x, y), Square(y));
    AddLaws(Square(y), 0, 0);
    MulAssociates(x, y, Mul(x, y));
    MulAssociates(y, x, y);
    MulCommutes(Mul(y, x), y);
    MulAssociates(y, y, x);
    MulCommutes(Square(y), x);
    MulAssociates(x, x, Square(y));
  }

  lemma {:induction false} SquaresLaws(x: bv8, y: bv8, n: nat)
    ensures Squares(Add(x, y), n) == Add(Squares(x, n), Squares(y, n))
    ensures Squares(Mul(x, y), n) == Mul(Squares(x, n), Squares(y, n))
    ensures Squares(Square(x), n) == Squares(x, n + 1)
  {
    hide Add, Mul, Square;
    if n > 0 {
      SquaresLaws(x, y, n - 1);
      SquareLaws(Squares(x, n - 1), Squares(y, n - 1));
    }
  }

  /** The square of a byte, put together from the squares of its bits. */
  function SquareOfBits(e: bv8): bv8 {
    (e & 0x01) ^ ((e & 0x02) << 1) ^ ((e & 0x04) << 2) ^ ((e & 0x08) << 3)
    ^ (if e & 0x10 != 0 then 0x1D else 0) ^ (if e & 0x20 != 0 then 0x74 else 0)
    ^ (if e & 0x40 != 0 then 0xCD else 0) ^ (if e & 0x80 != 0 then 0x13 else 0)
  }

  lemma SquareOfBitsDouble(w: bv8)
    ensures SquareOfBits(Double(w)) == Double(Double(SquareOfBits(w)))
  {}

  lemma SquareOfBitsAddOne(w: bv8)
    ensures SquareOfBits(0) == 0 && SquareOfBits(Add(w, 1)) == Add(SquareOfBits(w), 1)
  {}

  lemma {:induction false} SquareFrom(x: bv8, i: nat)
    requires i <= 8
    ensures Square(MulFrom(1, x, i)) == SquareOfBits(MulFrom(1, x, i))
    decreases 8 - i
  {
    hide Add, Mul, Double, Bit, SquareOfBits;
    if i < 8 {
      SquareFrom(x, i + 1);
      var w := MulFrom(1, x, i + 1);
      SquareOfBitsDouble(w);
      SquareOfBitsAddOne(Double(w));
      MulLeft(w, 0, Double(w));
      MulRight(w, 0, 0);
      MulAssociates(w, w, 2);
      MulRight(Square(w), 0, 0);
      SquareLaws(Double(w), 1);
      MulUnit(1);
    } else {
      SquareOfBitsAddOne(0);
      MulUnit(0);
    }
  }

  lemma SquareIsOfBits(x: bv8)
    ensures Square(x) == SquareOfBits(x)
  {
    hide MulFrom, Square, SquareOfBits;
    SquareFrom(x, 0);
    MulFromOne(x, 0);
    assert x >> 0 == x;
  }

  lemma SomeSquares()
    ensures Square(0) == 0 && Square(1) == 1
    ensures Square(0x02) == 0x04 && Square(0x04) == 0x10 && Square(0x10) == 0x1D && Square(0x1D) == 0x4C
    ensures Square(0x4C) == 0x9D && Square(0x9D) == 0x5F && Square(0x5F) == 0x85 && Square(0x85) == 0x02
  {
    hide Square;
    SquareIsOfBits(0);
    SquareIsOfBits(1);
    SquareIsOfBits(0x02);
    SquareIsOfBits(0x04);
    SquareIsOfBits(0x10);
    SquareIsOfBits(0x1D);
    SquareIsOfBits(0x4C);
    SquareIsOfBits(0x9D);
    SquareIsOfBits(0x5F);
    SquareIsOfBits(0x85);
  }

  lemma {:induction false} SquaresStay(x: bv8, n: nat)
    requires Square(x) == x
    ensures Squares(x, n) == x
  {
    hide Square;
    if n > 0 {
      SquaresStay(x, n - 1);
    }
  }

  /** 0 and 1 stay what they are, and the squares of 2 come back to 2. */
  lemma SquaresOfTwo()
    ensures Squares(0, 8) == 0 && Squares(1, 8) == 1 && Squares(2, 8) == 2
  {
    hide Square;
    SomeSquares();
    SquaresStay(0, 8);
    SquaresStay(1, 8);
    assert Squares(2, 3) == 0x1D;
    assert Squares(2, 5) == 0x9D;
    assert Squares(2, 7) == 0x85;
  }

  /** Building x bit by bit from 1, each doubling and each addition passes through the eight squarings. */
  lemma {:induction false} EightSquaresFrom(x: bv8, i: nat)
    requires i <= 8
    ensures Squares(MulFrom(1, x, i), 8) == MulFrom(1, x, i)
    decreases 8 - i
  {
    hide Add, Mul, Double, Bit, Squares;
    SquaresOfTwo();
    if i < 8 {
      EightSquaresFrom(x, i + 1);
      var w := MulFrom(1, x, i + 1);
      MulRight(w, 0, 0);
      SquaresLaws(w, 2, 8);
      SquaresLaws(Double(w), 1, 8);
    }
  }

  /** x to the power 256 is x. */
  lemma EightSquares(x: bv8)
    ensures Squares(x, 8) == x
  {
    hide MulFrom, Squares;
    EightSquaresFrom(x, 0);
    MulFromOne(x, 0);
    assert x >> 0 == x;
  }

  /** Only 0 and 1 are their own squares: this is where the modulus has to be irreducible. */
  lemma OwnSquare(e: bv8)
    requires Square(e) == e
    ensures e == 0 || e == 1
  {
    hide Square;
    SquareIsOfBits(e);
  }

  lemma {:induction false} NormLaws(x: bv8, n: nat)
    ensures Square(Norm(x, n)) == Norm(Square(x), n)
    ensures Mul(Norm(x, n), x) == Squares(x, n)
    ensures Norm(x, n + 1) == Mul(x, Norm(Square(x), n))
  {
    hide Add, Mul;
    if n == 0 {
      MulUnit(1);
      MulUnit(x);
      MulRight(x, 0, 0);
    } else {
      NormLaws(x, n - 1);
      var m, s := Norm(x, n - 1), Squares(x, n - 1);
      SquareLaws(m, s);
      SquaresLaws(x, x, n - 1);
      MulAssociates(m, s, x);
      MulCommutes(s, x);
      MulAssociates(m, x, s);
      MulAssociates(x, Norm(Square(x), n - 1), Squares(x, n));
    }
  }

  /** Every byte but 0 has an inverse: with the laws above, a field. */
  lemma MulInverse(x: bv8)
    requires x != 0
    ensures Mul(x, Inverse(x)) == 1
  {
    hide Mul, Square, Norm, Squares;
    var e, r := Norm(x, 8), Norm(Square(x), 7);
    NormLaws(x, 7);
    NormLaws(x, 8);
    NormLaws(Square(x), 7);
    EightSquares(x);
    NormStep(Square(x), 7);
    SquaresLaws(x, x, 7);
    MulCommutes(r, x);
    OwnSquare(e);
    MulUnit(x);
  }

  lemma NormStep(x: bv8, n: nat)
    ensures Norm(x, n + 1) == Mul(Norm(x, n), Squares(x, n))
  {}

  /** There are no divisors of zero. */
  lemma MulZero(x: bv8, y: bv8)
    ensures Mul(x, y) == 0 <==> x == 0 || y == 0
  {
    hide Mul, Inverse;
    MulUnit(y);
    MulRight(x, 0, 0);
    if Mul(x, y) == 0 && x != 0 {
      MulInverse(x);
      MulCommutes(x, Inverse(x));
      MulAssociates(Inverse(x), x, y);
      MulRight(Inverse(x), 0, 0);
    }
  }
}
