/** Examples of ISO/IEC 18004: texts and the bits that stand for them. */
module QrExamples {
  import opened PackedBits
  import opened Segments
  import opened BitStream
  import opened SymbolReader
  import opened GaloisField
  import opened Polynomial
  import opened ReedSolomon

  function Binary(digits: string): (bits: seq<bool>)
    ensures |bits| == |digits|
  {
    seq(|digits|, k requires 0 <= k < |digits| => digits[k] == '1')
  }

  lemma FourMore(v: nat, n: nat)
    ensures ValueBits(v, n + 4)
         == ValueBits(v / 16, n) + [v / 8 % 2 == 1, v / 4 % 2 == 1, v / 2 % 2 == 1, v % 2 == 1]
  {
    assert v / 2 / 2 == v / 4 && v / 4 / 2 == v / 8 && v / 8 / 2 == v / 16;
    assert ValueBits(v / 8, n + 1) == ValueBits(v / 16, n) + [v / 8 % 2 == 1];
    assert ValueBits(v / 4, n + 2) == ValueBits(v / 8, n + 1) + [v / 4 % 2 == 1];
    assert ValueBits(v / 2, n + 3) == ValueBits(v / 4, n + 2) + [v / 2 % 2 == 1];
  }

  lemma ThreeDigits()
    ensures ValueBits(12, 10) == Binary("0000001100")
  {
    hide ValueBits;
    ThreeDigitsBegin();
    FourMore(12, 6);
  }

  lemma ThreeDigitsBegin()
    ensures ValueBits(0, 6) == Binary("000000")
  {}

  lemma MoreDigits()
    ensures ValueBits(345, 10) == Binary("0101011001")
  {
    hide ValueBits;
    MoreDigitsBegin();
    FourMore(345, 6);
  }

  lemma MoreDigitsBegin()
    ensures ValueBits(21, 6) == Binary("010101")
  {}

  lemma LastDigits()
    ensures ValueBits(67, 7) == Binary("1000011")
  {}

  lemma {:induction false} GroupsOfExample()
    ensures Pack(Numeric, [0, 1, 2, 3, 4, 5, 6, 7]) == ValueBits(12, 10) + ValueBits(345, 10) + ValueBits(67, 7)
  {
    hide ValueBits, Pack, GroupValue;
    ThreeValues(0, 1, 2);
    ThreeValues(3, 4, 5);
    TwoValues(Numeric, 6, 7);
    PackFirst(Numeric, [0, 1, 2], [3, 4, 5, 6, 7]);
    PackFirst(Numeric, [3, 4, 5], [6, 7]);
    PackFirst(Numeric, [6, 7], []);
    NoValues(Numeric);
    assert [0, 1, 2] + [3, 4, 5, 6, 7] == [0, 1, 2, 3, 4, 5, 6, 7] && [3, 4, 5] + [6, 7] == [3, 4, 5, 6, 7];
    var last: seq<nat> := [6, 7];
    assert last + [] == last;
  }

  lemma TwoValues(p: Packing, a: nat, b: nat)
    ensures GroupValue([a, b], p.Base()) == a * p.Base() + b
  {
    assert [a, b][..1] == [a] && [a][..0] == [];
    assert GroupValue([a], p.Base()) == a;
  }

  lemma ThreeValues(a: nat, b: nat, c: nat)
    ensures GroupValue([a, b, c], 10) == 100 * a + 10 * b + c
  {
    assert [a, b, c][..2] == [a, b];
    TwoValues(Numeric, a, b);
  }

  /** The digits 01234567 in a symbol of version 1 (section 7.4.3 of ISO/IEC 18004:2015). */
  lemma NumericExample()
    ensures StreamBits(TextItems("01234567"), 1)
         == Binary("0001") + Binary("0000001000") + Binary("0000001100") + Binary("0101011001") + Binary("1000011")
  {
    hide ValueBits, TextItems, Pack, Binary;
    NumericItem();
    GroupsOfExample();
    ThreeDigits();
    MoreDigits();
    LastDigits();
    EightAsCount();
    IndicatorBits();
    OneItemStream(Item(NumericMode, 8, Pack(Numeric, [0, 1, 2, 3, 4, 5, 6, 7])), 1);
  }

  lemma NumericItem()
    ensures TextItems("01234567") == [Item(NumericMode, 8, Pack(Numeric, [0, 1, 2, 3, 4, 5, 6, 7]))]
  {
    hide Pack, DigitValues, IsNumeric;
    NumericValues();
  }

  lemma NumericValues()
    ensures IsNumeric("01234567") && DigitValues("01234567") == [0, 1, 2, 3, 4, 5, 6, 7]
  {}

  lemma EightAsCount()
    ensures ValueBits(8, 10) == Binary("0000001000") && Binary("0001") == [false, false, false, true]
  {
    assert ValueBits(2, 8) == Binary("00000010");
  }

  lemma OneItemStream(item: Item, version: nat)
    requires 1 <= version <= 40
    ensures StreamBits([item], version) == ItemBits(item, version)
  {
    assert [item][1..] == [];
  }

  lemma AlphanumericValues()
    ensures CharValues("AC-42") == [10, 12, 41, 4, 2]
  {
    hide Find, ALPHANUMERIC_CHARSET;
    PlaceIs('A', 10);
    PlaceIs('C', 12);
    PlaceIs('-', 41);
    PlaceIs('4', 4);
    PlaceIs('2', 2);
  }

  lemma PairsOfExample()
    ensures Pack(Alphanumeric, [10, 12, 41, 4, 2]) == ValueBits(462, 11) + ValueBits(1849, 11) + ValueBits(2, 6)
  {
    hide ValueBits, Pack, GroupValue;
    TwoValues(Alphanumeric, 10, 12);
    TwoValues(Alphanumeric, 41, 4);
    OneValue(2);
    PackFirst(Alphanumeric, [10, 12], [41, 4, 2]);
    PackFirst(Alphanumeric, [41, 4], [2]);
    PackFirst(Alphanumeric, [2], []);
    NoValues(Alphanumeric);
    assert [10, 12] + [41, 4, 2] == [10, 12, 41, 4, 2] && [41, 4] + [2] == [41, 4, 2];
    var last: seq<nat> := [2];
    assert last + [] == last;
  }

  lemma OneValue(a: nat)
    ensures GroupValue([a], 45) == a
  {
    assert [a][..0] == [];
  }

  lemma FirstPair()
    ensures ValueBits(462, 11) == Binary("00111001110")
  {
    hide ValueBits;
    FirstPairBegin();
    FourMore(462, 7);
  }

  lemma FirstPairBegin()
    ensures ValueBits(28, 7) == Binary("0011100")
  {}

  lemma SecondPair()
    ensures ValueBits(1849, 11) == Binary("11100111001")
  {
    hide ValueBits;
    SecondPairBegin();
    FourMore(1849, 7);
  }

  lemma SecondPairBegin()
    ensures ValueBits(115, 7) == Binary("1110011")
  {}

  lemma LastCharacter()
    ensures ValueBits(2, 6) == Binary("000010")
  {}

  lemma FiveAsCount()
    ensures ValueBits(5, 9) == Binary("000000101") && Binary("0010") == [false, false, true, false]
  {
    assert ValueBits(0, 6) == Binary("000000");
  }

  /** The characters AC-42 in a symbol of version 1 (section 7.4.4 of ISO/IEC 18004:2015). */
  lemma AlphanumericExample()
    ensures StreamBits(TextItems("AC-42"), 1)
         == Binary("0010") + Binary("000000101") + Binary("00111001110") + Binary("11100111001") + Binary("000010")
  {
    hide ValueBits, TextItems, Pack, Binary;
    AlphanumericItem();
    PairsOfExample();
    FirstPair();
    SecondPair();
    LastCharacter();
    FiveAsCount();
    IndicatorBits();
    OneItemStream(Item(AlphanumericMode, 5, Pack(Alphanumeric, [10, 12, 41, 4, 2])), 1);
  }

  lemma AlphanumericItem()
    ensures TextItems("AC-42") == [Item(AlphanumericMode, 5, Pack(Alphanumeric, [10, 12, 41, 4, 2]))]
  {
    hide Pack, CharValues;
    AlphanumericValues();
    assert "AC-42"[0] == 'A' && !IsNumeric("AC-42");
  }

  /** The generator polynomials of degree 1 and 2: x + 1 and x^2 + 3x + 2. */
  lemma SmallDivisors()
    ensures Divisor(1) == [1] && Divisor(2) == [3, 2]
  {
    hide Mul;
    MulUnit(0);
    MulUnit(1);
    MulUnit(2);
    assert Pow(2, 0) == 1 && Pow(2, 1) == 2;
    assert DivisorAfter(1, 0) == [1] && DivisorAfter(1, 1) == [1];
    assert DivisorAfter(2, 0) == [0, 1];
    assert DivisorAfter(2, 1) == [1, 1];
  }
}
