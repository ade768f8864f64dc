/**
 Segments of the QR Code bit stream: packing digits and alphanumeric characters,
 concatenating segments and padding to the data capacity (section 7.4 of
 ISO/IEC 18004:2015).
 */
module Segments {
  import opened GridIndexing
  import opened PackedBits

  const INT16_MAX: nat := 32767

  const ALPHANUMERIC_CHARSET: string := "0123456789" + "ABCDEFGHIJKLMNOPQRSTUVWXYZ" + " $%*+-./:"

  // ---------- Packing values in groups ----------

  /** Three decimal digits in 10 bits, or two characters out of 45 in 11 bits. */
  datatype Packing = Numeric | Alphanumeric {
    function Base(): nat { if Numeric? then 10 else 45 }

    function Group(): nat { if Numeric? then 3 else 2 }

    /** The width of a group of k values. */
    function Width(k: nat): nat { k * (if Numeric? then 3 else 5) + 1 }
  }

  predicate AllBelow(values: seq<nat>, base: nat) {
    forall k :: 0 <= k < |values| ==> values[k] < base
  }

  function GroupValue(values: seq<nat>, base: nat): nat {
    if values == [] then 0
    else GroupValue(values[..|values| - 1], base) * base + values[|values| - 1]
  }

  /** The packed form of a sequence of values. */
  function Pack(p: Packing, values: seq<nat>): seq<bool> {
    if values == [] then []
    else if |values| <= p.Group() then ValueBits(GroupValue(values, p.Base()), p.Width(|values|))
    else ValueBits(GroupValue(values[..p.Group()], p.Base()), p.Width(p.Group())) + Pack(p, values[p.Group()..])
  }

  /** The number of bits that n values take. */
  function PackedLength(p: Packing, n: nat): nat {
    if p.Numeric? then (n * 10 + 2) / 3 else (n * 11 + 1) / 2
  }

  lemma {:induction false} PackedLengthIsExact(p: Packing, values: seq<nat>)
    ensures |Pack(p, values)| == PackedLength(p, |values|)
    decreases |values|
  {
    if |values| > p.Group() {
      PackedLengthIsExact(p, values[p.Group()..]);
    }
  }

  lemma NoValues(p: Packing)
    ensures Pack(p, []) == [] && PackedLength(p, 0) == 0
  {}

  lemma PackFirst(p: Packing, head: seq<nat>, tail: seq<nat>)
    requires |head| == p.Group() || (1 <= |head| < p.Group() && tail == [])
    ensures Pack(p, head + tail) == ValueBits(GroupValue(head, p.Base()), p.Width(|head|)) + Pack(p, tail)
  {
    hide ValueBits, GroupValue;
    if tail == [] {
      assert head + tail == head;
    } else {
      assert (head + tail)[..p.Group()] == head && (head + tail)[p.Group()..] == tail;
    }
  }

  lemma {:induction false} PackConcat(p: Packing, a: seq<nat>, b: seq<nat>)
    requires |a| % p.Group() == 0
    ensures Pack(p, a + b) == Pack(p, a) + Pack(p, b)
    decreases |a|
  {
    hide Pack;
    NoValues(p);
    if a == [] {
      assert a + b == b;
    } else {
      var g := p.Group();
      var head, tail := a[..g], a[g..];
      PackFirst(p, head, tail);
      PackFirst(p, head, tail + b);
      PackConcat(p, tail, b);
      assert head + tail == a && head + (tail + b) == a + b;
    }
  }

  // ---------- Unpacking ----------

  /** The k digits of v in the given base, most significant first. */
  function Digits(v: nat, base: nat, k: nat): (d: seq<nat>)
    requires base > 0
    ensures |d| == k
    decreases k
  {
    if k == 0 then [] else Digits(v / base, base, k - 1) + [v % base]
  }

  /** Reads n values from the front of the bits. */
  function Unpack(p: Packing, bits: seq<bool>, n: nat): (values: seq<nat>)
    requires PackedLength(p, n) <= |bits|
    ensures |values| == n
    decreases n
  {
    if n == 0 then [] else
    var k := if n < p.Group() then n else p.Group();
    Digits(BitsValue(bits[..p.Width(k)]), p.Base(), k) + Unpack(p, bits[p.Width(k)..], n - k)
  }

  lemma {:induction false} DigitsOfGroupValue(values: seq<nat>, base: nat)
    requires base > 0 && AllBelow(values, base)
    ensures Digits(GroupValue(values, base), base, |values|) == values
  {
    if values != [] {
      var n := |values| - 1;
      DigitsOfGroupValue(values[..n], base);
      GridIndex(values[n], GroupValue(values[..n], base), GroupValue(values[..n], base) + 1, base);
    }
  }

  lemma GroupFits(p: Packing, values: seq<nat>)
    requires AllBelow(values, p.Base()) && |values| <= p.Group()
    ensures GroupValue(values, p.Base()) < Pow2(p.Width(|values|))
  {
    var b := p.Base();
    assert Pow2(4) == 16 && Pow2(6) == 64 && Pow2(7) == 128;
    assert Pow2(10) == 8 * Pow2(7) && Pow2(11) == 2 * Pow2(10);
    if |values| >= 1 {
      assert GroupValue(values[..1], b) == values[0] by { assert values[..1][..0] == []; }
    }
    if |values| >= 2 {
      assert values[..2][..1] == values[..1];
      assert GroupValue(values[..2], b) == values[0] * b + values[1];
    }
    if |values| >= 3 {
      assert values[..3][..2] == values[..2];
      assert GroupValue(values[..3], b) == (values[0] * b + values[1]) * b + values[2];
    }
    assert values[..|values|] == values;
  }

  lemma GroupRoundTrip(p: Packing, values: seq<nat>)
    requires AllBelow(values, p.Base()) && |values| <= p.Group()
    ensures Digits(BitsValue(ValueBits(GroupValue(values, p.Base()), p.Width(|values|))), p.Base(), |values|) == values
  {
    GroupFits(p, values);
    ValueRoundTrip(GroupValue(values, p.Base()), p.Width(|values|));
    DigitsOfGroupValue(values, p.Base());
  }

  lemma SplitBehind(a: seq<bool>, b: seq<bool>, c: seq<bool>)
    ensures (a + b + c)[..|a|] == a && (a + b + c)[|a|..] == b + c
  {}

  /** Packing loses nothing, whatever bits follow. */
  lemma {:induction false} PackRoundTrip(p: Packing, values: seq<nat>, rest: seq<bool>)
    requires AllBelow(values, p.Base())
    ensures PackedLength(p, |values|) <= |Pack(p, values) + rest|
    ensures Unpack(p, Pack(p, values) + rest, |values|) == values
    decreases |values|
  {
    hide ValueBits, BitsValue, GroupValue, Digits, Pack, PackedLength, Packing.Width;
    PackedLengthIsExact(p, values);
    NoValues(p);
    var g := p.Group();
    if values != [] {
      var k := if |values| < g then |values| else g;
      var head, tail := values[..k], values[k..];
      PackFirst(p, head, tail);
      SplitBehind(ValueBits(GroupValue(head, p.Base()), p.Width(k)), Pack(p, tail), rest);
      GroupRoundTrip(p, head);
      PackRoundTrip(p, tail, rest);
      assert head + tail == values;
    }
  }

  // ---------- Segments ----------

  datatype Mode = NumericMode | AlphanumericMode | ByteMode | KanjiMode | EciMode {
    /** The mode indicator. */
    function Indicator(): nat {
      match this
      case NumericMode => 1 case AlphanumericMode => 2 case ByteMode => 4 case KanjiMode => 8 case EciMode => 7
    }

    /** The width of the character count field in a symbol of the given version. */
    function CountBits(version: nat): nat
      requires 1 <= version <= 40
    {
      var i := (version + 7) / 17;
      match this
      case NumericMode => [10, 12, 14][i]
      case AlphanumericMode => [9, 11, 13][i]
      case ByteMode => [8, 16, 16][i]
      case KanjiMode => [8, 10, 12][i]
      case EciMode => 0
    }
  }

  /** The widths of the character count field by range of versions (table 3 of ISO/IEC 18004:2015). */
  lemma CountWidths(version: nat)
    requires 1 <= version <= 40
    ensures version <= 9 ==>
      NumericMode.CountBits(version) == 10 && AlphanumericMode.CountBits(version) == 9
      && ByteMode.CountBits(version) == 8 && KanjiMode.CountBits(version) == 8
    ensures 10 <= version <= 26 ==>
      NumericMode.CountBits(version) == 12 && AlphanumericMode.CountBits(version) == 11
      && ByteMode.CountBits(version) == 16 && KanjiMode.CountBits(version) == 10
    ensures 27 <= version ==>
      NumericMode.CountBits(version) == 14 && AlphanumericMode.CountBits(version) == 13
      && ByteMode.CountBits(version) == 16 && KanjiMode.CountBits(version) == 12
    ensures EciMode.CountBits(version) == 0
  {}

  /** The mode indicators (table 2 of ISO/IEC 18004:2015), bit by bit. */
  lemma IndicatorBits()
    ensures ValueBits(NumericMode.Indicator(), 4) == [false, false, false, true]
    ensures ValueBits(AlphanumericMode.Indicator(), 4) == [false, false, true, false]
    ensures ValueBits(ByteMode.Indicator(), 4) == [false, true, false, false]
    ensures ValueBits(KanjiMode.Indicator(), 4) == [true, false, false, false]
    ensures ValueBits(EciMode.Indicator(), 4) == [false, true, true, true]
  {}

  /** The number of data bits of a segment, or -1 if it has too many for the generator. */
  function CalcSegmentBitLength(mode: Mode, numChars: nat): int
    requires mode.EciMode? ==> numChars == 0
  {
    if numChars > INT16_MAX then -1 else
    var result := match mode
      case NumericMode => (numChars * 10 + 2) / 3
      case AlphanumericMode => (numChars * 11 + 1) / 2
      case ByteMode => numChars * 8
      case KanjiMode => numChars * 13
      case EciMode => 24;
    if result > INT16_MAX then -1 else result
  }

  /** The lengths by mode, and the most characters of which the length still fits. */
  lemma LongestSegments(n: nat)
    ensures CalcSegmentBitLength(NumericMode, n)
         == if n > 9830 then -1 else n / 3 * 10 + (if n % 3 == 0 then 0 else if n % 3 == 1 then 4 else 7)
    ensures CalcSegmentBitLength(AlphanumericMode, n) == if n > 5957 then -1 else n / 2 * 11 + n % 2 * 6
    ensures CalcSegmentBitLength(ByteMode, n) == if n > 4095 then -1 else 8 * n
    ensures CalcSegmentBitLength(KanjiMode, n) == if n > 2520 then -1 else 13 * n
    ensures CalcSegmentBitLength(EciMode, 0) == 24
  {}

  /** The segment bit length is exact: it is the length of the packed form whenever that is at most 32767. */
  lemma BitLengthIsExact(p: Packing, values: seq<nat>)
    ensures var mode := if p.Numeric? then NumericMode else AlphanumericMode;
      CalcSegmentBitLength(mode, |values|)
      == if |Pack(p, values)| <= INT16_MAX then |Pack(p, values)| else -1
  {
    PackedLengthIsExact(p, values);
  }

  // ---------- The packing loops ----------

  /** bits begin with content, and what follows is 0 up to the limit. */
  ghost predicate Carries(bits: seq<bool>, limit: nat, content: seq<bool>) {
    |content| <= limit <= |bits| && bits[..|content|] == content
    && forall k :: |content| <= k < limit ==> !bits[k]
  }

  lemma CarriesMore(bits: seq<bool>, limit: nat, content: seq<bool>, extra: seq<bool>)
    requires Carries(bits, limit, content) && |content| + |extra| <= limit
    ensures var after := Ored(bits, |content|, extra);
      Carries(after, limit, content + extra) && after[limit..] == bits[limit..]
  {}

  /** memset of the first n bytes. */
  method ClearBytes(buf: array<bv8>, n: nat)
    requires n <= buf.Length
    modifies buf
    ensures Carries(Bits(buf[..]), 8 * n, [])
    ensures Bits(buf[..])[8 * n..] == old(Bits(buf[..])[8 * n..])
  {
    hide Bit, Mask;
    ghost var before := buf[..];
    for k := 0 to n
      invariant forall j :: 0 <= j < k ==> buf[j] == 0
      invariant forall j :: k <= j < buf.Length ==> buf[j] == before[j]
    {
      buf[k] := 0;
    }
    forall k | 0 <= k < 8 * n
      ensures !Bits(buf[..])[k]
    {
      BitOfZero(7 - k % 8);
    }
  }

  lemma BitOfZero(i: nat)
    requires i < 8
    ensures !Bit(0, i)
  {
    BitMask(0, i);
  }

  predicate IsNumeric(text: string) {
    forall k :: 0 <= k < |text| ==> '0' <= text[k] <= '9'
  }

  function DigitValues(digits: string): (values: seq<nat>)
    requires IsNumeric(digits)
    ensures |values| == |digits| && AllBelow(values, 10)
  {
    seq(|digits|, k requires 0 <= k < |digits| => (digits[k] - '0') as nat)
  }

  /** The position of c in the text, as strchr finds it, or |text|. */
  function Find(text: string, c: char): (k: nat)
    ensures k <= |text| && (k < |text| ==> text[k] == c)
    ensures k == |text| <==> c !in text
  {
    if text == [] then 0 else if text[0] == c then 0 else 1 + Find(text[1..], c)
  }

  lemma CharsetSize()
    ensures |ALPHANUMERIC_CHARSET| == 45
  {}

  lemma DigitsInCharset(k: nat)
    requires k < 10
    ensures ALPHANUMERIC_CHARSET[k] as nat == '0' as nat + k
  {}

  lemma LettersInCharset(k: nat)
    requires k < 26
    ensures ALPHANUMERIC_CHARSET[10 + k] as nat == 'A' as nat + k
  {}

  lemma SymbolsInCharset(k: nat)
    requires k < 9
    ensures ALPHANUMERIC_CHARSET[36 + k] == " $%*+-./:"[k]
  {
    match k
    case 0 => case 1 => case 2 => case 3 => case 4 => case 5 => case 6 => case 7 => case 8 =>
  }

  /** The characters of the set stand in three runs. */
  lemma CharsetAt(k: nat)
    requires k < 45
    ensures k < 10 ==> ALPHANUMERIC_CHARSET[k] as nat == '0' as nat + k
    ensures 10 <= k < 36 ==> ALPHANUMERIC_CHARSET[k] as nat == 'A' as nat + (k - 10)
    ensures 36 <= k ==> ALPHANUMERIC_CHARSET[k] == " $%*+-./:"[k - 36]
  {
    hide *;
    if k < 10 {
      DigitsInCharset(k);
    } else if k < 36 {
      LettersInCharset(k - 10);
    } else {
      SymbolsInCharset(k - 36);
    }
  }

  lemma {:induction false} FindsFirst(text: string, k: nat)
    requires k < |text| && forall j :: 0 <= j < k ==> text[j] != text[k]
    ensures Find(text, text[k]) == k
  {
    if k > 0 {
      assert text[0] != text[k];
      FindsFirst(text[1..], k - 1);
    }
  }

  lemma CharsetFinds(k: nat)
    requires k < 45
    ensures Find(ALPHANUMERIC_CHARSET, ALPHANUMERIC_CHARSET[k]) == k
  {
    CharsetAt(k);
    forall j: nat | j < k
      ensures ALPHANUMERIC_CHARSET[j] != ALPHANUMERIC_CHARSET[k]
    {
      CharsetAt(j);
    }
    FindsFirst(ALPHANUMERIC_CHARSET, k);
  }

  predicate IsPlace(c: char, k: nat) {
    Find(ALPHANUMERIC_CHARSET, c) == k && k < |ALPHANUMERIC_CHARSET|
  }

  /** The values of characters (table 5 of ISO/IEC 18004:2015), by class. */
  lemma PlaceByClass(c: char)
    ensures '0' <= c <= '9' ==> IsPlace(c, (c - '0') as nat)
    ensures 'A' <= c <= 'Z' ==> IsPlace(c, 10 + (c - 'A') as nat)
    ensures forall k: nat :: k < 9 && c == " $%*+-./:"[k] ==> IsPlace(c, 36 + k)
    ensures !('0' <= c <= '9') && !('A' <= c <= 'Z') && c !in " $%*+-./:" ==> c !in ALPHANUMERIC_CHARSET
  {
    hide *;
    if '0' <= c <= '9' {
      PlaceIs(c, (c - '0') as nat);
    } else if 'A' <= c <= 'Z' {
      PlaceIs(c, 10 + (c - 'A') as nat);
    } else if c !in " $%*+-./:" {
      NoPlace(c);
    }
    forall k: nat | k < 9 && c == " $%*+-./:"[k]
      ensures IsPlace(c, 36 + k)
    {
      PlaceIs(c, 36 + k);
    }
  }

  lemma PlaceIs(c: char, k: nat)
    requires k < 45
    requires k < 10 ==> c as nat == '0' as nat + k
    requires 10 <= k < 36 ==> c as nat == 'A' as nat + (k - 10)
    requires 36 <= k ==> c == " $%*+-./:"[k - 36]
    ensures IsPlace(c, k)
  {
    hide Find;
    CharsetAt(k);
    CharsetFinds(k);
  }

  lemma NoPlace(c: char)
    requires !('0' <= c <= '9') && !('A' <= c <= 'Z') && c !in " $%*+-./:"
    ensures c !in ALPHANUMERIC_CHARSET
  {
    forall k: nat | k < |ALPHANUMERIC_CHARSET|
      ensures ALPHANUMERIC_CHARSET[k] != c
    {
      CharsetAt(k);
    }
  }

  predicate IsAlphanumeric(text: string) {
    forall k :: 0 <= k < |text| ==> text[k] in ALPHANUMERIC_CHARSET
  }

  function CharValues(text: string): (values: seq<nat>)
    requires IsAlphanumeric(text)
    ensures |values| == |text| && AllBelow(values, |ALPHANUMERIC_CHARSET|)
    ensures forall k :: 0 <= k < |text| ==> text[k] == ALPHANUMERIC_CHARSET[values[k]]
  {
    seq(|text|, k requires 0 <= k < |text| => Find(ALPHANUMERIC_CHARSET, text[k]))
  }

  /**
   The state of a packing loop that has consumed the given values: whole groups
   are in the buffer, the values of an unfinished group in the accumulator.
   */
  ghost predicate PackedSoFar(p: Packing, values: seq<nat>, bits: seq<bool>, limit: nat,
                              bitLength: nat, accumData: nat, accumCount: nat)
  {
    accumCount < p.Group() && accumCount <= |values|
    && var whole := |values| - accumCount;
      whole % p.Group() == 0 && bitLength == |Pack(p, values[..whole])|
      && Carries(bits, limit, Pack(p, values[..whole])) && accumData == GroupValue(values[whole..], p.Base())
  }

  lemma PackedLengthGrows(p: Packing, m: nat, n: nat)
    requires m <= n
    ensures PackedLength(p, m) <= PackedLength(p, n)
  {}

  lemma PackGroup(p: Packing, values: seq<nat>, group: seq<nat>)
    requires |values| % p.Group() == 0 && 1 <= |group| <= p.Group()
    ensures Pack(p, values + group) == Pack(p, values) + ValueBits(GroupValue(group, p.Base()), p.Width(|group|))
  {
    PackConcat(p, values, group);
  }

  lemma GroupValueSnoc(values: seq<nat>, v: nat, base: nat)
    ensures GroupValue(values + [v], base) == GroupValue(values, base) * base + v
  {
    assert (values + [v])[..|values|] == values;
  }

  lemma PackedSoFarHas(p: Packing, values: seq<nat>, bits: seq<bool>, limit: nat,
                       bitLength: nat, accumData: nat, accumCount: nat)
    requires PackedSoFar(p, values, bits, limit, bitLength, accumData, accumCount)
    ensures accumCount < p.Group() && accumCount <= |values|
    ensures var whole := |values| - accumCount;
      whole % p.Group() == 0 && bitLength == |Pack(p, values[..whole])|
      && Carries(bits, limit, Pack(p, values[..whole])) && accumData == GroupValue(values[whole..], p.Base())
  {
    hide Pack, GroupValue, Carries;
  }

  lemma PackedWhole(p: Packing, values: seq<nat>, bits: seq<bool>, limit: nat)
    requires |values| % p.Group() == 0 && Carries(bits, limit, Pack(p, values))
    ensures PackedSoFar(p, values, bits, limit, |Pack(p, values)|, 0, 0)
  {
    hide Pack, Carries;
    assert values[..|values|] == values;
  }

  /** The value that completes a group: the group goes behind the packed bits. */
  lemma GroupCompletes(p: Packing, values: seq<nat>, v: nat, bits: seq<bool>, limit: nat,
                       bitLength: nat, accumData: nat, accumCount: nat)
    requires AllBelow(values + [v], p.Base()) && PackedLength(p, |values| + 1) <= limit
    requires PackedSoFar(p, values, bits, limit, bitLength, accumData, accumCount) && accumCount + 1 == p.Group()
    ensures var data, width := accumData * p.Base() + v, p.Width(p.Group());
      data < Pow2(width) && bitLength + width <= limit <= |bits|
      && var after := Ored(bits, bitLength, ValueBits(data, width));
        PackedSoFar(p, values + [v], after, limit, bitLength + width, 0, 0) && after[limit..] == bits[limit..]
  {
    hide Pack, PackedLength, Packing.Width, ValueBits, Carries, Ored, PackedSoFar, GroupValue, Pow2;
    PackedSoFarHas(p, values, bits, limit, bitLength, accumData, accumCount);
    var whole, all := |values| - accumCount, values + [v];
    var group := values[whole..] + [v];
    GroupValueSnoc(values[whole..], v, p.Base());
    assert values[..whole] + group == all && group == all[whole..];
    GroupFits(p, group);
    PackGroup(p, values[..whole], group);
    PackedLengthIsExact(p, all);
    CarriesFits(bits, limit, Pack(p, values[..whole]));
    CarriesMore(bits, limit, Pack(p, values[..whole]), ValueBits(GroupValue(group, p.Base()), p.Width(p.Group())));
    PackedWhole(p, all, Ored(bits, bitLength, ValueBits(GroupValue(group, p.Base()), p.Width(p.Group()))), limit);
  }

  lemma CarriesFits(bits: seq<bool>, limit: nat, content: seq<bool>)
    requires Carries(bits, limit, content)
    ensures |content| <= limit <= |bits|
  {}

  lemma GroupContinues(p: Packing, values: seq<nat>, v: nat, bits: seq<bool>, limit: nat,
                       bitLength: nat, accumData: nat, accumCount: nat)
    requires PackedSoFar(p, values, bits, limit, bitLength, accumData, accumCount) && accumCount + 1 < p.Group()
    ensures PackedSoFar(p, values + [v], bits, limit, bitLength, accumData * p.Base() + v, accumCount + 1)
  {
    hide Pack, Carries;
    var whole, all := |values| - accumCount, values + [v];
    assert all[whole..] == values[whole..] + [v] && all[whole..][..accumCount] == values[whole..];
    assert all[..whole] == values[..whole];
  }

  /** The body of the packing loops of both modes. */
  method PackNext(p: Packing, v: nat, buf: array<bv8>, bitLength: nat, accumData: nat, accumCount: nat,
                  ghost values: seq<nat>, ghost limit: nat)
    returns (newLength: nat, newData: nat, newCount: nat)
    requires AllBelow(values + [v], p.Base()) && PackedLength(p, |values| + 1) <= limit <= 8 * buf.Length
    requires accumCount < p.Group()
    requires PackedSoFar(p, values, Bits(buf[..]), limit, bitLength, accumData, accumCount)
    modifies buf
    ensures PackedSoFar(p, values + [v], Bits(buf[..]), limit, newLength, newData, newCount)
    ensures newCount < p.Group()
    ensures Bits(buf[..])[limit..] == old(Bits(buf[..])[limit..])
  {
    hide Bits, Pack, ValueBits, Carries, PackedSoFar, GroupValue, Ored;
    newLength, newData, newCount := bitLength, accumData * p.Base() + v, accumCount + 1;
    if newCount == p.Group() {
      GroupCompletes(p, values, v, Bits(buf[..]), limit, bitLength, accumData, accumCount);
      newLength := AppendBitsToBuffer(newData, p.Width(newCount), buf, newLength);
      newData, newCount := 0, 0;
    } else {
      GroupContinues(p, values, v, Bits(buf[..]), limit, bitLength, accumData, accumCount);
    }
  }

  /** What follows the packing loops: the values of an unfinished group. */
  method PackRest(p: Packing, buf: array<bv8>, bitLength: nat, accumData: nat, accumCount: nat,
                  ghost values: seq<nat>, ghost limit: nat)
    returns (newLength: nat)
    requires AllBelow(values, p.Base()) && PackedLength(p, |values|) <= limit <= 8 * buf.Length
    requires PackedSoFar(p, values, Bits(buf[..]), limit, bitLength, accumData, accumCount)
    modifies buf
    ensures newLength == PackedLength(p, |values|) && Carries(Bits(buf[..]), limit, Pack(p, values))
    ensures Bits(buf[..])[limit..] == old(Bits(buf[..])[limit..])
  {
    hide Bits, Pack, ValueBits, Carries;
    ghost var whole := |values| - accumCount;
    ghost var group := values[whole..];
    assert values[..whole] + group == values;
    PackedLengthIsExact(p, values);
    newLength := bitLength;
    if accumCount > 0 {
      GroupFits(p, group);
      PackGroup(p, values[..whole], group);
      CarriesMore(Bits(buf[..]), limit, Pack(p, values[..whole]), ValueBits(accumData, p.Width(accumCount)));
      newLength := AppendBitsToBuffer(accumData, p.Width(accumCount), buf, newLength);
    } else {
      assert values[..whole] == values;
    }
  }

  /** Packs a digit string into the buffer. */
  method MakeNumeric(digits: string, buf: array<bv8>) returns (bitLength: nat)
    requires IsNumeric(digits)
    requires 0 <= CalcSegmentBitLength(NumericMode, |digits|) <= 8 * buf.Length
    modifies buf
    ensures bitLength == CalcSegmentBitLength(NumericMode, |digits|)
    ensures Carries(Bits(buf[..]), (bitLength + 7) / 8 * 8, Pack(Numeric, DigitValues(digits)))
    ensures Bits(buf[..])[(bitLength + 7) / 8 * 8..] == old(Bits(buf[..]))[(bitLength + 7) / 8 * 8..]
  {
    hide Bits, Pack, Carries, PackedSoFar;
    ghost var values := DigitValues(digits);
    var bitLen := CalcSegmentBitLength(NumericMode, |digits|);
    var bytes := (bitLen + 7) / 8;
    ClearBytes(buf, bytes);
    bitLength := 0;
    var accumData, accumCount := 0, 0;
    PackedNothing(Numeric, Bits(buf[..]), bytes * 8);
    assert values[..0] == [];
    for i := 0 to |digits|
      invariant accumCount < 3
      invariant PackedSoFar(Numeric, values[..i], Bits(buf[..]), bytes * 8, bitLength, accumData, accumCount)
      invariant Bits(buf[..])[bytes * 8..] == old(Bits(buf[..]))[bytes * 8..]
    {
      assert values[..i + 1] == values[..i] + [values[i]];
      PackedLengthGrows(Numeric, i + 1, |digits|);
      var v := (digits[i] - '0') as nat;
      bitLength, accumData, accumCount :=
        PackNext(Numeric, v, buf, bitLength, accumData, accumCount, values[..i], bytes * 8);
    }
    assert values[..|digits|] == values;
    bitLength := PackRest(Numeric, buf, bitLength, accumData, accumCount, values, bytes * 8);
  }

  lemma PackedNothing(p: Packing, bits: seq<bool>, limit: nat)
    requires Carries(bits, limit, [])
    ensures PackedSoFar(p, [], bits, limit, 0, 0, 0)
  {}

  /** Packs a string of alphanumeric characters into the buffer. */
  method MakeAlphanumeric(text: string, buf: array<bv8>) returns (bitLength: nat)
    requires IsAlphanumeric(text)
    requires 0 <= CalcSegmentBitLength(AlphanumericMode, |text|) <= 8 * buf.Length
    modifies buf
    ensures bitLength == CalcSegmentBitLength(AlphanumericMode, |text|)
    ensures Carries(Bits(buf[..]), (bitLength + 7) / 8 * 8, Pack(Alphanumeric, CharValues(text)))
    ensures Bits(buf[..])[(bitLength + 7) / 8 * 8..] == old(Bits(buf[..]))[(bitLength + 7) / 8 * 8..]
  {
    hide Bits, Pack, Carries, PackedSoFar, Find, IsAlphanumeric, ALPHANUMERIC_CHARSET;
    ghost var values := CharValues(text);
    CharsetSize();
    var bitLen := CalcSegmentBitLength(AlphanumericMode, |text|);
    var bytes := (bitLen + 7) / 8;
    ClearBytes(buf, bytes);
    bitLength := 0;
    var accumData, accumCount := 0, 0;
    PackedNothing(Alphanumeric, Bits(buf[..]), bytes * 8);
    assert values[..0] == [];
    for i := 0 to |text|
      invariant accumCount < 2
      invariant PackedSoFar(Alphanumeric, values[..i], Bits(buf[..]), bytes * 8, bitLength, accumData, accumCount)
      invariant Bits(buf[..])[bytes * 8..] == old(Bits(buf[..]))[bytes * 8..]
    {
      assert values[..i + 1] == values[..i] + [values[i]];
      PackedLengthGrows(Alphanumeric, i + 1, |text|);
      var v := Find(ALPHANUMERIC_CHARSET, text[i]);
      bitLength, accumData, accumCount :=
        PackNext(Alphanumeric, v, buf, bitLength, accumData, accumCount, values[..i], bytes * 8);
    }
    assert values[..|text|] == values;
    bitLength := PackRest(Alphanumeric, buf, bitLength, accumData, accumCount, values, bytes * 8);
  }
}
