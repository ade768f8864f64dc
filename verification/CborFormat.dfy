/** The heads of CBOR items, as in section 3 of RFC 8949. */
module CborFormat {
  import opened Bytes

  const UNSIGNED: nat := 0
  const NEGATIVE: nat := 1
  const BYTE_STRING: nat := 2
  const TEXT_STRING: nat := 3
  const ARRAY: nat := 4
  const MAP: nat := 5
  const TAG: nat := 6
  const SIMPLE: nat := 7

  const SIMPLE_IN_NEXT_BYTE: nat := 24
  const HALF_FLOAT: nat := 25
  const DOUBLE_FLOAT: nat := 27
  const INDEFINITE: nat := 31
  const BREAK: byte := 255

  const MAX_UINT64: nat := 0xFFFF_FFFF_FFFF_FFFF

  type major = m: nat | m < 8

  /** How many bytes of value follow the first byte with additional information ai. */
  function Size(ai: nat): (k: nat)
    requires ai <= 27
    ensures k <= 8
  {
    if ai < 24 then 0 else if ai == 24 then 1 else if ai == 25 then 2 else if ai == 26 then 4 else 8
  }

  /** The additional information of the shortest head with value v. */
  function Info(v: nat): (ai: nat)
    requires v <= MAX_UINT64
    ensures ai <= 27
  {
    if v < 24 then v else if v < 0x100 then 24 else if v < 0x1_0000 then 25 else if v < 0x1_0000_0000 then 26 else 27
  }

  function Head(m: major, v: nat): (s: seq<byte>)
    requires v <= MAX_UINT64
    ensures |s| == 1 + Size(Info(v))
  {
    [32 * m + Info(v)] + BigEndian(v, Size(Info(v)))
  }

  /** The additional information in the byte at p. */
  function InfoAt(s: seq<byte>, p: nat): nat
    requires p < |s|
  {
    s[p] % 32
  }

  function MajorAt(s: seq<byte>, p: nat): major
    requires p < |s|
  {
    s[p] / 32
  }

  /** A whole head of definite length is at p. */
  predicate HeadFits(s: seq<byte>, p: nat) {
    p < |s| && InfoAt(s, p) <= 27 && p + 1 + Size(InfoAt(s, p)) <= |s|
  }

  function HeadEnd(s: seq<byte>, p: nat): (q: nat)
    requires HeadFits(s, p)
    ensures p < q <= |s|
  {
    p + 1 + Size(InfoAt(s, p))
  }

  function HeadValue(s: seq<byte>, p: nat): (v: nat)
    requires HeadFits(s, p)
  {
    if InfoAt(s, p) < 24 then InfoAt(s, p) else ValueOf(s[p + 1..HeadEnd(s, p)])
  }

  lemma HeadValueIsSmall(s: seq<byte>, p: nat)
    requires HeadFits(s, p)
    ensures HeadValue(s, p) <= MAX_UINT64
    ensures HeadValue(s, p) < Base(Size(InfoAt(s, p))) || InfoAt(s, p) < 24
  {
    Bases();
    BigEndianOfValue(s[p + 1..HeadEnd(s, p)]);
  }

  /** Reading a head gives back what was written. */
  lemma HeadReadsBack(s: seq<byte>, p: nat, m: major, v: nat)
    requires v <= MAX_UINT64 && p + |Head(m, v)| <= |s| && s[p..p + |Head(m, v)|] == Head(m, v)
    ensures HeadFits(s, p) && MajorAt(s, p) == m && InfoAt(s, p) == Info(v)
    ensures HeadValue(s, p) == v && HeadEnd(s, p) == p + |Head(m, v)|
  {
    hide BigEndian, ValueOf, Base;
    var h := Head(m, v);
    assert s[p] == s[p..p + |h|][0] == 32 * m + Info(v);
    assert s[p + 1..p + |h|] == s[p..p + |h|][1..] == h[1..] == BigEndian(v, Size(Info(v)));
    Bases();
    if v >= 24 {
      ValueOfBigEndian(v, Size(Info(v)));
    }
  }

  /** No head for the same value is shorter, and the only one as short is the one the encoder writes. */
  lemma HeadIsShortest(s: seq<byte>, p: nat)
    requires HeadFits(s, p)
    ensures HeadValue(s, p) <= MAX_UINT64
    ensures |Head(MajorAt(s, p), HeadValue(s, p))| <= HeadEnd(s, p) - p
    ensures |Head(MajorAt(s, p), HeadValue(s, p))| == HeadEnd(s, p) - p
      <==> s[p..HeadEnd(s, p)] == Head(MajorAt(s, p), HeadValue(s, p))
  {
    hide BigEndian, ValueOf, Base;
    var q, v, ai := HeadEnd(s, p), HeadValue(s, p), InfoAt(s, p);
    HeadValueIsSmall(s, p);
    Bases();
    BigEndianOfValue(s[p + 1..q]);
    if Info(v) == ai {
      assert s[p] == 32 * MajorAt(s, p) + ai;
      assert s[p..q] == [s[p]] + s[p + 1..q];
    }
    SizesDiffer(Info(v), ai, v);
  }

  lemma SizesDiffer(a: nat, b: nat, v: nat)
    requires v <= MAX_UINT64 && a == Info(v) && b <= 27
    requires if b < 24 then v == b
      else if b == 24 then v < 0x100
      else if b == 25 then v < 0x1_0000
      else if b == 26 then v < 0x1_0000_0000
      else v <= MAX_UINT64
    ensures Size(a) <= Size(b) && (Size(a) == Size(b) <==> a == b)
  {}
}
