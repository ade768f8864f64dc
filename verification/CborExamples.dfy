/** Examples of RFC 8949: encodings from its Appendix A, and bytes that its Appendix F calls not well formed. */
module CborExamples {
  import opened Bytes
  import opened Wrappers
  import opened CborFormat
  import opened CborTree

  /** The bytes read as the item, to their end. */
  predicate Means(s: seq<byte>, t: Item) {
    ParseItem(s, 0, 1) == Some((t, |s|))
  }

  predicate Written(s: seq<byte>, t: Item) {
    Encodable(t) && Encode(t) == s
  }

  lemma SmallNumbers()
    ensures Written([0x00], Number(false, 0)) && Written([0x17], Number(false, 23))
    ensures Written([0x18, 0x18], Number(false, 24)) && Written([0x18, 0x64], Number(false, 100))
    ensures Written([0x19, 0x03, 0xe8], Number(false, 1000))
    ensures Written([0x20], Number(true, 0)) && Written([0x29], Number(true, 9))
    ensures Written([0x38, 0x63], Number(true, 99)) && Written([0x39, 0x03, 0xe7], Number(true, 999))
  {}

  lemma FourBytes()
    ensures Written([0x1a, 0x00, 0x0f, 0x42, 0x40], Number(false, 1000000))
  {
    assert BigEndian(15, 2) == [0x00, 0x0f];
    assert BigEndian(3906, 3) == [0x00, 0x0f, 0x42];
  }

  lemma EightBytes()
    ensures Written([0x1b, 0x00, 0x00, 0x00, 0xe8, 0xd4, 0xa5, 0x10, 0x00], Number(false, 1000000000000))
  {
    hide Base;
    assert BigEndian(0, 3) == [0x00, 0x00, 0x00];
    assert BigEndian(232, 4) == [0x00, 0x00, 0x00, 0xe8];
    assert BigEndian(59604, 5) == [0x00, 0x00, 0x00, 0xe8, 0xd4];
    assert BigEndian(15258789, 6) == [0x00, 0x00, 0x00, 0xe8, 0xd4, 0xa5];
    assert BigEndian(3906250000, 7) == [0x00, 0x00, 0x00, 0xe8, 0xd4, 0xa5, 0x10];
  }

  lemma SimpleValues()
    ensures Written([0xf4], Simple(20)) && Written([0xf5], Simple(21))
    ensures Written([0xf6], Simple(22)) && Written([0xf7], Simple(23))
    ensures Written([0xf0], Simple(16)) && Written([0xf8, 0xff], Simple(255))
  {}

  lemma HalfFloat()
    ensures Written([0xf9, 0x3e, 0x00], Float(0, 0x3e00))
  {
    assert BigEndian(0x3e, 1) == [0x3e];
    Bases();
  }

  lemma SingleFloat()
    ensures Written([0xfa, 0x47, 0xc3, 0x50, 0x00], Float(1, 0x47c35000))
  {
    hide Base;
    Bases();
    assert BigEndian(0x47, 1) == [0x47];
    assert BigEndian(0x47c3, 2) == [0x47, 0xc3];
    assert BigEndian(0x47c350, 3) == [0x47, 0xc3, 0x50];
  }

  lemma TagsAndStrings()
    ensures Written([0xc1, 0x1a, 0x51, 0x4b, 0x67, 0xb0], Tagged(1, Number(false, 1363896240)))
    ensures Written([0x44, 0x01, 0x02, 0x03, 0x04], Str(false, [1, 2, 3, 4]))
    ensures Written([0x64, 0x49, 0x45, 0x54, 0x46], Str(true, [0x49, 0x45, 0x54, 0x46]))
  {}

  lemma ArrayOfThree()
    ensures Written([0x83, 0x01, 0x02, 0x03], Array(true, [Number(false, 1), Number(false, 2), Number(false, 3)]))
  {
    var items := [Number(false, 1), Number(false, 2), Number(false, 3)];
    assert items[1..] == [Number(false, 2), Number(false, 3)] && items[1..][1..] == [Number(false, 3)];
    assert items[1..][1..][1..] == [];
  }

  lemma MapOfOne()
    ensures Written([0xa1, 0x01, 0x02], Map(true, [Number(false, 1), Number(false, 2)]))
  {
    var items := [Number(false, 1), Number(false, 2)];
    assert items[1..] == [Number(false, 2)] && items[1..][1..] == [];
  }

  lemma OpenLists()
    ensures Written([0x9f, 0xff], Array(false, []))
    ensures Written([0xbf, 0x01, 0x02, 0xff], Map(false, [Number(false, 1), Number(false, 2)]))
  {
    var items := [Number(false, 1), Number(false, 2)];
    assert items[1..] == [Number(false, 2)] && items[1..][1..] == [];
  }

  lemma OneChunk(s: seq<byte>, p: nat, q: nat, n: nat, rest: Option<(seq<byte>, nat)>)
    requires p < |s| && s[p] == 0x40 + n && n < 24 && q == p + 1 && q + n <= |s| && rest.Some?
    requires ParseChunks(s, q + n, BYTE_STRING) == rest
    ensures ParseChunks(s, p, BYTE_STRING) == Some((s[q..q + n] + rest.value.0, rest.value.1))
  {}

  lemma NoMoreChunks(s: seq<byte>, p: nat)
    requires BreakAt(s, p)
    ensures ParseChunks(s, p, BYTE_STRING) == Some(([], p))
  {}

  lemma Chunks()
    ensures Means([0x5f, 0x42, 0x01, 0x02, 0x43, 0x03, 0x04, 0x05, 0xff], Str(false, [1, 2, 3, 4, 5]))
  {
    hide ParseChunks;
    var s: seq<byte> := [0x5f, 0x42, 0x01, 0x02, 0x43, 0x03, 0x04, 0x05, 0xff];
    NoMoreChunks(s, 8);
    assert s[2..4] == [1, 2] && s[5..8] == [3, 4, 5];
    assert [3, 4, 5] + [] == [3, 4, 5] && [1, 2] + [3, 4, 5] == [1, 2, 3, 4, 5];
    OneChunk(s, 4, 5, 3, Some(([], 8)));
    OneChunk(s, 1, 2, 2, Some(([3, 4, 5], 8)));
  }

  // ---------- Not well formed ----------

  predicate Refused(s: seq<byte>) {
    ParseItem(s, 0, 1).None?
  }

  /** The end comes inside a head, a string or a list, or behind a tag. */
  lemma CutHeads()
    ensures Refused([]) && Refused([0x18]) && Refused([0x19, 0x01]) && Refused([0x1a, 0x01, 0x02, 0x03])
    ensures Refused([0xc0])
  {}

  lemma CutStrings()
    ensures Refused([0x41]) && Refused([0x62, 0x61]) && Refused([0x5f, 0x41, 0x00])
  {}

  lemma CutLists()
    ensures Refused([0x81]) && Refused([0xa1, 0x00])
  {
    hide ParseItems;
    NoItem([0x81], 1, 1);
    OneItem([0xa1, 0x00], 1, 2);
    NoItem([0xa1, 0x00], 2, 1);
    ItemAndRest([0xa1, 0x00], 1, 2);
  }

  lemma NoItem(s: seq<byte>, p: nat, n: nat)
    requires p <= |s| && n > 0 && (p == |s| || s[p] == BREAK)
    ensures ParseItem(s, p, 0).None? && ParseItems(s, p, n, 0).None?
  {}

  lemma OneItem(s: seq<byte>, p: nat, q: nat)
    requires p < |s| && q == p + 1 && s[p] == 0
    ensures ParseItem(s, p, 0) == Some((Number(false, 0), q))
  {}

  lemma ItemAndRest(s: seq<byte>, p: nat, n: nat)
    requires p < |s| && s[p] == 0 && n > 0
    ensures ParseItems(s, p + 1, n - 1, 0).None? ==> ParseItems(s, p, n, 0).None?
  {
    OneItem(s, p, p + 1);
  }

  /** Additional information that is reserved, or that has no meaning for the major type. */
  lemma Reserved()
    ensures Refused([0x1c]) && Refused([0x1d]) && Refused([0x1e])
    ensures Refused([0x5c]) && Refused([0xfc]) && Refused([0xfd])
    ensures Refused([0x1f]) && Refused([0x3f]) && Refused([0xdf, 0x00])
  {}

  lemma TwoByteSimple()
    ensures Refused([0xf8, 0x00]) && Refused([0xf8, 0x18]) && Refused([0xf8, 0x1f])
  {}

  lemma WrongChunks()
    ensures Refused([0x5f, 0x00, 0xff]) && Refused([0x5f, 0x61, 0x00, 0xff]) && Refused([0x7f, 0x41, 0x00, 0xff])
    ensures Refused([0x5f, 0x5f, 0x41, 0x00, 0xff, 0xff])
  {}

  lemma MisplacedBreak()
    ensures Refused([0xff]) && Refused([0x81, 0xff]) && Refused([0xa1, 0x00, 0xff])
  {
    hide ParseItems;
    NoItem([0x81, 0xff], 1, 1);
    NoItem([0xa1, 0x00, 0xff], 2, 1);
    ItemAndRest([0xa1, 0x00, 0xff], 1, 2);
  }

  lemma BreakBehindKey()
    ensures Refused([0xbf, 0x00, 0xff])
  {
    hide ParseUntil;
    OddBreak([0xbf, 0x00, 0xff], 2);
    KeyThenBreak([0xbf, 0x00, 0xff], 1);
  }

  lemma OddBreak(s: seq<byte>, p: nat)
    requires BreakAt(s, p)
    ensures ParseUntil(s, p, 0, true, true).None?
  {}

  lemma KeyThenBreak(s: seq<byte>, p: nat)
    requires p < |s| && s[p] == 0 && ParseUntil(s, p + 1, 0, true, true).None?
    ensures ParseUntil(s, p, 0, true, false).None?
  {
    OneItem(s, p, p + 1);
  }
}
