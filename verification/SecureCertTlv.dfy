/**
 The store of type-length-value entries: the image the tool writes, and the
 walk over it on the device.  The CRC is a parameter.
 */
module SecureCertTlv {
  import opened Bytes
  import opened Wrappers

  const MAGIC: nat := 0xBA5EBA11
  const ALIGNMENT: nat := 16
  const HEADER_SIZE: nat := 12
  const FOOTER_SIZE: nat := 4
  const PARTITION_SIZE: nat := 0x2000
  const TLV_END: byte := 50
  const SUBTYPE_MAX: byte := 254

  /** A CRC over bytes, as a 32-bit number. */
  type Crc = seq<byte> -> nat

  datatype Entry = Entry(flags: byte, ty: byte, subtype: byte, data: seq<byte>)

  // ---------- What is written ----------

  function Padding(length: nat): (n: nat)
    ensures n < ALIGNMENT
  {
    (ALIGNMENT - length % ALIGNMENT) % ALIGNMENT
  }

  function Zeros(n: nat): (s: seq<byte>)
    ensures |s| == n
  {
    seq(n, _ => 0)
  }

  /** Type and subtype are one little-endian number of two bytes. */
  function Header(e: Entry): (h: seq<byte>)
    requires |e.data| < 0x1_0000
    ensures |h| == HEADER_SIZE
  {
    LittleEndian(MAGIC, 4) + LittleEndian(e.flags, 4) + LittleEndian(e.ty + 256 * (e.subtype as nat), 2)
    + LittleEndian(|e.data|, 2)
  }

  function Covered(e: Entry): (s: seq<byte>)
    requires |e.data| < 0x1_0000
    ensures |s| == HEADER_SIZE + |e.data| + Padding(|e.data|)
  {
    Header(e) + e.data + Zeros(Padding(|e.data|))
  }

  function Tlv(e: Entry, crc: Crc): (s: seq<byte>)
    requires |e.data| < 0x1_0000
    ensures |s| == TlvSize(e)
  {
    Covered(e) + LittleEndian(crc(Covered(e)) % 0x1_0000_0000, 4)
  }

  function TlvSize(e: Entry): nat {
    HEADER_SIZE + |e.data| + Padding(|e.data|) + FOOTER_SIZE
  }

  predicate Short(entries: seq<Entry>) {
    forall k :: 0 <= k < |entries| ==> |entries[k].data| < 0x1_0000
  }

  function Laid(entries: seq<Entry>, crc: Crc): seq<byte>
    requires Short(entries)
  {
    if entries == [] then []
    else Laid(entries[..|entries| - 1], crc) + Tlv(entries[|entries| - 1], crc)
  }

  /** Where the k-th entry starts. */
  function Offset(entries: seq<Entry>, k: nat): (r: nat)
    requires k <= |entries|
  {
    if k == 0 then 0 else Offset(entries, k - 1) + TlvSize(entries[k - 1])
  }

  /** Room is left for a word behind the last entry. */
  predicate Fits(entries: seq<Entry>) {
    Offset(entries, |entries|) + 4 <= PARTITION_SIZE
  }

  function Blank(n: nat): (s: seq<byte>)
    ensures |s| == n
  {
    seq(n, _ => 0xff)
  }

  lemma SizeIsAligned(e: Entry)
    ensures TlvSize(e) % ALIGNMENT == 0
  {
    var q, r := |e.data| / ALIGNMENT, |e.data| % ALIGNMENT;
    assert TlvSize(e) == if r == 0 then (q + 1) * ALIGNMENT else (q + 2) * ALIGNMENT;
  }

  lemma {:induction false} OffsetIsAligned(entries: seq<Entry>, k: nat)
    requires k <= |entries|
    ensures Offset(entries, k) % ALIGNMENT == 0
  {
    hide TlvSize, Padding;
    if k > 0 {
      OffsetIsAligned(entries, k - 1);
      SizeIsAligned(entries[k - 1]);
    }
  }

  lemma {:induction false} OffsetOfPrefix(entries: seq<Entry>, m: nat, k: nat)
    requires k <= m <= |entries|
    ensures Offset(entries[..m], k) == Offset(entries, k)
  {
    if k > 0 {
      OffsetOfPrefix(entries, m, k - 1);
    }
  }

  lemma {:induction false} OffsetsGrow(entries: seq<Entry>, k: nat, m: nat)
    requires k <= m <= |entries|
    ensures Offset(entries, k) <= Offset(entries, m)
    decreases m
  {
    if k < m {
      OffsetsGrow(entries, k, m - 1);
    }
  }

  lemma OffsetsDiffer(entries: seq<Entry>, i: nat, j: nat)
    requires i < j <= |entries|
    ensures Offset(entries, i) < Offset(entries, j)
  {
    OffsetsGrow(entries, i + 1, j);
  }

  lemma {:induction false} LaidSize(entries: seq<Entry>, crc: Crc)
    requires Short(entries)
    ensures |Laid(entries, crc)| == Offset(entries, |entries|)
    decreases |entries|
  {
    if entries != [] {
      var n := |entries| - 1;
      LaidSize(entries[..n], crc);
      OffsetOfPrefix(entries, n, n);
    }
  }

  predicate StartsWith(s: seq<byte>, front: seq<byte>) {
    front <= s
  }

  /** An image that starts with the entries and goes on with a word that is not the magic number. */
  ghost predicate IsImage(image: seq<byte>, entries: seq<Entry>, crc: Crc) {
    Short(entries) && |image| == PARTITION_SIZE && Fits(entries) && StartsWith(image, Laid(entries, crc))
    && FromLittle(image[Offset(entries, |entries|)..Offset(entries, |entries|) + 4]) != MAGIC
  }

  lemma {:induction false} EntryAt(image: seq<byte>, entries: seq<Entry>, k: nat, crc: Crc)
    requires Short(entries) && k < |entries| && StartsWith(image, Laid(entries, crc))
    ensures Offset(entries, k + 1) <= |image|
    ensures image[Offset(entries, k)..Offset(entries, k + 1)] == Tlv(entries[k], crc)
    decreases |entries|
  {
    hide Tlv, Laid, TlvSize;
    var n := |entries| - 1;
    LastLaid(image, entries, crc);
    OffsetOfPrefix(entries, n, k);
    if k < n {
      OffsetOfPrefix(entries, n, k + 1);
      EntryAt(image, entries[..n], k, crc);
    }
  }

  lemma {:induction false} LastLaid(image: seq<byte>, entries: seq<Entry>, crc: Crc)
    requires Short(entries) && entries != [] && StartsWith(image, Laid(entries, crc))
    ensures var n := |entries| - 1;
      StartsWith(image, Laid(entries[..n], crc)) && Offset(entries, n + 1) <= |image|
      && image[Offset(entries, n)..Offset(entries, n + 1)] == Tlv(entries[n], crc)
  {
    hide Tlv, TlvSize, Laid, Offset, StartsWith;
    var n := |entries| - 1;
    LaidSnoc(entries, crc);
    PrefixOfBoth(Laid(entries[..n], crc), Tlv(entries[n], crc), image);
  }

  lemma {:induction false} LaidSnoc(entries: seq<Entry>, crc: Crc)
    requires Short(entries) && entries != []
    ensures var n := |entries| - 1;
      Laid(entries, crc) == Laid(entries[..n], crc) + Tlv(entries[n], crc)
      && |Laid(entries[..n], crc)| == Offset(entries, n)
      && Offset(entries, n + 1) == Offset(entries, n) + |Tlv(entries[n], crc)|
  {
    hide Tlv, TlvSize;
    var n := |entries| - 1;
    LaidSize(entries[..n], crc);
    OffsetOfPrefix(entries, n, n);
  }

  lemma PrefixOfBoth(a: seq<byte>, b: seq<byte>, s: seq<byte>)
    requires StartsWith(s, a + b)
    ensures StartsWith(s, a) && |a| + |b| <= |s| && s[|a|..|a| + |b|] == b
  {
    assert s[|a|..|a| + |b|] == (a + b)[|a|..];
  }

  method PrepareTlv(e: Entry, crc: Crc) returns (tlv: seq<byte>)
    requires |e.data| < 0x1_0000
    ensures tlv == Tlv(e, crc)
  {
    tlv := LittleEndian(MAGIC, 4);
    tlv := tlv + LittleEndian(e.flags, 4);
    tlv := tlv + LittleEndian(e.ty + 256 * (e.subtype as nat), 2);
    tlv := tlv + LittleEndian(|e.data|, 2);
    tlv := tlv + e.data;
    var paddingLen := ALIGNMENT - |e.data| % ALIGNMENT;
    paddingLen := if paddingLen == ALIGNMENT then 0 else paddingLen;
    tlv := tlv + Zeros(paddingLen);
    assert tlv == Covered(e);
    tlv := tlv + LittleEndian(crc(tlv) % 0x1_0000_0000, 4);
  }

  /** Lays the entries one after the other into a blank image. */
  method GeneratePartition(entries: seq<Entry>, crc: Crc) returns (image: seq<byte>)
    requires Short(entries) && Fits(entries)
    ensures IsImage(image, entries, crc)
    ensures image == Laid(entries, crc) + Blank(PARTITION_SIZE - Offset(entries, |entries|))
  {
    hide Tlv, TlvSize, Laid, Blank, LittleEndian, FromLittle;
    image := Blank(PARTITION_SIZE);
    NothingLaid(crc);
    var curOffset, i := 0, 0;
    while i < |entries|
      invariant 0 <= i <= |entries| && curOffset == Offset(entries, i) <= PARTITION_SIZE
      invariant image == Laid(entries[..i], crc) + Blank(PARTITION_SIZE - curOffset)
    {
      OffsetsGrow(entries, i + 1, |entries|);
      LaidPrefix(entries, i, crc);
      var tlv := PrepareTlv(entries[i], crc);
      PatchBlank(Laid(entries[..i], crc), tlv, PARTITION_SIZE - curOffset);
      image := image[..curOffset] + tlv + image[curOffset + |tlv|..];
      curOffset := curOffset + |tlv|;
      i := i + 1;
    }
    assert entries[..i] == entries;
    LaidSize(entries, crc);
    BlankBehind(Laid(entries, crc), PARTITION_SIZE - curOffset);
  }

  lemma {:induction false} NothingLaid(crc: Crc)
    ensures Laid([], crc) + Blank(PARTITION_SIZE) == Blank(PARTITION_SIZE)
  {}

  lemma {:induction false} LaidPrefix(entries: seq<Entry>, i: nat, crc: Crc)
    requires Short(entries) && i < |entries|
    ensures |Laid(entries[..i], crc)| == Offset(entries, i)
    ensures Laid(entries[..i + 1], crc) == Laid(entries[..i], crc) + Tlv(entries[i], crc)
  {
    hide Tlv, TlvSize;
    LaidSize(entries[..i], crc);
    OffsetOfPrefix(entries, i, i);
    assert entries[..i + 1][..i] == entries[..i];
  }

  /** A patch at the front of the blank bytes. */
  lemma PatchBlank(front: seq<byte>, patch: seq<byte>, n: nat)
    requires |patch| <= n
    ensures var s := front + Blank(n);
      s[..|front|] + patch + s[|front| + |patch|..] == front + patch + Blank(n - |patch|)
  {}

  lemma BlankBehind(front: seq<byte>, n: nat)
    requires n >= 4
    ensures FromLittle((front + Blank(n))[|front|..|front| + 4]) != MAGIC
  {
    hide FromLittle;
    assert (front + Blank(n))[|front|..|front| + 4] == Blank(4);
    BlankIsNoMagic();
  }

  lemma BlankIsNoMagic()
    ensures FromLittle(Blank(4)) != MAGIC
  {
    var s := Blank(4);
    assert FromLittle(s[4..]) == 0;
    assert s[1..][1..] == s[2..] && s[2..][1..] == s[3..] && s[3..][1..] == s[4..];
    assert FromLittle(s[3..]) == 0xff;
    assert FromLittle(s[2..]) == 0xffff;
    assert FromLittle(s[1..]) == 0xffffff;
  }

  // ---------- What is read ----------

  function MagicAt(image: seq<byte>, at: nat): nat
    requires at + 4 <= |image|
  {
    FromLittle(image[at..at + 4])
  }

  function LengthAt(image: seq<byte>, at: nat): nat
    requires at + HEADER_SIZE <= |image|
  {
    FromLittle(image[at + 10..at + 12])
  }

  /** The size of an entry as a 16-bit number. */
  function TotalLength(image: seq<byte>, at: nat): nat
    requires at + HEADER_SIZE <= |image|
  {
    (HEADER_SIZE + LengthAt(image, at) + Padding(LengthAt(image, at)) + FOOTER_SIZE) % 0x1_0000
  }

  /** Reading the header of a written entry gives its fields, and its data stand behind it. */
  lemma {:induction false} HeaderReadsBack(image: seq<byte>, at: nat, e: Entry, crc: Crc)
    requires |e.data| < 0x1_0000 && at + TlvSize(e) <= |image| && image[at..at + TlvSize(e)] == Tlv(e, crc)
    ensures MagicAt(image, at) == MAGIC && LengthAt(image, at) == |e.data|
    ensures image[at + 4] == e.flags && image[at + 8] == e.ty && image[at + 9] == e.subtype
    ensures image[at + HEADER_SIZE..at + HEADER_SIZE + |e.data|] == e.data
    ensures var n := HEADER_SIZE + |e.data| + Padding(|e.data|);
      image[at..at + n] == Covered(e) && FromLittle(image[at + n..at + n + 4]) == crc(Covered(e)) % 0x1_0000_0000
  {
    hide FromLittle, Base, Padding, Header, Covered, Tlv;
    TlvParts(e, crc);
    var t := Tlv(e, crc);
    var n := HEADER_SIZE + |e.data| + Padding(|e.data|);
    SliceOf(image, at, t, 0, n);
    SliceOf(image, at, t, n, n + 4);
    SliceOf(image, at, t, HEADER_SIZE, HEADER_SIZE + |e.data|);
    SliceOf(image, at, t, 0, 4);
    SliceOf(image, at, t, 10, 12);
  }

  /** What stands in a written entry. */
  lemma {:induction false} TlvParts(e: Entry, crc: Crc)
    requires |e.data| < 0x1_0000
    ensures var (t, n) := (Tlv(e, crc), HEADER_SIZE + |e.data| + Padding(|e.data|));
      |t| == n + 4 && t[0..n] == Covered(e) && FromLittle(t[n..n + 4]) == crc(Covered(e)) % 0x1_0000_0000
    ensures var t := Tlv(e, crc);
      FromLittle(t[0..4]) == MAGIC && FromLittle(t[10..12]) == |e.data|
      && t[4] == e.flags && t[8] == e.ty && t[9] == e.subtype && t[HEADER_SIZE..HEADER_SIZE + |e.data|] == e.data
  {
    hide FromLittle, LittleEndian, Padding, Covered, Header;
    CrcStands(Covered(e), crc(Covered(e)) % 0x1_0000_0000);
    FieldsStand(Tlv(e, crc), e);
  }

  lemma FieldsStand(t: seq<byte>, e: Entry)
    requires |e.data| < 0x1_0000 && |Covered(e)| <= |t| && t[0..|Covered(e)|] == Covered(e)
    ensures FromLittle(t[0..4]) == MAGIC && FromLittle(t[10..12]) == |e.data|
    ensures t[4] == e.flags && t[8] == e.ty && t[9] == e.subtype && t[HEADER_SIZE..HEADER_SIZE + |e.data|] == e.data
  {
    hide FromLittle, Padding, Covered, Header;
    var c := Covered(e);
    CoveredParts(e);
    SliceOf(t, 0, c, 0, 4);
    SliceOf(t, 0, c, 10, 12);
    SliceOf(t, 0, c, HEADER_SIZE, HEADER_SIZE + |e.data|);
  }

  lemma CrcStands(c: seq<byte>, sum: nat)
    requires sum < 0x1_0000_0000
    ensures var t := c + LittleEndian(sum, 4);
      t[0..|c|] == c && FromLittle(t[|c|..|c| + 4]) == sum
  {
    hide FromLittle, LittleEndian, Base;
    Bases();
    FromLittleEndian(sum, 4);
    assert (c + LittleEndian(sum, 4))[|c|..|c| + 4] == LittleEndian(sum, 4);
  }

  lemma CoveredParts(e: Entry)
    requires |e.data| < 0x1_0000
    ensures var c := Covered(e);
      FromLittle(c[0..4]) == MAGIC && FromLittle(c[10..12]) == |e.data|
      && c[4] == e.flags && c[8] == e.ty && c[9] == e.subtype && c[HEADER_SIZE..HEADER_SIZE + |e.data|] == e.data
  {
    hide FromLittle, Padding, Header, Zeros;
    var c := Covered(e);
    HeaderFields(e);
    assert c[0..HEADER_SIZE] == Header(e) && c[HEADER_SIZE..HEADER_SIZE + |e.data|] == e.data;
    SliceOf(c, 0, Header(e), 0, 4);
    SliceOf(c, 0, Header(e), 10, 12);
  }

  lemma SliceOf(image: seq<byte>, at: nat, t: seq<byte>, i: nat, j: nat)
    requires i <= j <= |t| && at + |t| <= |image| && image[at..at + |t|] == t
    ensures image[at + i..at + j] == t[i..j]
    ensures forall k :: 0 <= k < |t| ==> image[at + k] == t[k]
  {
    forall k | 0 <= k < |t|
      ensures image[at + k] == t[k]
    {
      assert image[at..at + |t|][k] == t[k];
    }
  }

  lemma HeaderFields(e: Entry)
    requires |e.data| < 0x1_0000
    ensures FromLittle(Header(e)[0..4]) == MAGIC && FromLittle(Header(e)[10..12]) == |e.data|
    ensures Header(e)[4] == e.flags && Header(e)[8] == e.ty && Header(e)[9] == e.subtype
  {
    hide FromLittle, Base;
    var h := Header(e);
    var tt: nat := e.ty + 256 * (e.subtype as nat);
    assert h[0..4] == LittleEndian(MAGIC, 4) && h[10..12] == LittleEndian(|e.data|, 2);
    Bases();
    FromLittleEndian(MAGIC, 4);
    FromLittleEndian(|e.data|, 2);
    assert h[4] == LittleEndian(e.flags, 4)[0];
    assert h[8] == LittleEndian(tt, 2)[0] == tt % 256;
    assert h[9] == LittleEndian(tt, 2)[1] == LittleEndian(tt / 256, 1)[0] == tt / 256 % 256;
  }

  /** A whole entry, if the magic number stands at the position, lies inside the image. */
  predicate Inside(image: seq<byte>, at: nat) {
    at + 4 <= |image|
    && (MagicAt(image, at) == MAGIC ==>
      at + HEADER_SIZE <= |image|
      && at + HEADER_SIZE + LengthAt(image, at) + Padding(LengthAt(image, at)) + FOOTER_SIZE <= |image|)
  }

  /** The magic number stands at the position, and the CRC behind the entry is that of its bytes. */
  predicate Intact(image: seq<byte>, at: nat, crc: Crc)
    requires Inside(image, at)
  {
    MagicAt(image, at) == MAGIC
    && var n := HEADER_SIZE + LengthAt(image, at) + Padding(LengthAt(image, at));
    FromLittle(image[at + n..at + n + 4]) == crc(image[at..at + n]) % 0x1_0000_0000
  }

  method VerifyTlvIntegrity(image: seq<byte>, at: nat, crc: Crc) returns (ok: bool)
    requires Inside(image, at)
    ensures ok <==> Intact(image, at, crc)
  {
    hide FromLittle, Padding;
    if MagicAt(image, at) != MAGIC {
      return false;
    }
    var crcDataLen := HEADER_SIZE + LengthAt(image, at) + Padding(LengthAt(image, at));
    var dataCrc := crc(image[at..at + crcDataLen]) % 0x1_0000_0000;
    ok := FromLittle(image[at + crcDataLen..at + crcDataLen + 4]) == dataCrc;
  }

  /** What the walk finds where the k-th entry starts, or behind the last one. */
  lemma {:induction false} WalkAt(image: seq<byte>, entries: seq<Entry>, k: nat, crc: Crc)
    requires IsImage(image, entries, crc) && k <= |entries|
    ensures Inside(image, Offset(entries, k)) && Offset(entries, k) + 4 <= PARTITION_SIZE
    ensures MagicAt(image, Offset(entries, k)) == MAGIC <==> k < |entries|
    ensures Intact(image, Offset(entries, k), crc) <==> k < |entries|
    ensures k == 0 ==> Offset(entries, k) == 0
    ensures k < |entries| ==>
      var at, e := Offset(entries, k), entries[k];
      Offset(entries, k + 1) == at + TotalLength(image, at) <= PARTITION_SIZE && TotalLength(image, at) > 0
      && image[at + 4] == e.flags && image[at + 8] == e.ty && image[at + 9] == e.subtype
      && LengthAt(image, at) == |e.data| && at + HEADER_SIZE + |e.data| <= |image|
      && image[at + HEADER_SIZE..at + HEADER_SIZE + |e.data|] == e.data
  {
    hide MagicAt, LengthAt, FromLittle, Padding, Tlv, TlvSize, Laid, Covered;
    OffsetsGrow(entries, k, |entries|);
    if k < |entries| {
      OffsetsGrow(entries, k + 1, |entries|);
      EntryAt(image, entries, k, crc);
      TlvAt(image, Offset(entries, k), entries[k], crc);
    } else {
      NoMagicNoEntry(image, Offset(entries, k), crc);
    }
  }

  /** Where a whole entry stands in an image that the offsets of 16 bits reach. */
  lemma {:induction false} TlvAt(image: seq<byte>, at: nat, e: Entry, crc: Crc)
    requires |e.data| < 0x1_0000 && at + TlvSize(e) <= |image| <= PARTITION_SIZE
      && image[at..at + TlvSize(e)] == Tlv(e, crc)
    ensures Inside(image, at) && MagicAt(image, at) == MAGIC && Intact(image, at, crc)
    ensures at + HEADER_SIZE + |e.data| <= |image| && TotalLength(image, at) == TlvSize(e) > 0
    ensures image[at + 4] == e.flags && image[at + 8] == e.ty && image[at + 9] == e.subtype
      && LengthAt(image, at) == |e.data|
    ensures image[at + HEADER_SIZE..at + HEADER_SIZE + |e.data|] == e.data
  {
    hide MagicAt, LengthAt, FromLittle, Padding, Tlv, Covered;
    HeaderReadsBack(image, at, e, crc);
  }

  lemma {:induction false} NoMagicNoEntry(image: seq<byte>, at: nat, crc: Crc)
    requires at + 4 <= |image| && FromLittle(image[at..at + 4]) != MAGIC
    ensures Inside(image, at) && MagicAt(image, at) != MAGIC && !Intact(image, at, crc)
  {
    hide FromLittle;
  }

  // ---------- An entry in bytes, and changes to it ----------

  /** One entry byte by byte: magic number, flags, type, subtype, length, data, zeros up to 16 bytes. */
  lemma EntryBytes(crc: Crc)
    ensures Covered(Entry(0x40, 7, 3, [0xAA, 0xBB])) == [
      0x11, 0xBA, 0x5E, 0xBA, 0x40, 0x00, 0x00, 0x00, 0x07, 0x03, 0x02, 0x00,
      0xAA, 0xBB, 0x00, 0x00, 0x00, 0x00, 0x00, 0x00, 0x00, 0x00, 0x00, 0x00, 0x00, 0x00, 0x00, 0x00]
  {
    hide Header;
    KnownHeader();
    assert Zeros(Padding(2)) == [0, 0, 0, 0, 0, 0, 0, 0, 0, 0, 0, 0, 0, 0];
  }

  lemma KnownHeader()
    ensures Header(Entry(0x40, 7, 3, [0xAA, 0xBB]))
      == [0x11, 0xBA, 0x5E, 0xBA, 0x40, 0x00, 0x00, 0x00, 0x07, 0x03, 0x02, 0x00]
  {
    hide LittleEndian;
    KnownNumbers();
  }

  lemma KnownNumbers()
    ensures LittleEndian(0xBA5EBA11, 4) == [0x11, 0xBA, 0x5E, 0xBA]
    ensures LittleEndian(0x40, 4) == [0x40, 0x00, 0x00, 0x00]
    ensures LittleEndian(0x0307, 2) == [0x07, 0x03] && LittleEndian(2, 2) == [0x02, 0x00]
  {
    assert LittleEndian(0xBA, 1) == [0xBA];
    assert LittleEndian(0xBA5E, 2) == [0x5E, 0xBA];
    assert LittleEndian(0xBA5EBA, 3) == [0xBA, 0x5E, 0xBA];
    assert LittleEndian(0, 1) == [0] && LittleEndian(0, 2) == [0, 0] && LittleEndian(0, 3) == [0, 0, 0];
    assert LittleEndian(3, 1) == [3];
  }

  lemma {:induction false} FromLittleDiffers(s: seq<byte>, k: nat, b: byte)
    requires k < |s|
    ensures FromLittle(s[k := b]) == FromLittle(s) <==> b == s[k]
  {
    if k == 0 {
      assert s[0 := b][1..] == s[1..];
    } else {
      assert s[k := b][1..] == s[1..][k - 1 := b];
      FromLittleDiffers(s[1..], k - 1, b);
    }
  }

  /**
   A changed byte behind the magic number, the length apart: the entry is intact
   exactly if the CRC of the changed bytes is the same as before, and for a byte
   of the CRC exactly if it is not changed.
   */
  lemma {:induction false} ChangeDetected(image: seq<byte>, at: nat, e: Entry, crc: Crc, k: nat, b: byte)
    requires |e.data| < 0x1_0000 && at + TlvSize(e) <= |image| && image[at..at + TlvSize(e)] == Tlv(e, crc)
    requires 4 <= k < TlvSize(e) && k != 10 && k != 11
    ensures var (changed, n) := (image[at + k := b], |Covered(e)|);
      Inside(changed, at)
      && (Intact(changed, at, crc)
        <==> if k < n then crc(Covered(e)[k := b]) % 0x1_0000_0000 == crc(Covered(e)) % 0x1_0000_0000
             else b == image[at + k])
  {
    hide FromLittle, Padding, Tlv, Covered;
    HeaderReadsBack(image, at, e, crc);
    var (changed, n) := (image[at + k := b], |Covered(e)|);
    assert changed[at..at + 4] == image[at..at + 4] && changed[at + 10..at + 12] == image[at + 10..at + 12];
    if k < n {
      assert changed[at..at + n] == Covered(e)[k := b];
      assert changed[at + n..at + n + 4] == image[at + n..at + n + 4];
    } else {
      assert changed[at..at + n] == image[at..at + n];
      assert changed[at + n..at + n + 4] == image[at + n..at + n + 4][k - n := b];
      FromLittleDiffers(image[at + n..at + n + 4], k - n, b);
    }
  }

  // ---------- Finding an entry ----------

  /** The first entry from k on with the type and subtype, or the number of entries. */
  function FirstMatch(entries: seq<Entry>, ty: byte, subtype: byte, k: nat): (r: nat)
    requires k <= |entries|
    ensures k <= r <= |entries|
    ensures r < |entries| ==> entries[r].ty == ty && entries[r].subtype == subtype
    ensures forall i :: k <= i < r ==> !(entries[i].ty == ty && entries[i].subtype == subtype)
    decreases |entries| - k
  {
    if k == |entries| || (entries[k].ty == ty && entries[k].subtype == subtype) then k
    else FirstMatch(entries, ty, subtype, k + 1)
  }

  /** The last of the first k entries that has the type, if any. */
  function LastOfType(entries: seq<Entry>, ty: byte, k: nat): (r: Option<nat>)
    requires k <= |entries|
    ensures r.Some? ==> r.value < k && entries[r.value].ty == ty && forall i :: r.value < i < k ==> entries[i].ty != ty
    ensures r.None? ==> forall i :: 0 <= i < k ==> entries[i].ty != ty
  {
    if k == 0 then None else if entries[k - 1].ty == ty then Some(k - 1) else LastOfType(entries, ty, k - 1)
  }

  /**
   The offset that a search gives: for SUBTYPE_MAX the last entry of the type,
   else the first one of type and subtype; and for TLV_END, of which there is
   no entry, the end of the entries.
   */
  function Found(entries: seq<Entry>, ty: byte, subtype: byte): Option<nat> {
    var n := |entries|;
    var missing := if ty == TLV_END then Some(Offset(entries, n)) else None;
    if subtype == SUBTYPE_MAX then
      var last := LastOfType(entries, ty, n);
      if last.Some? then Some(Offset(entries, last.value)) else missing
    else
      var first := FirstMatch(entries, ty, subtype, 0);
      if first < n then Some(Offset(entries, first)) else missing
  }

  /** The search in terms of the entries: 254 asks for the last of the type, any other subtype for the first. */
  lemma LastFound(entries: seq<Entry>, ty: byte, k: nat)
    requires k < |entries| && entries[k].ty == ty && forall i :: k < i < |entries| ==> entries[i].ty != ty
    ensures Found(entries, ty, 254) == Some(Offset(entries, k))
  {
    hide Offset;
  }

  lemma FirstFound(entries: seq<Entry>, ty: byte, subtype: byte, k: nat)
    requires k < |entries| && entries[k].ty == ty && entries[k].subtype == subtype != 254
    requires forall i :: 0 <= i < k ==> entries[i].ty != ty || entries[i].subtype != subtype
    ensures Found(entries, ty, subtype) == Some(Offset(entries, k))
  {
    hide Offset;
  }

  /** Where there is no such entry, only a search for the type 50 finds something, the end. */
  lemma NothingFound(entries: seq<Entry>, ty: byte, subtype: byte)
    requires forall i :: 0 <= i < |entries| ==> entries[i].ty != ty || (subtype != 254 && entries[i].subtype != subtype)
    ensures Found(entries, ty, subtype) == if ty == 50 then Some(Offset(entries, |entries|)) else None
  {
    hide Offset;
  }

  method FindTlv(image: seq<byte>, ty: byte, subtype: byte, crc: Crc, ghost entries: seq<Entry>)
    returns (r: Option<nat>)
    requires IsImage(image, entries, crc)
    ensures r == Found(entries, ty, subtype)
    ensures r.Some? ==> r.value % ALIGNMENT == 0
  {
    hide IsImage, MagicAt, LengthAt, FromLittle, TotalLength, Inside, Padding, Intact, Offset, TlvSize;
    var tlvOffset: nat := 0;
    var latest: Option<nat> := None;
    var readLatest := subtype == SUBTYPE_MAX;
    ghost var k := 0;
    WalkAt(image, entries, 0, crc);
    while true
      invariant k <= |entries| && tlvOffset == Offset(entries, k) && (latest.Some? ==> latest.value % ALIGNMENT == 0)
      invariant readLatest ==>
        latest == if LastOfType(entries, ty, k).None? then None
          else Some(Offset(entries, LastOfType(entries, ty, k).value))
      invariant !readLatest ==> FirstMatch(entries, ty, subtype, 0) == FirstMatch(entries, ty, subtype, k)
      decreases |entries| - k
    {
      WalkAt(image, entries, k, crc);
      InsideHas(image, tlvOffset);
      OffsetIsAligned(entries, k);
      if MagicAt(image, tlvOffset) != MAGIC {
        if readLatest {
          if latest.Some? {
            WalkAt(image, entries, LastOfType(entries, ty, k).value, crc);
            var ok := VerifyTlvIntegrity(image, latest.value, crc);
            return if ok then latest else None;
          }
        }
        if ty == TLV_END {
          return Some(tlvOffset);
        }
        return None;
      }
      if image[tlvOffset + 8] == ty {
        if readLatest {
          latest := Some(tlvOffset);
        } else if image[tlvOffset + 9] == subtype {
          var ok := VerifyTlvIntegrity(image, tlvOffset, crc);
          return if ok then Some(tlvOffset) else None;
        }
      }
      tlvOffset := (tlvOffset + TotalLength(image, tlvOffset)) % 0x1_0000;
      k := k + 1;
    }
  }

  lemma InsideHas(image: seq<byte>, at: nat)
    requires Inside(image, at)
    ensures at + 4 <= |image| && (MagicAt(image, at) == MAGIC ==> at + HEADER_SIZE <= |image|)
  {}

  // ---------- The iterator ----------

  /** Moves an iterator to the next entry; a new iterator has no position. */
  method IterateToNextTlv(image: seq<byte>, position: Option<nat>, crc: Crc, ghost entries: seq<Entry>, ghost k: nat)
    returns (ok: bool, next: Option<nat>)
    requires IsImage(image, entries, crc)
    requires if position.None? then k == 0 else k > 0 && k <= |entries| && position == Some(Offset(entries, k - 1))
    ensures ok <==> k < |entries|
    ensures next == if ok then Some(Offset(entries, k)) else position
  {
    hide IsImage, MagicAt, LengthAt, FromLittle, TotalLength, Inside, Padding, Intact, Offset, TlvSize;
    WalkAt(image, entries, k, crc);
    if position.None? {
      ok := VerifyTlvIntegrity(image, 0, crc);
      return ok, if ok then Some(0) else position;
    }
    WalkAt(image, entries, k - 1, crc);
    InsideHas(image, position.value);
    ok := VerifyTlvIntegrity(image, position.value, crc);
    if !ok {
      return false, position;
    }
    var at := position.value + TotalLength(image, position.value);
    ok := VerifyTlvIntegrity(image, at, crc);
    next := if ok then Some(at) else position;
  }

  /** The entry stands at the position: its fields in the header, its data behind it. */
  predicate StandsAt(image: seq<byte>, at: nat, e: Entry) {
    at + HEADER_SIZE + |e.data| <= |image| && LengthAt(image, at) == |e.data|
    && image[at + 4] == e.flags && image[at + 8] == e.ty && image[at + 9] == e.subtype
    && image[at + HEADER_SIZE..at + HEADER_SIZE + |e.data|] == e.data
  }

  /** The iterator visits exactly the entries written, in order, each with its data in place. */
  method VisitEntries(image: seq<byte>, crc: Crc, ghost entries: seq<Entry>) returns (positions: seq<nat>)
    requires IsImage(image, entries, crc)
    ensures |positions| == |entries|
    ensures forall k :: 0 <= k < |entries| ==>
      positions[k] == Offset(entries, k) && StandsAt(image, positions[k], entries[k])
  {
    hide IsImage, MagicAt, LengthAt, FromLittle, TotalLength, Inside, Padding, Intact, Offset, TlvSize;
    positions := [];
    var ok, position := IterateToNextTlv(image, None, crc, entries, 0);
    while ok
      invariant |positions| <= |entries|
      invariant forall k :: 0 <= k < |positions| ==>
        positions[k] == Offset(entries, k) && StandsAt(image, positions[k], entries[k])
      invariant ok ==> |positions| < |entries| && position == Some(Offset(entries, |positions|))
      invariant !ok ==> |positions| == |entries|
      decreases |entries| - |positions|, ok
    {
      WalkAt(image, entries, |positions|, crc);
      positions := positions + [position.value];
      ok, position := IterateToNextTlv(image, position, crc, entries, |positions|);
    }
  }

  // ---------- The information about an entry ----------

  const SUBTYPE_INVALID: byte := 255

  /** Data as bytes; for the END type the client gets an address instead. */
  datatype Content = Data(bytes: seq<byte>) | EndAddress(at: nat)

  datatype TlvInfo = TlvInfo(ty: byte, subtype: byte, flags: byte, content: Content)

  /** What the device makes of data that are encrypted, or that stand for a derived key; it may fail. */
  type Opener = (byte, byte, seq<byte>) -> Option<seq<byte>>

  /** The two highest flag bits say that the data are encrypted (10) or that a key is derived (01). */
  predicate Sealed(flags: byte) {
    flags / 64 == 2 || flags / 64 == 1
  }

  /** That is, flags from 64 to 191. */
  lemma SealedRange(flags: byte)
    ensures Sealed(flags) <==> 64 <= flags < 192
  {}

  function Opened(flags: byte, subtype: byte, data: seq<byte>, opener: Opener): Option<seq<byte>> {
    if Sealed(flags) then opener(flags, subtype, data) else Some(data)
  }

  /** The information about the entry at a position, found under a type and subtype. */
  function InfoAt(image: seq<byte>, at: nat, ty: byte, subtype: byte, opener: Opener): Option<TlvInfo>
    requires at + HEADER_SIZE <= |image| && (ty != TLV_END ==> at + HEADER_SIZE + LengthAt(image, at) <= |image|)
  {
    var (t, flags) := (image[at + 8], image[at + 4]);
    var st := if t == TLV_END then SUBTYPE_INVALID else image[at + 9];
    if ty == TLV_END then Some(TlvInfo(t, st, flags, EndAddress(at)))
    else
      var data := Opened(flags, subtype, image[at + HEADER_SIZE..at + HEADER_SIZE + LengthAt(image, at)], opener);
      if data.None? then None else Some(TlvInfo(t, st, flags, Data(data.value)))
  }

  /** The same in terms of the entry that was written. */
  function Report(e: Entry, at: nat, subtype: byte, opener: Opener): Option<TlvInfo> {
    if e.ty == TLV_END then Some(TlvInfo(e.ty, SUBTYPE_INVALID, e.flags, EndAddress(at)))
    else
      var data := Opened(e.flags, subtype, e.data, opener);
      if data.None? then None else Some(TlvInfo(e.ty, e.subtype, e.flags, Data(data.value)))
  }

  lemma {:induction false} InfoIsReport(image: seq<byte>, at: nat, e: Entry, subtype: byte, opener: Opener)
    requires StandsAt(image, at, e)
    ensures InfoAt(image, at, e.ty, subtype, opener) == Report(e, at, subtype, opener)
  {
    hide LengthAt;
  }

  /** The entry that a type and subtype taken from the k-th entry lead back to. */
  function Resolve(entries: seq<Entry>, k: nat): (r: nat)
    requires k < |entries|
    ensures r < |entries| && entries[r].ty == entries[k].ty
    ensures Found(entries, entries[k].ty, entries[k].subtype) == Some(Offset(entries, r))
  {
    if entries[k].subtype == SUBTYPE_MAX then LastOfType(entries, entries[k].ty, |entries|).value
    else FirstMatch(entries, entries[k].ty, entries[k].subtype, 0)
  }

  /** Searches for a type and subtype and gives the information about what it finds. */
  method GetTlvInfo(image: seq<byte>, ty: byte, subtype: byte, crc: Crc, opener: Opener, ghost entries: seq<Entry>)
    returns (r: Option<TlvInfo>)
    requires IsImage(image, entries, crc)
    requires Found(entries, ty, subtype) == Some(Offset(entries, |entries|)) ==>
      Offset(entries, |entries|) + HEADER_SIZE <= |image|
    ensures var at := Found(entries, ty, subtype);
      if at.None? then r == None
      else
        at.value + HEADER_SIZE <= |image|
        && (ty != TLV_END ==> at.value + HEADER_SIZE + LengthAt(image, at.value) <= |image|)
        && r == InfoAt(image, at.value, ty, subtype, opener)
  {
    hide IsImage, LengthAt, Offset, TlvSize;
    var header := FindTlv(image, ty, subtype, crc, entries);
    if header.None? {
      return None;
    }
    FoundHas(image, entries, ty, subtype, crc);
    var at := header.value;
    var content: Content := EndAddress(at);
    if ty != TLV_END {
      var flags, data := image[at + 4], image[at + HEADER_SIZE..at + HEADER_SIZE + LengthAt(image, at)];
      if flags / 64 == 2 || flags / 64 == 1 {
        var plain := opener(flags, subtype, data);
        if plain.None? {
          return None;
        }
        data := plain.value;
      }
      content := Data(data);
    }
    var t := image[at + 8];
    r := Some(TlvInfo(t, if t == TLV_END then SUBTYPE_INVALID else image[at + 9], image[at + 4], content));
  }

  lemma {:induction false} FoundHas(image: seq<byte>, entries: seq<Entry>, ty: byte, subtype: byte, crc: Crc)
    requires IsImage(image, entries, crc) && Found(entries, ty, subtype).Some?
    requires Found(entries, ty, subtype) == Some(Offset(entries, |entries|)) ==>
      Offset(entries, |entries|) + HEADER_SIZE <= |image|
    ensures var at := Found(entries, ty, subtype).value;
      at + HEADER_SIZE <= |image| && (ty != TLV_END ==> at + HEADER_SIZE + LengthAt(image, at) <= |image|)
  {
    hide IsImage, LengthAt, Offset, TlvSize, MagicAt, TotalLength, Inside, Intact;
    var n := |entries|;
    if subtype == SUBTYPE_MAX && LastOfType(entries, ty, n).Some? {
      WalkAt(image, entries, LastOfType(entries, ty, n).value, crc);
    } else if subtype != SUBTYPE_MAX && FirstMatch(entries, ty, subtype, 0) < n {
      WalkAt(image, entries, FirstMatch(entries, ty, subtype, 0), crc);
    }
  }

  /**
   The information about the entry at an iterator.  Only its type and subtype
   are taken from there; what they lead to is searched from the start.
   */
  method GetTlvInfoFromIterator(image: seq<byte>, position: nat, crc: Crc, opener: Opener, ghost entries: seq<Entry>,
                                ghost k: nat)
    returns (r: Option<TlvInfo>)
    requires IsImage(image, entries, crc) && k < |entries| && position == Offset(entries, k)
    ensures var m := Resolve(entries, k);
      r == Report(entries[m], Offset(entries, m), entries[k].subtype, opener)
  {
    hide IsImage, MagicAt, LengthAt, FromLittle, TotalLength, Inside, Padding, Intact, Offset, TlvSize, Found,
      InfoAt, Report;
    ghost var m := Resolve(entries, k);
    WalkAt(image, entries, k, crc);
    WalkAt(image, entries, m, crc);
    OffsetsDiffer(entries, m, |entries|);
    InfoIsReport(image, Offset(entries, m), entries[m], entries[k].subtype, opener);
    var ok := VerifyTlvIntegrity(image, position, crc);
    if !ok {
      return None;
    }
    r := GetTlvInfo(image, image[position + 8], image[position + 9], crc, opener, entries);
  }

  /** What the device lists for the first k entries. */
  function Listed(entries: seq<Entry>, k: nat, opener: Opener): seq<TlvInfo>
    requires k <= |entries|
  {
    if k == 0 then []
    else
      var m := Resolve(entries, k - 1);
      var info := Report(entries[m], Offset(entries, m), entries[k - 1].subtype, opener);
      Listed(entries, k - 1, opener) + if info.None? then [] else [info.value]
  }

  /** Walks over all entries and lists the information about each. */
  method ListTlvEntries(image: seq<byte>, crc: Crc, opener: Opener, ghost entries: seq<Entry>)
    returns (found: seq<TlvInfo>)
    requires IsImage(image, entries, crc)
    ensures found == Listed(entries, |entries|, opener)
  {
    hide IsImage, Report, Offset, Resolve;
    found := [];
    ghost var k := 0;
    var ok, position := IterateToNextTlv(image, None, crc, entries, 0);
    while ok
      invariant k <= |entries| && found == Listed(entries, k, opener)
      invariant ok ==> k < |entries| && position == Some(Offset(entries, k))
      invariant !ok ==> k == |entries|
      decreases |entries| - k, ok
    {
      var info := GetTlvInfoFromIterator(image, position.value, crc, opener, entries, k);
      if info.Some? {
        found := found + [info.value];
      }
      k := k + 1;
      ok, position := IterateToNextTlv(image, position, crc, entries, k);
    }
  }

  // ---------- When the list is what was written ----------

  /** The information that would describe an entry as it was written. */
  function AsInfo(e: Entry): TlvInfo {
    TlvInfo(e.ty, e.subtype, e.flags, Data(e.data))
  }

  /** The k-th stop is listed as the k-th entry. */
  predicate ListedAsWritten(entries: seq<Entry>, k: nat, opener: Opener)
    requires k < |entries|
  {
    var m := Resolve(entries, k);
    Report(entries[m], Offset(entries, m), entries[k].subtype, opener) == Some(AsInfo(entries[k]))
  }

  /** The first k entries, each described as it was written. */
  function Wanted(entries: seq<Entry>, k: nat): (s: seq<TlvInfo>)
    requires k <= |entries|
    ensures |s| == k
  {
    seq(k, i requires 0 <= i < k => AsInfo(entries[i]))
  }

  /** The first k entries are listed as they were written, exactly when each of them is. */
  lemma {:induction false} ListIsEntries(entries: seq<Entry>, k: nat, opener: Opener)
    requires k <= |entries|
    ensures |Listed(entries, k, opener)| <= k
    ensures Listed(entries, k, opener) == Wanted(entries, k)
      <==> forall i :: 0 <= i < k ==> ListedAsWritten(entries, i, opener)
  {
    hide Report, Resolve, Offset, AsInfo, Wanted, ListedAsWritten, Listed;
    ListStarts(entries, opener);
    if k > 0 {
      ListIsEntries(entries, k - 1, opener);
      OneMoreListed(entries, k, opener);
    }
  }

  lemma {:induction false} ListStarts(entries: seq<Entry>, opener: Opener)
    ensures Listed(entries, 0, opener) == Wanted(entries, 0) == []
  {}

  lemma {:induction false} OneMoreListed(entries: seq<Entry>, k: nat, opener: Opener)
    requires 0 < k <= |entries| && |Listed(entries, k - 1, opener)| < k
    ensures |Listed(entries, k, opener)| <= k
    ensures Listed(entries, k, opener) == Wanted(entries, k)
      <==> Listed(entries, k - 1, opener) == Wanted(entries, k - 1) && ListedAsWritten(entries, k - 1, opener)
  {
    hide Report, Resolve, Offset, AsInfo;
    var before, after := Listed(entries, k - 1, opener), Listed(entries, k, opener);
    assert Wanted(entries, k) == Wanted(entries, k - 1) + [AsInfo(entries[k - 1])];
    if after == Wanted(entries, k) {
      assert after[..k - 1] == before && after[k - 1] == AsInfo(entries[k - 1]);
    }
  }

  /** Entries whose data are stored as they are, under a type of their own. */
  predicate Plain(entries: seq<Entry>) {
    forall k :: 0 <= k < |entries| ==> !Sealed(entries[k].flags) && entries[k].ty != TLV_END
  }

  /** Two entries of one type and one subtype, by which each is found. */
  predicate SamePair(a: Entry, b: Entry) {
    a.ty == b.ty && a.subtype == b.subtype && a.subtype != SUBTYPE_MAX
  }

  /** A search for the type and subtype 254 of the i-th entry ends at the j-th one. */
  predicate LastTaken(entries: seq<Entry>, i: nat, j: nat)
    requires i < |entries|
  {
    entries[i].subtype == SUBTYPE_MAX && LastOfType(entries, entries[i].ty, |entries|) == Some(j)
  }

  /** Two entries that cannot be told apart; those of the END type can, by the address given for them. */
  predicate Alike(a: Entry, b: Entry) {
    a == b && a.ty != TLV_END
  }

  /** Entries of the same type and subtype are alike; and one of subtype 254 and the last of its type are. */
  predicate Unambiguous(entries: seq<Entry>) {
    (forall i, j :: 0 <= i < j < |entries| && SamePair(entries[i], entries[j]) ==> Alike(entries[i], entries[j]))
    && (forall i, j :: 0 <= i < j < |entries| && LastTaken(entries, i, j) ==> Alike(entries[i], entries[j]))
  }

  /** The type and subtype of the k-th entry lead back to it, or to one like it. */
  predicate ToItself(entries: seq<Entry>, k: nat)
    requires k < |entries|
  {
    Resolve(entries, k) == k || Alike(entries[Resolve(entries, k)], entries[k])
  }

  lemma ResolvesToItself(entries: seq<Entry>)
    ensures Unambiguous(entries) <==> forall k :: 0 <= k < |entries| ==> ToItself(entries, k)
  {
    hide Unambiguous, ToItself;
    if Unambiguous(entries) {
      forall k | 0 <= k < |entries|
        ensures ToItself(entries, k)
      {
        EachToItself(entries, k);
      }
    }
    if forall k :: 0 <= k < |entries| ==> ToItself(entries, k) {
      NoneAmbiguous(entries);
    }
  }

  lemma EachToItself(entries: seq<Entry>, k: nat)
    requires Unambiguous(entries) && k < |entries|
    ensures ToItself(entries, k)
  {
    hide Resolve;
    ResolveHas(entries, k);
    assert LastTaken(entries, k, Resolve(entries, k)) || SamePair(entries[Resolve(entries, k)], entries[k]);
  }

  lemma NoneAmbiguous(entries: seq<Entry>)
    requires forall k :: 0 <= k < |entries| ==> ToItself(entries, k)
    ensures Unambiguous(entries)
  {
    hide Resolve, SamePair, LastTaken;
    forall i, j | 0 <= i < j < |entries| && SamePair(entries[i], entries[j])
      ensures Alike(entries[i], entries[j])
    {
      SamePairSameEntry(entries, i, j);
      assert ToItself(entries, i) && ToItself(entries, j);
    }
    forall i, j | 0 <= i < j < |entries| && LastTaken(entries, i, j)
      ensures Alike(entries[i], entries[j])
    {
      ResolvesToLast(entries, i, j);
      assert ToItself(entries, i);
    }
  }

  lemma ResolvesToLast(entries: seq<Entry>, i: nat, j: nat)
    requires i < |entries| && LastTaken(entries, i, j)
    ensures j < |entries| && Resolve(entries, i) == j
  {}

  lemma SamePairSameEntry(entries: seq<Entry>, i: nat, j: nat)
    requires i < j < |entries| && SamePair(entries[i], entries[j])
    ensures Resolve(entries, i) == Resolve(entries, j)
  {}

  lemma ResolveHas(entries: seq<Entry>, k: nat)
    requires k < |entries|
    ensures var r := Resolve(entries, k);
      if entries[k].subtype == SUBTYPE_MAX then k <= r && LastOfType(entries, entries[k].ty, |entries|) == Some(r)
      else r <= k && entries[r].subtype == entries[k].subtype
  {}

  /**
   For entries that are stored as they are, the list is what was written if
   and only if no type and subtype is ambiguous.
   */
  lemma {:induction false} ListIsEntriesExactly(entries: seq<Entry>, opener: Opener)
    requires Plain(entries)
    ensures Listed(entries, |entries|, opener) == Wanted(entries, |entries|) <==> Unambiguous(entries)
  {
    hide Resolve, Listed, Unambiguous, Offset;
    ListIsEntries(entries, |entries|, opener);
    ResolvesToItself(entries);
    forall k | 0 <= k < |entries|
      ensures ListedAsWritten(entries, k, opener) <==> ToItself(entries, k)
    {
    }
  }

  /** The information about the first k entries themselves. */
  function OwnList(entries: seq<Entry>, k: nat, opener: Opener): seq<TlvInfo>
    requires k <= |entries|
  {
    if k == 0 then []
    else
      var e := entries[k - 1];
      var info := Report(e, Offset(entries, k - 1), e.subtype, opener);
      OwnList(entries, k - 1, opener) + if info.None? then [] else [info.value]
  }

  /** Whatever the device makes of encrypted data and derived keys, each entry is listed for itself. */
  ghost predicate AlwaysOwn(entries: seq<Entry>) {
    forall opener: Opener :: Listed(entries, |entries|, opener) == OwnList(entries, |entries|, opener)
  }

  lemma {:induction false} OwnWhereToItself(entries: seq<Entry>, k: nat, opener: Opener)
    requires k <= |entries| && forall i :: 0 <= i < k ==> ToItself(entries, i)
    ensures Listed(entries, k, opener) == OwnList(entries, k, opener)
  {
    hide Resolve, Offset;
    if k > 0 {
      OwnWhereToItself(entries, k - 1, opener);
      assert ToItself(entries, k - 1);
    }
  }

  /** An opener that hands out data as they are stored. */
  function AsStored(): Opener {
    (_, _, data) => Some(data)
  }

  lemma ReportAsStored(a: Entry, b: Entry, p: nat, q: nat)
    requires a.ty == b.ty
    ensures Report(a, p, b.subtype, AsStored()).Some? && Report(b, q, b.subtype, AsStored()).Some?
    ensures Report(a, p, b.subtype, AsStored()) == Report(b, q, b.subtype, AsStored()) ==>
      if a.ty == TLV_END then p == q else a == b
  {}

  lemma {:induction false} ToItselfWhereOwn(entries: seq<Entry>, k: nat)
    requires k <= |entries|
    ensures |Listed(entries, k, AsStored())| == |OwnList(entries, k, AsStored())| == k
    ensures Listed(entries, k, AsStored()) == OwnList(entries, k, AsStored()) ==>
      forall i :: 0 <= i < k ==> ToItself(entries, i)
  {
    hide Resolve, Offset, Report, AsStored;
    if k > 0 {
      ToItselfWhereOwn(entries, k - 1);
      var listed, own := Listed(entries, k, AsStored()), OwnList(entries, k, AsStored());
      var m := Resolve(entries, k - 1);
      ReportAsStored(entries[m], entries[k - 1], Offset(entries, m), Offset(entries, k - 1));
      SameOffset(entries, m, k - 1);
      if listed == own {
        assert listed[..k - 1] == own[..k - 1] && listed[k - 1] == own[k - 1];
      }
    }
  }

  lemma SameOffset(entries: seq<Entry>, i: nat, j: nat)
    requires i < |entries| && j < |entries|
    ensures Offset(entries, i) == Offset(entries, j) ==> i == j
  {
    hide Offset;
    if i < j {
      OffsetsDiffer(entries, i, j);
    } else if j < i {
      OffsetsDiffer(entries, j, i);
    }
  }

  /**
   For any entries: each stop is listed with the information about its own
   entry, whatever the device makes of the data, if and only if no type and
   subtype is ambiguous.
   */
  lemma ListIsOwnExactly(entries: seq<Entry>)
    ensures AlwaysOwn(entries) <==> Unambiguous(entries)
  {
    hide Resolve, Listed, OwnList, Unambiguous, ToItself;
    ResolvesToItself(entries);
    if AlwaysOwn(entries) {
      ToItselfWhereOwn(entries, |entries|);
      assert Listed(entries, |entries|, AsStored()) == OwnList(entries, |entries|, AsStored());
    }
    if Unambiguous(entries) {
      forall opener: Opener
        ensures Listed(entries, |entries|, opener) == OwnList(entries, |entries|, opener)
      {
        OwnWhereToItself(entries, |entries|, opener);
      }
    }
  }

  /** Two entries of one type and subtype: the first is listed twice. */
  lemma {:induction false} FirstIsListedTwice(opener: Opener)
    ensures var first, second := Entry(0, 51, 0, [1]), Entry(0, 51, 0, [2]);
      Listed([first, second], 2, opener) == [AsInfo(first), AsInfo(first)]
  {
    var entries := [Entry(0, 51, 0, [1]), Entry(0, 51, 0, [2])];
    assert FirstMatch(entries, 51, 0, 0) == 0;
    assert Resolve(entries, 0) == 0 && Resolve(entries, 1) == 0;
    assert Listed(entries, 1, opener) == [AsInfo(entries[0])];
  }

  // ---------- The highest subtype ----------

  /** An entry of the type stands at the position, and none of the type has a higher subtype. */
  predicate IsHighest(entries: seq<Entry>, ty: byte, at: nat) {
    exists k :: 0 <= k < |entries| && entries[k].ty == ty && Offset(entries, k) == at
      && forall i :: 0 <= i < |entries| && entries[i].ty == ty ==> entries[i].subtype <= entries[k].subtype
  }

  /**
   A search for SUBTYPE_MAX finds an entry of the highest subtype, as its
   comment says, if and only if no entry of the type has a higher subtype than
   the last one.
   */
  lemma HighestSubtypeExactly(entries: seq<Entry>, ty: byte, last: nat)
    requires LastOfType(entries, ty, |entries|) == Some(last)
    ensures Found(entries, ty, SUBTYPE_MAX) == Some(Offset(entries, last))
    ensures IsHighest(entries, ty, Found(entries, ty, SUBTYPE_MAX).value)
      <==> forall i :: 0 <= i < last && entries[i].ty == ty ==> entries[i].subtype <= entries[last].subtype
  {
    hide Offset;
    var at := Offset(entries, last);
    if IsHighest(entries, ty, at) {
      var k :| 0 <= k < |entries| && entries[k].ty == ty && Offset(entries, k) == at
        && forall i :: 0 <= i < |entries| && entries[i].ty == ty ==> entries[i].subtype <= entries[k].subtype;
      if k < last {
        OffsetsDiffer(entries, k, last);
      }
    }
  }

  /** Subtype 1 and then subtype 0: the search for the highest finds subtype 0. */
  lemma LastIsNotHighest()
    ensures var entries := [Entry(0, 51, 1, []), Entry(0, 51, 0, [])];
      Found(entries, 51, 254) == Some(16) && entries[1].subtype == 0 && !IsHighest(entries, 51, 16)
  {
    var entries := [Entry(0, 51, 1, []), Entry(0, 51, 0, [])];
    assert LastOfType(entries, 51, 2) == Some(1);
    assert Offset(entries, 1) == 16;
    HighestSubtypeExactly(entries, 51, 1);
  }
}
