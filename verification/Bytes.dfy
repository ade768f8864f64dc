/** Bytes and big-endian numbers. */
module Bytes {
  type byte = x: int | 0 <= x < 256

  /** 256 to the power k. */
  function Base(k: nat): (b: nat)
    ensures b >= 1
  {
    if k == 0 then 1 else 256 * Base(k - 1)
  }

  /** The last k bytes of v, the most significant first. */
  function BigEndian(v: nat, k: nat): (s: seq<byte>)
    ensures |s| == k
  {
    if k == 0 then [] else BigEndian(v / 256, k - 1) + [v % 256]
  }

  function ValueOf(s: seq<byte>): (v: nat)
    decreases |s|
  {
    if s == [] then 0 else 256 * ValueOf(s[..|s| - 1]) + s[|s| - 1]
  }

  lemma OneByteValue(b: byte)
    ensures ValueOf([b]) == b
  {
    assert [b][..0] == [];
  }

  lemma {:induction false} ValueOfBigEndian(v: nat, k: nat)
    requires v < Base(k)
    ensures ValueOf(BigEndian(v, k)) == v
  {
    if k > 0 {
      ValueOfBigEndian(v / 256, k - 1);
      ValueOfSnoc(BigEndian(v / 256, k - 1), v % 256);
    }
  }

  lemma ValueOfSnoc(s: seq<byte>, b: byte)
    ensures ValueOf(s + [b]) == 256 * ValueOf(s) + b
  {
    assert (s + [b])[..|s|] == s;
  }

  lemma {:induction false} BigEndianOfValue(s: seq<byte>)
    ensures ValueOf(s) < Base(|s|) && BigEndian(ValueOf(s), |s|) == s
    decreases |s|
  {
    if s != [] {
      var n := |s| - 1;
      BigEndianOfValue(s[..n]);
      assert ValueOf(s) / 256 == ValueOf(s[..n]) && ValueOf(s) % 256 == s[n];
    }
  }

  lemma Bases()
    ensures Base(1) == 0x100 && Base(2) == 0x1_0000 && Base(4) == 0x1_0000_0000 && Base(8) == 0x1_0000_0000_0000_0000
  {
    assert Base(2) == 256 * Base(1);
    assert Base(3) == 256 * Base(2);
    assert Base(4) == 256 * Base(3);
    assert Base(5) == 256 * Base(4);
    assert Base(6) == 256 * Base(5);
    assert Base(7) == 256 * Base(6);
  }

  /** The last k bytes of v, the least significant first. */
  function LittleEndian(v: nat, k: nat): (s: seq<byte>)
    ensures |s| == k
  {
    if k == 0 then [] else [v % 256] + LittleEndian(v / 256, k - 1)
  }

  function FromLittle(s: seq<byte>): nat {
    if s == [] then 0 else 256 * FromLittle(s[1..]) + s[0]
  }

  lemma {:induction false} FromLittleEndian(v: nat, k: nat)
    requires v < Base(k)
    ensures FromLittle(LittleEndian(v, k)) == v
  {
    if k > 0 {
      assert LittleEndian(v, k)[1..] == LittleEndian(v / 256, k - 1);
      FromLittleEndian(v / 256, k - 1);
    }
  }
}
