/** Key derivation as in section 5.2 of RFC 8018, over an HMAC that is a parameter and may fail. */
module Pbkdf2 {
  import opened Bytes
  import opened Wrappers

  const MD_SIZE: nat := 32
  const MAX_BLOCKS: nat := 0xFFFF_FFFF

  type Block = s: seq<byte> | |s| == 32 witness seq(32, _ => 0)

  type Hmac = seq<byte> -> Option<Block>

  /** The exclusive or of the n lowest bits. */
  function XorBits(a: nat, b: nat, n: nat): nat {
    if n == 0 then 0 else 2 * XorBits(a / 2, b / 2, n - 1) + if a % 2 != b % 2 then 1 else 0
  }

  function XorByte(a: byte, b: byte): byte {
    XorIsByte(a, b);
    XorBits(a, b, 8)
  }

  lemma {:induction false} XorIsSmall(a: nat, b: nat, n: nat)
    ensures XorBits(a, b, n) < Power(n)
  {
    if n > 0 {
      XorIsSmall(a / 2, b / 2, n - 1);
    }
  }

  function Power(n: nat): nat {
    if n == 0 then 1 else 2 * Power(n - 1)
  }

  lemma XorIsByte(a: nat, b: nat)
    ensures XorBits(a, b, 8) < 256
  {
    assert Power(4) == 16;
    XorIsSmall(a, b, 8);
  }

  function XorBlock(a: Block, b: Block): Block {
    seq(32, j requires 0 <= j < 32 => XorByte(a[j], b[j]))
  }

  // ---------- The function of the standard ----------

  /** U_j for block i: the HMAC of the salt and the block number, then of the U before. */
  function U(hmac: Hmac, salt: seq<byte>, i: nat, j: nat): Option<Block>
    requires j >= 1
  {
    if j == 1 then hmac(salt + BigEndian(i, 4))
    else
      var before := U(hmac, salt, i, j - 1);
      if before.None? then None else hmac(before.value)
  }

  /** U_1 xor ... xor U_c. */
  function F(hmac: Hmac, salt: seq<byte>, c: nat, i: nat): Option<Block>
    requires c >= 1
  {
    if c == 1 then U(hmac, salt, i, 1)
    else
      var (before, u) := (F(hmac, salt, c - 1, i), U(hmac, salt, i, c));
      if before.None? || u.None? then None else Some(XorBlock(before.value, u.value))
  }

  /** T_1 to T_n, one after the other. */
  function Blocks(hmac: Hmac, salt: seq<byte>, c: nat, n: nat): (r: Option<seq<byte>>)
    requires c >= 1
    ensures r.Some? ==> |r.value| == 32 * n
  {
    if n == 0 then Some([])
    else
      var (before, t) := (Blocks(hmac, salt, c, n - 1), F(hmac, salt, c, n));
      if before.None? || t.None? then None else Some(before.value + t.value)
  }

  /** The derived key of length len: the last block is cut off. */
  function DerivedKey(hmac: Hmac, salt: seq<byte>, c: nat, len: nat): (r: Option<seq<byte>>)
    requires c >= 1
    ensures r.Some? ==> |r.value| == len
  {
    var blocks := Blocks(hmac, salt, c, (len + 31) / 32);
    if blocks.None? then None else Some(blocks.value[..len])
  }

  // ---------- The same bit by bit ----------

  predicate BitAt(x: nat, k: nat) {
    if k == 0 then x % 2 == 1 else BitAt(x / 2, k - 1)
  }

  /** Exclusive or: a bit is set where exactly one of the two is. */
  lemma {:induction false} XorBitAt(a: nat, b: nat, n: nat, k: nat)
    requires k < n
    ensures BitAt(XorBits(a, b, n), k) == (BitAt(a, k) != BitAt(b, k))
  {
    if k > 0 {
      XorBitAt(a / 2, b / 2, n - 1, k - 1);
    }
  }

  /** Whether an odd number of the first n blocks have the bit set. */
  predicate OddlySet(w: seq<Block>, n: nat, j: nat, k: nat)
    requires n <= |w| && j < 32
  {
    n > 0 && OddlySet(w, n - 1, j, k) != BitAt(w[n - 1][j], k)
  }

  /** The chain of HMACs for block i. */
  predicate IsChain(hmac: Hmac, salt: seq<byte>, i: nat, w: seq<Block>) {
    w != []
    && hmac(salt + [i / 0x100_0000 % 256, i / 0x1_0000 % 256, i / 0x100 % 256, i % 256]) == Some(w[0])
    && forall n :: 1 <= n < |w| ==> hmac(w[n - 1]) == Some(w[n])
  }

  lemma BlockNumber(i: nat)
    ensures BigEndian(i, 4) == [i / 0x100_0000 % 256, i / 0x1_0000 % 256, i / 0x100 % 256, i % 256]
  {
    assert BigEndian(i / 0x100_0000, 1) == [i / 0x100_0000 % 256];
    assert i / 0x1_0000 / 256 == i / 0x100_0000 && i / 0x100 / 256 == i / 0x1_0000;
    assert BigEndian(i / 0x1_0000, 2) == [i / 0x100_0000 % 256, i / 0x1_0000 % 256];
    assert BigEndian(i / 0x100, 3) == [i / 0x100_0000 % 256, i / 0x1_0000 % 256, i / 0x100 % 256];
  }

  lemma {:induction false} ChainIsU(hmac: Hmac, salt: seq<byte>, i: nat, w: seq<Block>, n: nat)
    requires IsChain(hmac, salt, i, w) && 1 <= n <= |w|
    ensures U(hmac, salt, i, n) == Some(w[n - 1])
  {
    hide BigEndian;
    BlockNumber(i);
    if n > 1 {
      ChainIsU(hmac, salt, i, w, n - 1);
    }
  }

  /** A bit of the block is set where it is set in an odd number of the HMACs of its chain. */
  lemma {:induction false} BlockIsParity(hmac: Hmac, salt: seq<byte>, i: nat, w: seq<Block>, n: nat, j: nat, k: nat)
    requires IsChain(hmac, salt, i, w) && 1 <= n <= |w| && j < 32 && k < 8
    ensures F(hmac, salt, n, i).Some? && BitAt(F(hmac, salt, n, i).value[j], k) == OddlySet(w, n, j, k)
  {
    hide U, IsChain, BitAt, XorBits;
    ChainIsU(hmac, salt, i, w, n);
    if n > 1 {
      BlockIsParity(hmac, salt, i, w, n - 1, j, k);
      XorBitAt(F(hmac, salt, n - 1, i).value[j], w[n - 1][j], 8, k);
    }
  }

  lemma {:induction false} BlocksAt(hmac: Hmac, salt: seq<byte>, c: nat, n: nat, p: nat)
    requires c >= 1 && Blocks(hmac, salt, c, n).Some? && p < 32 * n
    ensures F(hmac, salt, c, p / 32 + 1).Some?
    ensures Blocks(hmac, salt, c, n).value[p] == F(hmac, salt, c, p / 32 + 1).value[p % 32]
  {
    hide F;
    if p < 32 * (n - 1) {
      BlocksAt(hmac, salt, c, n - 1, p);
    }
  }

  /**
   Every bit of the derived key: bit k of byte p is set where that bit of byte
   p % 32 is set in an odd number of the first c HMACs for block p / 32 + 1.
   */
  lemma {:induction false} KeyBit(hmac: Hmac, salt: seq<byte>, c: nat, len: nat, w: seq<Block>, p: nat, k: nat)
    requires c >= 1 && DerivedKey(hmac, salt, c, len).Some? && p < len && k < 8
    requires IsChain(hmac, salt, p / 32 + 1, w) && |w| == c
    ensures BitAt(DerivedKey(hmac, salt, c, len).value[p], k) == OddlySet(w, c, p % 32, k)
  {
    hide F, Blocks, IsChain, BitAt;
    BlocksAt(hmac, salt, c, (len + 31) / 32, p);
    BlockIsParity(hmac, salt, p / 32 + 1, w, c, p % 32, k);
  }

  /** A block that cannot be computed fails all that follow. */
  lemma {:induction false} BlocksStayFailed(hmac: Hmac, salt: seq<byte>, c: nat, n: nat, m: nat)
    requires c >= 1 && n <= m && Blocks(hmac, salt, c, n).None?
    ensures Blocks(hmac, salt, c, m).None?
  {
    if n < m {
      BlocksStayFailed(hmac, salt, c, n, m - 1);
    }
  }

  lemma {:induction false} ChainStaysFailed(hmac: Hmac, salt: seq<byte>, i: nat, j: nat, c: nat)
    requires 1 <= j <= c && (U(hmac, salt, i, j).None? || F(hmac, salt, j, i).None?)
    ensures F(hmac, salt, c, i).None?
    decreases c
  {
    if j < c {
      ChainStaysFailed(hmac, salt, i, j, c - 1);
    }
  }

  // ---------- The counter ----------

  lemma CarryStep(w: nat, k: nat)
    requires k > 0
    ensures BigEndian(w, k) == BigEndian(w / 256, k - 1) + [w % 256]
    ensures w % 256 == 255 ==> BigEndian(w + 1, k) == BigEndian(w / 256 + 1, k - 1) + [0]
    ensures w % 256 < 255 ==> BigEndian(w + 1, k) == BigEndian(w / 256, k - 1) + [w % 256 + 1]
  {}

  /** The bytes before i are those of w, and adding one to w there makes v + 1 of the counter s. */
  predicate Carrying(s: seq<byte>, v: nat, i: nat, w: nat) {
    |s| == 4 && i <= 4 && s[..i] == BigEndian(w, i) && BigEndian(v + 1, 4) == BigEndian(w + 1, i) + s[i..]
  }

  lemma CarryOnce(s: seq<byte>, v: nat, i: nat, w: nat)
    requires i > 0 && Carrying(s, v, i, w)
    ensures s[i - 1] == 255 ==> Carrying(s[i - 1 := 0], v, i - 1, w / 256)
    ensures s[i - 1] < 255 ==> s[i - 1 := s[i - 1] + 1] == BigEndian(v + 1, 4)
  {
    hide BigEndian;
    CarryStep(w, i);
    assert s[i - 1] == s[..i][i - 1] && s[..i - 1] == s[..i][..i - 1];
  }

  /** Adds one to a big-endian counter, carrying from the last byte to the first. */
  method Increment(counter: array<byte>, ghost v: nat)
    requires counter.Length == 4 && counter[..] == BigEndian(v, 4)
    modifies counter
    ensures counter[..] == BigEndian(v + 1, 4)
  {
    hide BigEndian, Carrying;
    CarryingStarts(counter[..], v);
    var i := 4;
    ghost var w := v;
    while i > 0
      invariant 0 <= i <= 4 && Carrying(counter[..], v, i, w)
    {
      CarryOnce(counter[..], v, i, w);
      var next: nat := counter[i - 1];
      counter[i - 1] := (next + 1) % 256;
      if counter[i - 1] != 0 {
        return;
      }
      w := w / 256;
      i := i - 1;
    }
    CarryingEnds(counter[..], v, w);
  }

  lemma CarryingStarts(s: seq<byte>, v: nat)
    requires s == BigEndian(v, 4)
    ensures Carrying(s, v, 4, v)
  {}

  lemma CarryingEnds(s: seq<byte>, v: nat, w: nat)
    requires Carrying(s, v, 0, w)
    ensures s == BigEndian(v + 1, 4)
  {
    NoBytes(w + 1);
    assert [] + s[0..] == s;
  }

  lemma NoBytes(v: nat)
    ensures BigEndian(v, 0) == []
  {}

  // ---------- The loops ----------

  method XorInto(work: array<byte>, md1: array<byte>)
    requires work.Length == 32 && md1.Length == 32 && work != md1
    modifies work
    ensures work[..] == XorBlock(old(work[..]), md1[..])
  {
    hide XorByte;
    var j := 0;
    while j < MD_SIZE
      invariant 0 <= j <= 32
      invariant forall k :: 0 <= k < j ==> work[k] == XorByte(old(work[k]), md1[k])
      invariant forall k :: j <= k < 32 ==> work[k] == old(work[k])
    {
      work[j] := XorByte(work[j], md1[j]);
      j := j + 1;
    }
  }

  method SetBlock(a: array<byte>, s: Block)
    requires a.Length == 32
    modifies a
    ensures a[..] == s
  {
    forall k | 0 <= k < 32 {
      a[k] := s[k];
    }
  }

  /** Copies the first bytes of a block to the output. */
  method CopyOut(output: array<byte>, at: nat, work: array<byte>, n: nat)
    requires n <= work.Length && at + n <= output.Length && work != output
    modifies output
    ensures output[..at + n] == old(output[..at]) + work[..n] && output[at + n..] == old(output[at + n..])
  {
    forall k | 0 <= k < n {
      output[at + k] := work[k];
    }
  }

  /** One block: work ends up with U_1 xor ... xor U_c, md1 with U_c. */
  method DeriveBlock(hmac: Hmac, salt: seq<byte>, counter: array<byte>, iterationCount: nat, work: array<byte>,
                     md1: array<byte>, ghost i: nat)
    returns (ok: bool)
    requires counter.Length == 4 && counter[..] == BigEndian(i, 4)
    requires work.Length == 32 && md1.Length == 32 && work != md1 && work != counter && md1 != counter
    modifies work, md1
    ensures var c := if iterationCount == 0 then 1 else iterationCount;
      ok == F(hmac, salt, c, i).Some? && (ok ==> work[..] == F(hmac, salt, c, i).value)
  {
    hide XorBlock, BigEndian;
    ghost var c := if iterationCount == 0 then 1 else iterationCount;
    var u := hmac(salt + counter[..]);
    if u.None? {
      ChainStaysFailed(hmac, salt, i, 1, c);
      return false;
    }
    SetBlock(work, u.value);
    SetBlock(md1, work[..]);
    var k := 1;
    while k < iterationCount
      invariant 1 <= k <= c
      invariant U(hmac, salt, i, k) == Some(md1[..]) && F(hmac, salt, k, i) == Some(work[..])
    {
      u := hmac(md1[..]);
      if u.None? {
        ChainStaysFailed(hmac, salt, i, k + 1, c);
        return false;
      }
      SetBlock(md1, u.value);
      XorInto(work, md1);
      k := k + 1;
    }
    ok := true;
  }

  /** Derives a key of the given length into the output; fails when the HMAC does. */
  method Pbkdf2HmacSha256(hmac: Hmac, salt: seq<byte>, iterationCount: nat, keyLength: nat, output: array<byte>)
    returns (ret: int)
    requires keyLength <= output.Length && keyLength <= MAX_BLOCKS * MD_SIZE
    modifies output
    ensures var key := DerivedKey(hmac, salt, if iterationCount == 0 then 1 else iterationCount, keyLength);
      (ret == 0 <==> key.Some?) && (ret == 0 ==> output[..keyLength] == key.value) && (ret != 0 ==> ret == -1)
    ensures output[keyLength..] == old(output[..])[keyLength..]
  {
    hide BigEndian, F, Blocks, Copied;
    ghost var c := if iterationCount == 0 then 1 else iterationCount;
    ghost var total := (keyLength + 31) / 32;
    var work, md1 := new byte[32](_ => 0), new byte[32](_ => 0);
    var counter := new byte[4](_ => 0);
    counter[3] := 1;
    FirstCounter(counter[..]);
    var left, outP := keyLength, 0;
    ghost var n := 0;
    NoneCopied(hmac, salt, c);
    while left > 0
      invariant outP + left == keyLength && n <= total && outP == (if left > 0 then 32 * n else keyLength)
      invariant left == 0 ==> n == total
      invariant counter[..] == BigEndian(n + 1, 4)
      invariant Copied(hmac, salt, c, n, output[..outP])
      invariant output[keyLength..] == old(output[..])[keyLength..]
      invariant fresh(work) && fresh(md1) && fresh(counter) && work != md1 && work != counter && md1 != counter
      invariant work.Length == 32 && md1.Length == 32 && counter.Length == 4
    {
      CopyMore(hmac, salt, c, n, output[..outP]);
      var ok := DeriveBlock(hmac, salt, counter, iterationCount, work, md1, n + 1);
      if !ok {
        BlocksStayFailed(hmac, salt, c, n + 1, total);
        return -1;
      }
      var useLen := if left < MD_SIZE then left else MD_SIZE;
      CopyOut(output, outP, work, useLen);
      left := left - useLen;
      outP := outP + useLen;
      Increment(counter, n + 1);
      n := n + 1;
    }
    CopiedIsKey(hmac, salt, c, total, output[..keyLength]);
    ret := 0;
  }

  lemma FirstCounter(s: seq<byte>)
    ensures s == [0, 0, 0, 1] ==> s == BigEndian(1, 4)
  {
    assert BigEndian(0, 1) == [0];
    assert BigEndian(0, 2) == [0, 0];
    assert BigEndian(0, 3) == [0, 0, 0];
  }

  /** The bytes are the first ones of the first n blocks. */
  ghost predicate Copied(hmac: Hmac, salt: seq<byte>, c: nat, n: nat, out: seq<byte>)
    requires c >= 1
  {
    Blocks(hmac, salt, c, n).Some? && out <= Blocks(hmac, salt, c, n).value
  }

  lemma {:induction false} NoneCopied(hmac: Hmac, salt: seq<byte>, c: nat)
    requires c >= 1
    ensures Copied(hmac, salt, c, 0, [])
  {}

  /** Behind n whole blocks go the first bytes of the next one, if there is one. */
  lemma {:induction false} CopyMore(hmac: Hmac, salt: seq<byte>, c: nat, n: nat, out: seq<byte>)
    requires c >= 1 && Copied(hmac, salt, c, n, out) && |out| == 32 * n
    ensures var t := F(hmac, salt, c, n + 1);
      if t.None? then Blocks(hmac, salt, c, n + 1).None?
      else forall len: nat :: len <= 32 ==> Copied(hmac, salt, c, n + 1, out + t.value[..len])
  {
    hide F;
  }

  lemma {:induction false} CopiedIsKey(hmac: Hmac, salt: seq<byte>, c: nat, n: nat, out: seq<byte>)
    requires c >= 1 && Copied(hmac, salt, c, n, out)
    ensures Blocks(hmac, salt, c, n).Some? && |out| <= 32 * n && out == Blocks(hmac, salt, c, n).value[..|out|]
  {
    hide Blocks;
  }
}
