/**
 Byte strings as Base64 and Base16 text (RFC 4648), expanded in place: the
 bytes start at the tail of the buffer and the text grows over them.
 */
module BaseEncoding {
  import opened Bytes
  import opened GridIndexing

  // ---------- The encodings ----------

  /** The symbol for a value below 64, in the alphabet of section 4 or, with url, of section 5. */
  function Symbol(v: nat, url: bool): (c: byte)
    requires v < 64
  {
    if v < 26 then 65 + v
    else if v < 52 then 97 + v - 26
    else if v < 62 then 48 + v - 52
    else if v == 62 then if url then 45 else 43
    else if url then 95 else 47
  }

  /** The 64 symbols and the filler: '=', or NUL where padding is left out. */
  function Alphabet(url: bool): (a: seq<byte>)
    ensures |a| == 65 && forall v :: 0 <= v < 64 ==> a[v] == Symbol(v, url)
  {
    seq(64, v requires 0 <= v < 64 => Symbol(v, url)) + [if url then 0 else 61]
  }

  /** Three bytes as four symbols. */
  function Quad(a: byte, b: byte, c: byte, url: bool): (q: seq<byte>)
    ensures |q| == 4
  {
    [Symbol(a / 4, url), Symbol(a % 4 * 16 + b / 16, url), Symbol(b % 16 * 4 + c / 64, url), Symbol(c % 64, url)]
  }

  /** The symbols of whole groups of three bytes. */
  function Groups(data: seq<byte>, url: bool): (s: seq<byte>)
    requires |data| % 3 == 0
    ensures |s| == |data| / 3 * 4
  {
    if data == [] then []
    else
      var n := |data| - 3;
      Groups(data[..n], url) + Quad(data[n], data[n + 1], data[n + 2], url)
  }

  /** One or two bytes at the end, padded unless url. */
  function Tail(data: seq<byte>, url: bool): seq<byte>
    requires |data| < 3
  {
    if data == [] then []
    else
      var second := if |data| == 2 then data[1] else 0;
      var q := Quad(data[0], second, 0, url)[..|data| + 1];
      if url then q else q + if |data| == 2 then [61] else [61, 61]
  }

  function Base64(data: seq<byte>, url: bool): seq<byte> {
    var n := |data| / 3 * 3;
    Groups(data[..n], url) + Tail(data[n..], url)
  }

  function HexDigit(v: nat): byte
    requires v < 16
  {
    if v < 10 then 48 + v else 97 + v - 10
  }

  function Base16(data: seq<byte>): (s: seq<byte>)
    ensures |s| == 2 * |data|
  {
    if data == [] then []
    else
      var n := |data| - 1;
      Base16(data[..n]) + [HexDigit(data[n] / 16), HexDigit(data[n] % 16)]
  }

  /** The characters of a buffer up to the first NUL. */
  function CString(s: seq<byte>): seq<byte> {
    if s == [] || s[0] == 0 then [] else [s[0]] + CString(s[1..])
  }

  lemma {:induction false} CStringIs(s: seq<byte>, t: seq<byte>)
    requires |t| < |s| && s[..|t|] == t && s[|t|] == 0 && forall k :: 0 <= k < |t| ==> t[k] != 0
    ensures CString(s) == t
    decreases |t|
  {
    if t != [] {
      assert s[1..][..|t| - 1] == t[1..];
      CStringIs(s[1..], t[1..]);
      assert t == [t[0]] + t[1..];
    }
  }

  // ---------- The alphabets, and the examples of section 10 of RFC 4648 ----------

  /** The symbols are A to Z, a to z, 0 to 9, and two that depend on the alphabet. */
  lemma AlphabetIs(v: nat, url: bool)
    requires v < 64
    ensures Symbol(0, url) == 'A' as int && Symbol(26, url) == 'a' as int && Symbol(52, url) == '0' as int
    ensures v < 61 && v != 25 && v != 51 ==> Symbol(v + 1, url) == Symbol(v, url) + 1
    ensures Symbol(62, false) == '+' as int && Symbol(63, false) == '/' as int
    ensures Symbol(62, true) == '-' as int && Symbol(63, true) == '_' as int
  {}

  /** A letter, a digit, or one of the other characters of the alphabet. */
  predicate InAlphabet(c: byte, url: bool) {
    'A' as int <= c <= 'Z' as int || 'a' as int <= c <= 'z' as int || '0' as int <= c <= '9' as int
    || (if url then c == '-' as int || c == '_' as int
        else c == '+' as int || c == '/' as int || c == '=' as int)
  }

  lemma SymbolInAlphabet(v: nat, url: bool)
    requires v < 64
    ensures InAlphabet(Symbol(v, url), url)
  {}

  lemma QuadInAlphabet(a: byte, b: byte, c: byte, url: bool)
    ensures forall k :: 0 <= k < 4 ==> InAlphabet(Quad(a, b, c, url)[k], url)
  {
    hide Symbol, InAlphabet;
    SymbolInAlphabet(a / 4, url);
    SymbolInAlphabet(a % 4 * 16 + b / 16, url);
    SymbolInAlphabet(b % 16 * 4 + c / 64, url);
    SymbolInAlphabet(c % 64, url);
  }

  lemma {:induction false} GroupsInAlphabet(data: seq<byte>, url: bool)
    requires |data| % 3 == 0
    ensures forall k :: 0 <= k < |Groups(data, url)| ==> InAlphabet(Groups(data, url)[k], url)
    decreases |data|
  {
    hide Quad, InAlphabet;
    if data != [] {
      var n := |data| - 3;
      GroupsInAlphabet(data[..n], url);
      QuadInAlphabet(data[n], data[n + 1], data[n + 2], url);
    }
  }

  lemma TailInAlphabet(data: seq<byte>, url: bool)
    requires |data| < 3
    ensures forall k :: 0 <= k < |Tail(data, url)| ==> InAlphabet(Tail(data, url)[k], url)
  {
    hide Quad;
    if data != [] {
      QuadInAlphabet(data[0], if |data| == 2 then data[1] else 0, 0, url);
    }
  }

  /** No text of one alphabet has a character of the other, and none without padding has '='. */
  lemma TextInAlphabet(data: seq<byte>, url: bool)
    ensures forall k :: 0 <= k < |Base64(data, url)| ==> InAlphabet(Base64(data, url)[k], url)
  {
    hide Groups, Tail, InAlphabet;
    var n := |data| / 3 * 3;
    GroupsInAlphabet(data[..n], url);
    TailInAlphabet(data[n..], url);
  }

  lemma HexDigitIs(v: nat)
    requires v < 16
    ensures HexDigit(v) == "0123456789abcdef"[v] as int
  {}

  lemma ShortExamples()
    ensures Base64([], false) == []
    ensures Base64([0x66], false) == [0x5a, 0x67, 0x3d, 0x3d]
    ensures Base64([0x66, 0x6f], false) == [0x5a, 0x6d, 0x38, 0x3d]
    ensures Base64([0x66, 0x6f, 0x6f], false) == [0x5a, 0x6d, 0x39, 0x76]
    ensures Base64([0x66], true) == [0x5a, 0x67] && Base64([0x66, 0x6f], true) == [0x5a, 0x6d, 0x38]
  {}

  lemma {:induction false} FirstGroup(a: byte, b: byte, c: byte, data: seq<byte>, url: bool)
    requires |data| % 3 == 0
    ensures Groups([a, b, c] + data, url) == Quad(a, b, c, url) + Groups(data, url)
    decreases |data|
  {
    hide Quad;
    var all := [a, b, c] + data;
    if data == [] {
      assert all == [a, b, c] && all[..0] == [];
    } else {
      var n := |data| - 3;
      FirstGroup(a, b, c, data[..n], url);
      assert all[..n + 3] == [a, b, c] + data[..n];
      assert all[n + 3] == data[n] && all[n + 4] == data[n + 1] && all[n + 5] == data[n + 2];
    }
  }

  /** The text of the first three bytes stands in front of that of the others. */
  lemma FirstThree(a: byte, b: byte, c: byte, data: seq<byte>, url: bool)
    ensures Base64([a, b, c] + data, url) == Quad(a, b, c, url) + Base64(data, url)
  {
    hide Quad, Groups, Tail;
    var n := |data| / 3 * 3;
    var all := [a, b, c] + data;
    assert all[..n + 3] == [a, b, c] + data[..n] && all[n + 3..] == data[n..];
    FirstGroup(a, b, c, data[..n], url);
  }

  lemma LongExamples()
    ensures Base64([0x66, 0x6f, 0x6f, 0x62], false) == [0x5a, 0x6d, 0x39, 0x76, 0x59, 0x67, 0x3d, 0x3d]
    ensures Base64([0x66, 0x6f, 0x6f, 0x62, 0x61], false) == [0x5a, 0x6d, 0x39, 0x76, 0x59, 0x6d, 0x45, 0x3d]
    ensures Base64([0x66, 0x6f, 0x6f, 0x62, 0x61, 0x72], false) == [0x5a, 0x6d, 0x39, 0x76, 0x59, 0x6d, 0x46, 0x79]
  {
    hide Base64;
    ShortExamples();
    OneByte();
    TwoBytes();
    ThreeBytes();
    FirstThree(0x66, 0x6f, 0x6f, [0x62], false);
    FirstThree(0x66, 0x6f, 0x6f, [0x62, 0x61], false);
    FirstThree(0x66, 0x6f, 0x6f, [0x62, 0x61, 0x72], false);
    assert [0x66, 0x6f, 0x6f] + [0x62] == [0x66, 0x6f, 0x6f, 0x62];
    assert [0x66, 0x6f, 0x6f] + [0x62, 0x61] == [0x66, 0x6f, 0x6f, 0x62, 0x61];
    assert [0x66, 0x6f, 0x6f] + [0x62, 0x61, 0x72] == [0x66, 0x6f, 0x6f, 0x62, 0x61, 0x72];
  }

  lemma OneByte()
    ensures Base64([0x62], false) == [0x59, 0x67, 0x3d, 0x3d]
  {}

  lemma TwoBytes()
    ensures Base64([0x62, 0x61], false) == [0x59, 0x6d, 0x45, 0x3d]
  {}

  lemma ThreeBytes()
    ensures Base64([0x62, 0x61, 0x72], false) == [0x59, 0x6d, 0x46, 0x79]
  {}

  lemma HexExample()
    ensures Base16([0x66, 0x6f, 0xfb]) == [0x36, 0x36, 0x36, 0x66, 0x66, 0x62]
  {}

  // ---------- Decoding gives the bytes back ----------

  function SymbolValue(c: byte): (v: nat)
    ensures v < 64
  {
    if 65 <= c <= 90 then c - 65
    else if 97 <= c <= 122 then c - 97 + 26
    else if 48 <= c <= 57 then c - 48 + 52
    else if c == 43 || c == 45 then 62
    else 63
  }

  lemma SymbolReadsBack(v: nat, url: bool)
    requires v < 64
    ensures SymbolValue(Symbol(v, url)) == v && Symbol(v, url) != 0 && Symbol(v, url) != 61
  {}

  /** Bytes from symbols; padding ends the text. */
  function Decode64(s: seq<byte>): seq<byte> {
    if |s| < 2 || s[0] == 61 || s[1] == 61 then []
    else
      var a, b := SymbolValue(s[0]), SymbolValue(s[1]);
      if |s| < 3 || s[2] == 61 then [a * 4 + b / 16]
      else
        var c := SymbolValue(s[2]);
        if |s| < 4 || s[3] == 61 then [a * 4 + b / 16, b % 16 * 16 + c / 4]
        else [a * 4 + b / 16, b % 16 * 16 + c / 4, c % 4 * 64 + SymbolValue(s[3])] + Decode64(s[4..])
  }

  lemma QuadDecodes(a: byte, b: byte, c: byte, url: bool, rest: seq<byte>)
    ensures Decode64(Quad(a, b, c, url) + rest) == [a, b, c] + Decode64(rest)
  {
    hide Symbol, SymbolValue;
    SymbolReadsBack(a / 4, url);
    SymbolReadsBack(a % 4 * 16 + b / 16, url);
    SymbolReadsBack(b % 16 * 4 + c / 64, url);
    SymbolReadsBack(c % 64, url);
    assert (Quad(a, b, c, url) + rest)[4..] == rest;
  }

  lemma {:induction false} GroupsDecode(data: seq<byte>, url: bool, rest: seq<byte>)
    requires |data| % 3 == 0
    ensures Decode64(Groups(data, url) + rest) == data + Decode64(rest)
    decreases |data|
  {
    hide Quad, Decode64;
    if data == [] {
      assert Groups(data, url) + rest == rest;
    } else {
      var n := |data| - 3;
      var q := Quad(data[n], data[n + 1], data[n + 2], url);
      assert Groups(data, url) + rest == Groups(data[..n], url) + (q + rest);
      GroupsDecode(data[..n], url, q + rest);
      QuadDecodes(data[n], data[n + 1], data[n + 2], url, rest);
      assert data == data[..n] + [data[n], data[n + 1], data[n + 2]];
    }
  }

  lemma TailDecodes(data: seq<byte>, url: bool)
    requires |data| < 3
    ensures Decode64(Tail(data, url)) == data
  {
    hide Quad, Decode64, SymbolValue;
    if |data| == 1 {
      OneByteDecodes(data, url);
    } else if |data| == 2 {
      TwoBytesDecode(data, url);
    } else {
      NothingDecodes();
    }
  }

  lemma NothingDecodes()
    ensures Decode64([]) == []
  {}

  lemma OneByteDecodes(data: seq<byte>, url: bool)
    requires |data| == 1
    ensures Decode64(Tail(data, url)) == data
  {
    hide Symbol, SymbolValue;
    SymbolReadsBack(data[0] / 4, url);
    SymbolReadsBack(data[0] % 4 * 16, url);
  }

  lemma TwoBytesDecode(data: seq<byte>, url: bool)
    requires |data| == 2
    ensures Decode64(Tail(data, url)) == data
  {
    hide Symbol, SymbolValue;
    SymbolReadsBack(data[0] / 4, url);
    SymbolReadsBack(data[0] % 4 * 16 + data[1] / 16, url);
    SymbolReadsBack(data[1] % 16 * 4, url);
  }

  /** Decoding the text gives the bytes back, padded or not. */
  lemma Base64ReadsBack(data: seq<byte>, url: bool)
    ensures Decode64(Base64(data, url)) == data
  {
    hide Groups, Tail, Decode64;
    var n := |data| / 3 * 3;
    GroupsDecode(data[..n], url, Tail(data[n..], url));
    TailDecodes(data[n..], url);
  }

  lemma {:induction false} Base64HasNoNul(data: seq<byte>, url: bool)
    ensures forall k :: 0 <= k < |Base64(data, url)| ==> Base64(data, url)[k] != 0
  {
    hide Groups, Tail;
    var n := |data| / 3 * 3;
    GroupsHaveNoNul(data[..n], url);
    TailHasNoNul(data[n..], url);
  }

  lemma TailHasNoNul(data: seq<byte>, url: bool)
    requires |data| < 3
    ensures forall k :: 0 <= k < |Tail(data, url)| ==> Tail(data, url)[k] != 0
  {}

  lemma {:induction false} GroupsHaveNoNul(data: seq<byte>, url: bool)
    requires |data| % 3 == 0
    ensures forall k :: 0 <= k < |Groups(data, url)| ==> Groups(data, url)[k] != 0
    decreases |data|
  {
    if data != [] {
      GroupsHaveNoNul(data[..|data| - 3], url);
    }
  }

  function HexValue(c: byte): nat {
    if c <= 57 then if c >= 48 then c - 48 else 0 else if c >= 97 then c - 97 + 10 else 0
  }

  /** Each byte is where its two digits are. */
  lemma {:induction false} Base16ReadsBack(data: seq<byte>, k: nat)
    requires k < |data|
    ensures 16 * HexValue(Base16(data)[2 * k]) + HexValue(Base16(data)[2 * k + 1]) == data[k]
    ensures Base16(data)[2 * k] != 0 && Base16(data)[2 * k + 1] != 0
    decreases |data|
  {
    var n := |data| - 1;
    if k < n {
      Base16ReadsBack(data[..n], k);
    }
  }

  // ---------- In place ----------

  /** The bytes of a string and a NUL behind them. */
  method CopyByteString(data: seq<byte>, buffer: array<byte>, at: nat)
    requires at + |data| + 1 <= buffer.Length
    modifies buffer
    ensures buffer[..] == old(buffer[..at]) + data + [0] + old(buffer[at + |data| + 1..])
  {
    var n := |data|;
    forall i | 0 <= i < n {
      buffer[at + i] := data[i];
    }
    buffer[at + n] := 0;
  }

  /** The first i bytes are text; the others stand unread at the tail, before the NUL. */
  predicate Expanding16(s: seq<byte>, data: seq<byte>, i: nat)
    requires i <= |data|
  {
    |s| == 2 * |data| + 1 && s[..2 * i] == Base16(data[..i]) && s[|data| + i..] == data[i..] + [0]
  }

  lemma Expand16Step(s: seq<byte>, data: seq<byte>, i: nat)
    requires i < |data| && Expanding16(s, data, i)
    ensures s[|data| + i] == data[i]
    ensures Expanding16(s[2 * i := HexDigit(data[i] / 16)][2 * i + 1 := HexDigit(data[i] % 16)], data, i + 1)
  {
    hide Base16, HexDigit;
    var n := |data|;
    OneMoreByte(data, i);
    assert s[n + i] == s[n + i..][0];
    assert s[n + i + 1..] == s[n + i..][1..];
    var t := s[2 * i := HexDigit(data[i] / 16)][2 * i + 1 := HexDigit(data[i] % 16)];
    assert t[n + i + 1..] == s[n + i + 1..];
    assert t[..2 * (i + 1)] == s[..2 * i] + [HexDigit(data[i] / 16), HexDigit(data[i] % 16)];
  }

  method DumpBase16(data: seq<byte>) returns (buffer: array<byte>)
    ensures fresh(buffer) && buffer.Length == 2 * |data| + 1
    ensures CString(buffer[..]) == Base16(data)
  {
    hide Base16, CString, HexDigit;
    var n := |data|;
    buffer := new byte[n * 2 + 1];
    CopyByteString(data, buffer, n);
    var i := 0;
    NothingYet(data);
    while i < n
      invariant 0 <= i <= n && Expanding16(buffer[..], data, i)
    {
      Expand16Step(buffer[..], data, i);
      var b: byte := buffer[n + i];
      buffer[2 * i] := HexDigit(b / 16);
      buffer[2 * i + 1] := HexDigit(b % 16);
      i := i + 1;
    }
    assert data[..n] == data;
    assert buffer[2 * n] == buffer[2 * n..][0];
    assert buffer[..][..2 * n] == Base16(data);
    Base16HasNoNul(data);
    CStringIs(buffer[..], Base16(data));
  }

  lemma NothingYet(data: seq<byte>)
    ensures Base16(data[..0]) == [] && Groups(data[..0], true) == [] && Groups(data[..0], false) == []
  {}

  lemma OneMoreByte(data: seq<byte>, i: nat)
    requires i < |data|
    ensures Base16(data[..i + 1]) == Base16(data[..i]) + [HexDigit(data[i] / 16), HexDigit(data[i] % 16)]
  {
    assert data[..i + 1][..i] == data[..i];
  }

  lemma Base16HasNoNul(data: seq<byte>)
    ensures forall k :: 0 <= k < |Base16(data)| ==> Base16(data)[k] != 0
  {
    hide Base16, HexValue;
    forall k | 0 <= k < |Base16(data)|
      ensures Base16(data)[k] != 0
    {
      Base16ReadsBack(data, k / 2);
    }
  }

  lemma OneMoreGroup(data: seq<byte>, i: nat, url: bool)
    requires i % 3 == 0 && i + 3 <= |data|
    ensures Groups(data[..i + 3], url) == Groups(data[..i], url) + Quad(data[i], data[i + 1], data[i + 2], url)
  {
    assert data[..i + 3][..i] == data[..i];
  }

  lemma Quotient(x: nat, m: nat, q: nat, r: nat)
    requires m > 0 && x == q * m + r && r < m
    ensures x / m == q
  {
    GridIndex(r, q, q + 1, m);
  }

  lemma LastSextet(h: nat, v: nat)
    requires v < 64
    ensures (h * 64 + v) % 64 == v
  {}

  /** A number whose low 24 bits are three bytes. */
  function Value24(high: nat, a: nat, b: nat, c: nat): nat {
    high * 0x1000000 + a * 0x10000 + b * 0x100 + c
  }

  /** The four shifts by which the code takes symbols from a number. */
  function Shifts(val: nat, url: bool): (q: seq<byte>)
    ensures |q| == 4
  {
    [Alphabet(url)[val / 0x40000 % 64], Alphabet(url)[val / 0x1000 % 64], Alphabet(url)[val / 64 % 64],
      Alphabet(url)[val % 64]]
  }

  lemma FirstShifts(high: nat, a: byte, b: byte, c: byte)
    ensures var val := Value24(high, a, b, c);
      val / 0x40000 % 64 == a / 4 && val / 0x1000 % 64 == a % 4 * 16 + b / 16
  {
    var val := Value24(high, a, b, c);
    Quotient(val, 0x40000, high * 64 + a / 4, a % 4 * 0x10000 + b * 0x100 + c);
    LastSextet(high, a / 4);
    Quotient(val, 0x1000, (high * 64 + a / 4) * 64 + (a % 4 * 16 + b / 16), b % 16 * 0x100 + c);
    LastSextet(high * 64 + a / 4, a % 4 * 16 + b / 16);
  }

  lemma LastShifts(high: nat, a: byte, b: byte, c: byte)
    ensures var val := Value24(high, a, b, c);
      val / 64 % 64 == b % 16 * 4 + c / 64 && val % 64 == c % 64
  {
    var val := Value24(high, a, b, c);
    Quotient(val, 64, (high * 0x1000 + a * 16 + b / 16) * 64 + (b % 16 * 4 + c / 64), c % 64);
    LastSextet(high * 0x1000 + a * 16 + b / 16, b % 16 * 4 + c / 64);
  }

  /** The shifts take the symbols of the last three bytes. */
  lemma ShiftsAreQuad(high: nat, a: byte, b: byte, c: byte, url: bool)
    ensures Shifts(Value24(high, a, b, c), url) == Quad(a, b, c, url)
  {
    hide Symbol, Value24;
    FirstShifts(high, a, b, c);
    LastShifts(high, a, b, c);
  }

  /** Big-endian numbers as the code loads them. */
  function Load16(s: seq<byte>, at: nat): nat
    requires at + 2 <= |s|
  {
    var a: nat, b: nat := s[at], s[at + 1];
    a * 0x100 + b
  }

  function Load32(s: seq<byte>, at: nat): nat
    requires at + 4 <= |s|
  {
    Load16(s, at) * 0x10000 + Load16(s, at + 2)
  }

  /** The size of the text before padding is cut, and of the room for it. */
  function Room(n: nat): nat {
    (n + 5) / 3 * 4
  }

  /** The first i bytes are text; the others stand unread at the tail, before the NUL. */
  predicate Expanding64(s: seq<byte>, data: seq<byte>, i: nat, url: bool)
    requires i <= |data| && i % 3 == 0
  {
    var len := Room(|data|);
    |s| == len + 1 && s[..i / 3 * 4] == Groups(data[..i], url) && s[len - |data| + i..] == data[i..] + [0]
  }

  /** What stands unread lies behind what is written. */
  lemma TextStaysBehind(n: nat, i: nat)
    requires i % 3 == 0 && i <= n
    ensures i / 3 * 4 + 4 <= Room(n) - n + i + 3
    ensures n > i ==> i / 3 * 4 + 4 <= Room(n)
    ensures Room(n) >= n
  {}

  lemma Expand64Reads(s: seq<byte>, data: seq<byte>, i: nat, url: bool)
    requires i % 3 == 0 && i + 3 <= |data| && Expanding64(s, data, i, url)
    ensures var at, k := Room(|data|) - |data| + i, i / 3 * 4;
      k + 4 <= at + 3 && at + 3 < |s| && s[at] == data[i] && s[at + 1] == data[i + 1] && s[at + 2] == data[i + 2]
      && s[at + 3..] == data[i + 3..] + [0]
  {
    hide Groups, Room;
    TextStaysBehind(|data|, i);
    UnreadBytes(s, data, Room(|data|) - |data| + i, i);
  }

  lemma Expand64Step(s: seq<byte>, data: seq<byte>, i: nat, url: bool, k: nat)
    requires i % 3 == 0 && i + 3 <= |data| && Expanding64(s, data, i, url) && k == i / 3 * 4 && k + 4 <= |s|
    ensures (i + 3) % 3 == 0
    ensures Expanding64(s[..k] + Quad(data[i], data[i + 1], data[i + 2], url) + s[k + 4..], data, i + 3, url)
  {
    hide Groups, Quad, Room;
    var at := Room(|data|) - |data| + i;
    Expand64Reads(s, data, i, url);
    OneMoreGroup(data, i, url);
    NextOut(i);
    TailOfPatch(s, k, Quad(data[i], data[i + 1], data[i + 2], url), at + 3);
  }

  lemma NextOut(i: nat)
    ensures (i + 3) / 3 * 4 == i / 3 * 4 + 4 && (i + 3) % 3 == i % 3
  {}

  lemma UnreadBytes(s: seq<byte>, data: seq<byte>, at: nat, i: nat)
    requires i + 3 <= |data| && at <= |s| && s[at..] == data[i..] + [0]
    ensures at + 3 < |s| && s[at] == data[i] && s[at + 1] == data[i + 1] && s[at + 2] == data[i + 2]
    ensures s[at + 3..] == data[i + 3..] + [0]
  {
    var rest := s[at..];
    assert s[at] == rest[0] && s[at + 1] == rest[1] && s[at + 2] == rest[2];
    assert s[at + 3..] == rest[3..];
  }

  lemma TailOfPatch(s: seq<byte>, k: nat, q: seq<byte>, at: nat)
    requires k + |q| <= at <= |s|
    ensures (s[..k] + q + s[k + |q|..])[at..] == s[at..]
    ensures (s[..k] + q + s[k + |q|..])[..k + |q|] == s[..k] + q
  {}

  /** Writes the four symbols of the low 24 bits of val. */
  method WriteQuad(buffer: array<byte>, out: nat, val: nat, url: bool)
    requires out + 4 <= buffer.Length
    modifies buffer
    ensures buffer[..] == old(buffer[..out]) + Shifts(val, url) + old(buffer[out + 4..])
  {
    hide Alphabet;
    var alphabet := Alphabet(url);
    buffer[out] := alphabet[val / 0x40000 % 64];
    buffer[out + 1] := alphabet[val / 0x1000 % 64];
    buffer[out + 2] := alphabet[val / 64 % 64];
    buffer[out + 3] := alphabet[val % 64];
  }

  /**
   The number whose low 24 bits are the three bytes at the position; past the
   first group it is loaded with the byte before.
   */
  method LoadGroup(buffer: array<byte>, at: nat, first: bool) returns (val: nat)
    requires at + 3 <= buffer.Length && (!first ==> at > 0)
    ensures val == Value24(if first then 0 else buffer[at - 1], buffer[at], buffer[at + 1], buffer[at + 2])
  {
    if !first {
      val := Load32(buffer[..], at - 1);
    } else {
      var a: nat, b: nat, c: nat := buffer[at], buffer[at + 1], buffer[at + 2];
      val := a * 0x10000 + b * 0x100 + c;
    }
  }

  method DumpBase64(data: seq<byte>, url: bool) returns (buffer: array<byte>)
    ensures fresh(buffer) && buffer.Length == Room(|data|) + 1
    ensures CString(buffer[..]) == Base64(data, url)
  {
    hide Groups, Base64, CString, Quad, Alphabet, Tail, Shifts, Value24;
    var n := |data|;
    var len := Room(n);
    TextStaysBehind(n, 0);
    buffer := new byte[len + 1];
    CopyByteString(data, buffer, len - n);
    NothingYet(data);
    var i := DumpGroups(data, buffer, url);
    DumpTail(data, buffer, i, url);
    Base64HasNoNul(data, url);
    CStringIs(buffer[..], Base64(data, url));
  }

  /** Expands the groups of three bytes, one after the other. */
  method DumpGroups(data: seq<byte>, buffer: array<byte>, url: bool) returns (i: nat)
    requires Expanding64(buffer[..], data, 0, url)
    modifies buffer
    ensures i <= |data| < i + 3 && i % 3 == 0 && Expanding64(buffer[..], data, i, url)
  {
    hide Expanding64, Quad, Shifts, Value24, Room;
    i := 0;
    var n, len, out := |data|, Room(|data|), 0;
    TextStaysBehind(n, 0);
    while n - i >= 3
      invariant 0 <= i <= n && i % 3 == 0 && out == i / 3 * 4
      invariant Expanding64(buffer[..], data, i, url)
    {
      Expand64Reads(buffer[..], data, i, url);
      Expand64Step(buffer[..], data, i, url, out);
      ghost var high: nat := if i == 0 then 0 else buffer[len - n + i - 1];
      var val := LoadGroup(buffer, len - n + i, i == 0);
      ShiftsAreQuad(high, data[i], data[i + 1], data[i + 2], url);
      TextStaysBehind(n, i);
      WriteQuad(buffer, out, val, url);
      out := out + 4;
      i := i + 3;
    }
  }

  /** The one or two bytes left, and the NUL that ends the text. */
  method DumpTail(data: seq<byte>, buffer: array<byte>, i: nat, url: bool)
    requires i <= |data| < i + 3 && i % 3 == 0 && Expanding64(buffer[..], data, i, url)
    modifies buffer
    ensures |Base64(data, url)| < buffer.Length && buffer[..|Base64(data, url)|] == Base64(data, url)
    ensures buffer[|Base64(data, url)|] == 0
  {
    hide Groups, Value24, Tail, TailSymbols, Base64, Load16;
    var n, len, out := |data|, Room(|data|), i / 3 * 4;
    TextStaysBehind(n, i);
    TailStands(buffer[..], data, i, url);
    if n - i > 0 {
      var val := Load16(buffer[..], len - n + i) * 0x100;
      TailIsShifts(data[i..], val, url);
      WriteTail(buffer, out, val, n - i, url);
    } else {
      NoTail(data[i..], url);
      buffer[out] := 0;
    }
    TextEnds(buffer[..], data, i, url);
  }

  /** The symbols of the last count bytes, the filler and a NUL. */
  method WriteTail(buffer: array<byte>, out: nat, val: nat, count: nat, url: bool)
    requires out + 5 <= buffer.Length && 1 <= count <= 2
    modifies buffer
    ensures buffer[..] == old(buffer[..out]) + TailSymbols(val, count, url) + old(buffer[out + 5..])
  {
    hide Alphabet;
    var alphabet := Alphabet(url);
    buffer[out + 4] := 0;
    buffer[out + 3] := alphabet[64];
    if count == 2 {
      buffer[out + 2] := alphabet[val / 64 % 64];
    } else {
      buffer[out + 2] := alphabet[64];
    }
    buffer[out + 1] := alphabet[val / 0x1000 % 64];
    buffer[out] := alphabet[val / 0x40000 % 64];
  }

  function TailSymbols(val: nat, count: nat, url: bool): (s: seq<byte>)
    ensures |s| == 5
  {
    [Alphabet(url)[val / 0x40000 % 64], Alphabet(url)[val / 0x1000 % 64],
     if count == 2 then Alphabet(url)[val / 64 % 64] else Alphabet(url)[64], Alphabet(url)[64], 0]
  }

  lemma NoTail(data: seq<byte>, url: bool)
    ensures data == [] ==> Tail(data, url) == []
  {}

  /** The last bytes, or the last byte and the NUL, can be read. */
  lemma TailStands(s: seq<byte>, data: seq<byte>, i: nat, url: bool)
    requires i <= |data| < i + 3 && i % 3 == 0 && Expanding64(s, data, i, url)
    ensures i == |data| / 3 * 3 && s[..i / 3 * 4] == Groups(data[..i], url) && i / 3 * 4 <= Room(|data|)
    ensures var at := Room(|data|) - |data| + i;
      i < |data| ==>
        i / 3 * 4 + 8 <= Room(|data|) && at + 2 <= |s|
        && Load16(s, at) * 0x100 == Value24(0, data[i], if |data| - i == 2 then data[i + 1] else 0, 0)
  {
    hide Groups;
    TextStaysBehind(|data|, i);
    if i < |data| {
      var at := Room(|data|) - |data| + i;
      assert s[at] == s[at..][0] && s[at + 1] == s[at..][1];
    }
  }

  /** The symbols written for the last one or two bytes are their text and a NUL. */
  lemma TailIsShifts(data: seq<byte>, val: nat, url: bool)
    requires 0 < |data| < 3 && val == Value24(0, data[0], if |data| == 2 then data[1] else 0, 0)
    ensures var t, m := TailSymbols(val, |data|, url), |Tail(data, url)|;
      m < 5 && t[..m] == Tail(data, url) && t[m] == 0
  {
    hide Value24, Quad, Symbol;
    ShiftsAreQuad(0, data[0], if |data| == 2 then data[1] else 0, 0, url);
    assert Shifts(val, url)[..|data| + 1] == TailSymbols(val, |data|, url)[..|data| + 1];
  }

  /** The groups, the tail and a NUL are the whole text. */
  lemma TextEnds(s: seq<byte>, data: seq<byte>, i: nat, url: bool)
    requires i == |data| / 3 * 3 && i / 3 * 4 + |Tail(data[i..], url)| < |s|
    requires s[..i / 3 * 4] == Groups(data[..i], url)
    requires s[i / 3 * 4..i / 3 * 4 + |Tail(data[i..], url)|] == Tail(data[i..], url)
    requires s[i / 3 * 4 + |Tail(data[i..], url)|] == 0
    ensures |Base64(data, url)| < |s| && s[..|Base64(data, url)|] == Base64(data, url) && s[|Base64(data, url)|] == 0
  {
    hide Groups, Tail;
    var k, m := i / 3 * 4, |Tail(data[i..], url)|;
    assert s[..k + m] == s[..k] + s[k..k + m];
  }
}
