/** CBOR items as trees: what bytes are well formed, what they mean, and how a tree is written. */
module CborTree {
  import opened Bytes
  import opened Wrappers
  import opened CborFormat

  /** A map holds its keys and values alternately; a string in chunks is its whole content. */
  datatype Item =
    | Number(negative: bool, value: nat)
    | Str(text: bool, content: seq<byte>)
    | Array(known: bool, items: seq<Item>)
    | Map(known: bool, items: seq<Item>)
    | Tagged(tag: nat, item: Item)
    | Simple(value: nat)
    | Float(kind: nat, bits: nat)

  /** The integer that a number stands for. */
  function IntegerOf(t: Item): int
    requires t.Number?
  {
    if t.negative then -1 - t.value else t.value
  }

  // ---------- Reading: the well-formedness rules of Appendix C of RFC 8949 ----------

  /** The head at p is one that may start an item. */
  predicate HeadOk(s: seq<byte>, p: nat) {
    if p < |s| && InfoAt(s, p) == INDEFINITE then BYTE_STRING <= MajorAt(s, p) <= MAP
    else
      HeadFits(s, p) && !(MajorAt(s, p) == SIMPLE && InfoAt(s, p) == SIMPLE_IN_NEXT_BYTE && HeadValue(s, p) < 32)
  }

  predicate BreakAt(s: seq<byte>, p: nat) {
    p < |s| && s[p] == BREAK
  }

  function Container(isMap: bool, known: bool, items: seq<Item>): Item {
    if isMap then Map(known, items) else Array(known, items)
  }

  /** The item at p with containers nested at most depth deep, and the position after it. */
  function ParseItem(s: seq<byte>, p: nat, depth: nat): (r: Option<(Item, nat)>)
    ensures r.Some? ==> p < r.value.1 <= |s|
    decreases |s| - p, 1
  {
    if !HeadOk(s, p) then None
    else if InfoAt(s, p) == INDEFINITE then ParseIndefinite(s, p, depth)
    else
      var v, q := HeadValue(s, p), HeadEnd(s, p);
      match MajorAt(s, p)
      case 0 => Some((Number(false, v), q))
      case 1 => Some((Number(true, v), q))
      case 2 => if q + v <= |s| then Some((Str(false, s[q..q + v]), q + v)) else None
      case 3 => if q + v <= |s| then Some((Str(true, s[q..q + v]), q + v)) else None
      case 4 =>
        if depth == 0 then None
        else
          var r := ParseItems(s, q, v, depth - 1);
          if r.None? then None else Some((Array(true, r.value.0), r.value.1))
      case 5 =>
        if depth == 0 then None
        else
          var r := ParseItems(s, q, 2 * v, depth - 1);
          if r.None? then None else Some((Map(true, r.value.0), r.value.1))
      case 6 =>
        var r := ParseItem(s, q, depth);
        if r.None? then None else Some((Tagged(v, r.value.0), r.value.1))
      case 7 =>
        if HALF_FLOAT <= InfoAt(s, p) then Some((Float(InfoAt(s, p) - HALF_FLOAT, v), q)) else Some((Simple(v), q))
  }

  function ParseIndefinite(s: seq<byte>, p: nat, depth: nat): (r: Option<(Item, nat)>)
    requires HeadOk(s, p) && InfoAt(s, p) == INDEFINITE
    ensures r.Some? ==> p < r.value.1 <= |s|
    decreases |s| - p, 0
  {
    if MajorAt(s, p) <= TEXT_STRING then
      var r := ParseChunks(s, p + 1, MajorAt(s, p));
      if r.None? then None else Some((Str(MajorAt(s, p) == TEXT_STRING, r.value.0), r.value.1 + 1))
    else if depth == 0 then None
    else
      var r := ParseUntil(s, p + 1, depth - 1, MajorAt(s, p) == MAP, false);
      if r.None? then None else Some((Container(MajorAt(s, p) == MAP, false, r.value.0), r.value.1 + 1))
  }

  /** n items one after the other. */
  function ParseItems(s: seq<byte>, p: nat, n: nat, depth: nat): (r: Option<(seq<Item>, nat)>)
    requires p <= |s|
    ensures r.Some? ==> p <= r.value.1 <= |s|
    decreases |s| - p, 2
  {
    if n == 0 then Some(([], p))
    else
      var first := ParseItem(s, p, depth);
      if first.None? then None
      else
        var rest := ParseItems(s, first.value.1, n - 1, depth);
        if rest.None? then None else Some(([first.value.0] + rest.value.0, rest.value.1))
  }

  /** Items up to the break, which in a map may not follow a key (odd), and the position of the break. */
  function ParseUntil(s: seq<byte>, p: nat, depth: nat, isMap: bool, odd: bool): (r: Option<(seq<Item>, nat)>)
    ensures r.Some? ==> p <= r.value.1 && BreakAt(s, r.value.1)
    decreases |s| - p, 2
  {
    if BreakAt(s, p) then if isMap && odd then None else Some(([], p))
    else
      var first := ParseItem(s, p, depth);
      if first.None? then None
      else
        var rest := ParseUntil(s, first.value.1, depth, isMap, !odd);
        if rest.None? then None else Some(([first.value.0] + rest.value.0, rest.value.1))
  }

  /** The chunks of a string up to the break: definite strings of the same major type. */
  function ParseChunks(s: seq<byte>, p: nat, m: major): (r: Option<(seq<byte>, nat)>)
    ensures r.Some? ==> p <= r.value.1 && BreakAt(s, r.value.1)
    decreases |s| - p
  {
    if p >= |s| then None
    else if BreakAt(s, p) then Some(([], p))
    else if MajorAt(s, p) != m || !HeadFits(s, p) || HeadEnd(s, p) + HeadValue(s, p) > |s| then None
    else
      var q := HeadEnd(s, p);
      var rest := ParseChunks(s, q + HeadValue(s, p), m);
      if rest.None? then None else Some((s[q..q + HeadValue(s, p)] + rest.value.0, rest.value.1))
  }

  // ---------- Writing ----------

  function Encode(t: Item): seq<byte>
    requires Encodable(t)
  {
    match t
    case Number(negative, v) => Head(if negative then NEGATIVE else UNSIGNED, v)
    case Str(text, c) => Head(if text then TEXT_STRING else BYTE_STRING, |c|) + c
    case Array(known, items) =>
      if known then Head(ARRAY, |items|) + EncodeAll(items) else [32 * ARRAY + INDEFINITE] + EncodeAll(items) + [BREAK]
    case Map(known, items) =>
      if known then Head(MAP, |items| / 2) + EncodeAll(items) else [32 * MAP + INDEFINITE] + EncodeAll(items) + [BREAK]
    case Tagged(tag, item) => Head(TAG, tag) + Encode(item)
    case Simple(v) => Head(SIMPLE, v)
    case Float(kind, bits) => [32 * SIMPLE + HALF_FLOAT + kind] + BigEndian(bits, Size(HALF_FLOAT + kind))
  }

  function EncodeAll(items: seq<Item>): seq<byte>
    requires AllEncodable(items)
  {
    if items == [] then [] else Encode(items[0]) + EncodeAll(items[1..])
  }

  /** What fits the data model of the encoder. */
  predicate Encodable(t: Item) {
    match t
    case Number(_, v) => v <= MAX_UINT64
    case Str(_, c) => |c| <= MAX_UINT64
    case Array(_, items) => |items| <= MAX_UINT64 && AllEncodable(items)
    case Map(_, items) => |items| / 2 <= MAX_UINT64 && |items| % 2 == 0 && AllEncodable(items)
    case Tagged(tag, item) => tag <= MAX_UINT64 && Encodable(item)
    case Simple(v) => v < 24 || 32 <= v < 256
    case Float(kind, bits) => kind <= 2 && bits < Base(Size(HALF_FLOAT + kind))
  }

  predicate AllEncodable(items: seq<Item>) {
    items == [] || (Encodable(items[0]) && AllEncodable(items[1..]))
  }

  /** How deep containers are nested. */
  function Depth(t: Item): nat {
    match t
    case Array(_, items) => 1 + DepthOfAll(items)
    case Map(_, items) => 1 + DepthOfAll(items)
    case Tagged(_, item) => Depth(item)
    case _ => 0
  }

  function DepthOfAll(items: seq<Item>): nat {
    if items == [] then 0
    else if Depth(items[0]) >= DepthOfAll(items[1..]) then Depth(items[0]) else DepthOfAll(items[1..])
  }

  lemma DepthOfFirst(t: Item, rest: seq<Item>)
    ensures DepthOfAll([t] + rest) == if Depth(t) >= DepthOfAll(rest) then Depth(t) else DepthOfAll(rest)
  {
    assert ([t] + rest)[1..] == rest;
  }

  /** What is read is not nested deeper than allowed. */
  lemma {:induction false} ParsedWithinDepth(s: seq<byte>, p: nat, depth: nat)
    ensures ParseItem(s, p, depth).Some? ==> Depth(ParseItem(s, p, depth).value.0) <= depth
    decreases |s| - p, 1
  {
    hide HeadValue, ParseItems, ParseIndefinite, DepthOfAll;
    if HeadOk(s, p) {
      if InfoAt(s, p) == INDEFINITE {
        IndefiniteWithinDepth(s, p, depth);
      } else if MajorAt(s, p) == TAG {
        ParsedWithinDepth(s, HeadEnd(s, p), depth);
      } else if depth > 0 && MajorAt(s, p) == ARRAY {
        ItemsWithinDepth(s, HeadEnd(s, p), HeadValue(s, p), depth - 1);
      } else if depth > 0 && MajorAt(s, p) == MAP {
        ItemsWithinDepth(s, HeadEnd(s, p), 2 * HeadValue(s, p), depth - 1);
      }
    }
  }

  lemma {:induction false} IndefiniteWithinDepth(s: seq<byte>, p: nat, depth: nat)
    requires HeadOk(s, p) && InfoAt(s, p) == INDEFINITE
    ensures ParseIndefinite(s, p, depth).Some? ==> Depth(ParseIndefinite(s, p, depth).value.0) <= depth
    decreases |s| - p, 0
  {
    hide ParseChunks, ParseUntil, DepthOfAll;
    if depth > 0 && MajorAt(s, p) > TEXT_STRING {
      UntilWithinDepth(s, p + 1, depth - 1, MajorAt(s, p) == MAP, false);
    }
  }

  lemma {:induction false} ItemsWithinDepth(s: seq<byte>, p: nat, n: nat, depth: nat)
    requires p <= |s|
    ensures ParseItems(s, p, n, depth).Some? ==> DepthOfAll(ParseItems(s, p, n, depth).value.0) <= depth
    decreases |s| - p, 2
  {
    hide ParseItem, Depth;
    if n > 0 {
      ParsedWithinDepth(s, p, depth);
      var first := ParseItem(s, p, depth);
      if first.Some? {
        ItemsWithinDepth(s, first.value.1, n - 1, depth);
        var rest := ParseItems(s, first.value.1, n - 1, depth);
        if rest.Some? {
          DepthOfFirst(first.value.0, rest.value.0);
        }
      }
    }
  }

  lemma {:induction false} UntilWithinDepth(s: seq<byte>, p: nat, depth: nat, isMap: bool, odd: bool)
    ensures ParseUntil(s, p, depth, isMap, odd).Some? ==>
      DepthOfAll(ParseUntil(s, p, depth, isMap, odd).value.0) <= depth
    decreases |s| - p, 2
  {
    hide ParseItem, Depth;
    if !BreakAt(s, p) {
      ParsedWithinDepth(s, p, depth);
      var first := ParseItem(s, p, depth);
      if first.Some? {
        UntilWithinDepth(s, first.value.1, depth, isMap, !odd);
        var rest := ParseUntil(s, first.value.1, depth, isMap, !odd);
        if rest.Some? {
          DepthOfFirst(first.value.0, rest.value.0);
        }
      }
    }
  }

  // ---------- Reading undoes writing ----------

  /** The bytes t stand at p in s. */
  predicate Stands(s: seq<byte>, p: nat, t: seq<byte>) {
    p + |t| <= |s| && s[p..p + |t|] == t
  }

  lemma StandsConcat(s: seq<byte>, p: nat, a: seq<byte>, b: seq<byte>)
    requires Stands(s, p, a + b)
    ensures Stands(s, p, a) && Stands(s, p + |a|, b)
  {
    assert s[p..p + |a|] == (a + b)[..|a|];
    assert s[p + |a|..p + |a| + |b|] == (a + b)[|a|..];
  }

  lemma EncodeStarts(t: Item)
    requires Encodable(t)
    ensures Encode(t) != [] && Encode(t)[0] != BREAK
  {}

  lemma FloatReadsBack(s: seq<byte>, p: nat, kind: nat, bits: nat)
    requires kind <= 2 && bits < Base(Size(HALF_FLOAT + kind))
    requires Stands(s, p, [32 * SIMPLE + HALF_FLOAT + kind] + BigEndian(bits, Size(HALF_FLOAT + kind)))
    ensures HeadOk(s, p) && MajorAt(s, p) == SIMPLE && InfoAt(s, p) == HALF_FLOAT + kind && HeadValue(s, p) == bits
    ensures HeadEnd(s, p) == p + 1 + Size(HALF_FLOAT + kind)
  {
    hide BigEndian, ValueOf, Base;
    var n, first: seq<byte> := Size(HALF_FLOAT + kind), [32 * SIMPLE + HALF_FLOAT + kind];
    StandsConcat(s, p, first, BigEndian(bits, n));
    assert s[p] == s[p..p + 1][0];
    ValueOfBigEndian(bits, n);
  }

  lemma NumberParses(s: seq<byte>, p: nat, depth: nat, negative: bool, v: nat)
    requires v <= MAX_UINT64 && Stands(s, p, Head(if negative then NEGATIVE else UNSIGNED, v))
    ensures ParseItem(s, p, depth)
         == Some((Number(negative, v), p + |Head(if negative then NEGATIVE else UNSIGNED, v)|))
  {
    hide Head, HeadFits, HeadValue, HeadEnd;
    HeadReadsBack(s, p, if negative then NEGATIVE else UNSIGNED, v);
  }

  lemma SimpleParses(s: seq<byte>, p: nat, depth: nat, v: nat)
    requires (v < 24 || 32 <= v < 256) && Stands(s, p, Head(SIMPLE, v))
    ensures ParseItem(s, p, depth) == Some((Simple(v), p + |Head(SIMPLE, v)|))
  {
    hide Head, HeadFits, HeadValue, HeadEnd;
    HeadReadsBack(s, p, SIMPLE, v);
  }

  lemma StrParses(s: seq<byte>, p: nat, depth: nat, text: bool, c: seq<byte>)
    requires |c| <= MAX_UINT64
    requires Stands(s, p, Head(if text then TEXT_STRING else BYTE_STRING, |c|) + c)
    ensures ParseItem(s, p, depth)
         == Some((Str(text, c), p + |Head(if text then TEXT_STRING else BYTE_STRING, |c|) + c|))
  {
    hide Head, HeadFits, HeadValue, HeadEnd;
    var m: major := if text then TEXT_STRING else BYTE_STRING;
    StandsConcat(s, p, Head(m, |c|), c);
    HeadReadsBack(s, p, m, |c|);
  }

  lemma TagParses(s: seq<byte>, p: nat, depth: nat, tag: nat, item: Item, end: nat)
    requires tag <= MAX_UINT64 && Stands(s, p, Head(TAG, tag))
    requires ParseItem(s, p + |Head(TAG, tag)|, depth) == Some((item, end))
    ensures ParseItem(s, p, depth) == Some((Tagged(tag, item), end))
  {
    hide Head, HeadFits, HeadValue, HeadEnd;
    HeadReadsBack(s, p, TAG, tag);
  }

  lemma ArrayParses(s: seq<byte>, p: nat, depth: nat, items: seq<Item>, end: nat)
    requires |items| <= MAX_UINT64 && 0 < depth && Stands(s, p, Head(ARRAY, |items|))
    requires ParseItems(s, p + |Head(ARRAY, |items|)|, |items|, depth - 1) == Some((items, end))
    ensures ParseItem(s, p, depth) == Some((Array(true, items), end))
  {
    hide Head, HeadFits, HeadValue, HeadEnd, ParseItems;
    HeadReadsBack(s, p, ARRAY, |items|);
  }

  lemma MapParses(s: seq<byte>, p: nat, depth: nat, items: seq<Item>, end: nat)
    requires |items| / 2 <= MAX_UINT64 && |items| % 2 == 0 && 0 < depth && Stands(s, p, Head(MAP, |items| / 2))
    requires ParseItems(s, p + |Head(MAP, |items| / 2)|, |items|, depth - 1) == Some((items, end))
    ensures ParseItem(s, p, depth) == Some((Map(true, items), end))
  {
    hide Head, HeadFits, HeadValue, HeadEnd, ParseItems;
    HeadReadsBack(s, p, MAP, |items| / 2);
  }

  lemma IndefiniteParses(s: seq<byte>, p: nat, depth: nat, m: major, items: seq<Item>, end: nat)
    requires (m == ARRAY || m == MAP) && 0 < depth && p < |s| && s[p] == 32 * m + INDEFINITE
    requires ParseUntil(s, p + 1, depth - 1, m == MAP, false) == Some((items, end))
    ensures ParseItem(s, p, depth) == Some((Container(m == MAP, false, items), end + 1))
  {
    hide HeadFits, HeadValue, HeadEnd, ParseUntil;
  }

  /** Reading what the encoder wrote for a tree gives the tree, and ends where it ends. */
  lemma {:induction false} ItemReadsBack(t: Item, s: seq<byte>, p: nat, depth: nat)
    requires Encodable(t) && Depth(t) <= depth && Stands(s, p, Encode(t))
    ensures ParseItem(s, p, depth) == Some((t, p + |Encode(t)|))
  {
    hide Head, BigEndian, Base, ParseItem, ParseItems, HeadFits, HeadOk, HeadEnd, HeadValue, Stands;
    match t
    case Number(negative, v) =>
      NumberParses(s, p, depth, negative, v);
    case Str(text, c) =>
      StrParses(s, p, depth, text, c);
    case Array(known, items) =>
      if known {
        KnownReadsBack(t, items, s, p, depth);
      } else {
        ListReadsBack(ARRAY, items, s, p, depth);
      }
    case Map(known, items) =>
      if known {
        KnownReadsBack(t, items, s, p, depth);
      } else {
        ListReadsBack(MAP, items, s, p, depth);
      }
    case Tagged(tag, item) =>
      StandsConcat(s, p, Head(TAG, tag), Encode(item));
      ItemReadsBack(item, s, p + |Head(TAG, tag)|, depth);
      TagParses(s, p, depth, tag, item, p + |Encode(t)|);
    case Simple(v) =>
      SimpleParses(s, p, depth, v);
    case Float(kind, bits) =>
      FloatParses(s, p, depth, kind, bits);
  }

  lemma {:induction false} KnownReadsBack(t: Item, items: seq<Item>, s: seq<byte>, p: nat, depth: nat)
    requires (t == Array(true, items) || t == Map(true, items))
    requires Encodable(t) && Depth(t) <= depth && Stands(s, p, Encode(t))
    ensures ParseItem(s, p, depth) == Some((t, p + |Encode(t)|))
    decreases items, 1
  {
    hide Head, ParseItem, ParseItems, EncodeAll, AllEncodable, DepthOfAll, Stands;
    if t.Array? {
      StandsConcat(s, p, Head(ARRAY, |items|), EncodeAll(items));
      ItemsReadBack(items, s, p + |Head(ARRAY, |items|)|, depth - 1);
      ArrayParses(s, p, depth, items, p + |Encode(t)|);
    } else {
      StandsConcat(s, p, Head(MAP, |items| / 2), EncodeAll(items));
      ItemsReadBack(items, s, p + |Head(MAP, |items| / 2)|, depth - 1);
      MapParses(s, p, depth, items, p + |Encode(t)|);
    }
  }

  lemma FloatParses(s: seq<byte>, p: nat, depth: nat, kind: nat, bits: nat)
    requires kind <= 2 && bits < Base(Size(HALF_FLOAT + kind))
    requires Stands(s, p, [32 * SIMPLE + HALF_FLOAT + kind] + BigEndian(bits, Size(HALF_FLOAT + kind)))
    ensures ParseItem(s, p, depth) == Some((Float(kind, bits), p + 1 + Size(HALF_FLOAT + kind)))
  {
    hide BigEndian, Base, HeadFits, HeadOk, HeadEnd, HeadValue, Stands;
    FloatReadsBack(s, p, kind, bits);
  }

  lemma {:induction false} ListReadsBack(m: major, items: seq<Item>, s: seq<byte>, p: nat, depth: nat)
    requires (m == ARRAY || (m == MAP && |items| % 2 == 0)) && AllEncodable(items) && 1 + DepthOfAll(items) <= depth
    requires Stands(s, p, [32 * m + INDEFINITE] + EncodeAll(items) + [BREAK])
    ensures ParseItem(s, p, depth) == Some((Container(m == MAP, false, items), p + 2 + |EncodeAll(items)|))
    decreases items, 1
  {
    hide ParseItem, ParseUntil, EncodeAll, AllEncodable, DepthOfAll;
    var first: seq<byte> := [32 * m + INDEFINITE];
    StandsConcat(s, p, first + EncodeAll(items), [BREAK]);
    StandsConcat(s, p, first, EncodeAll(items));
    assert s[p] == s[p..p + 1][0];
    var q := p + 1 + |EncodeAll(items)|;
    assert s[q] == s[q..q + 1][0];
    UntilReadsBack(items, s, p + 1, depth - 1, m == MAP, false);
    IndefiniteParses(s, p, depth, m, items, q);
  }

  lemma {:induction false} ItemsReadBack(items: seq<Item>, s: seq<byte>, p: nat, depth: nat)
    requires AllEncodable(items) && DepthOfAll(items) <= depth && Stands(s, p, EncodeAll(items))
    ensures ParseItems(s, p, |items|, depth) == Some((items, p + |EncodeAll(items)|))
    decreases items, 0
  {
    hide ParseItem, Encode, Encodable, Depth;
    if items != [] {
      StandsConcat(s, p, Encode(items[0]), EncodeAll(items[1..]));
      ItemReadsBack(items[0], s, p, depth);
      ItemsReadBack(items[1..], s, p + |Encode(items[0])|, depth);
      assert items == [items[0]] + items[1..];
    }
  }

  lemma {:induction false} UntilReadsBack(items: seq<Item>, s: seq<byte>, p: nat, depth: nat, isMap: bool, odd: bool)
    requires AllEncodable(items) && DepthOfAll(items) <= depth && Stands(s, p, EncodeAll(items))
    requires BreakAt(s, p + |EncodeAll(items)|) && (isMap ==> odd == (|items| % 2 == 1))
    ensures ParseUntil(s, p, depth, isMap, odd) == Some((items, p + |EncodeAll(items)|))
    decreases items, 0
  {
    hide ParseItem, Encode, Encodable, Depth;
    if items != [] {
      StandsConcat(s, p, Encode(items[0]), EncodeAll(items[1..]));
      EncodeStarts(items[0]);
      assert s[p] == s[p..p + |Encode(items[0])|][0];
      ItemReadsBack(items[0], s, p, depth);
      UntilReadsBack(items[1..], s, p + |Encode(items[0])|, depth, isMap, !odd);
      assert items == [items[0]] + items[1..];
    }
  }
}
