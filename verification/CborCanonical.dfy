/**
 What it means that the validator accepts: canonical bytes, keys in order in
 the whole tree, and when order is checked.
 */
module CborCanonical {
  import opened Bytes
  import opened Wrappers
  import opened CborFormat
  import opened CborTree
  import opened CborCursor
  import opened CborParser
  import opened CborValidation

  // ---------- Accepted bytes are an encoding ----------

  /** A larger nesting limit changes nothing for what is well formed within a smaller one. */
  lemma {:induction false} DeeperIsFine(s: seq<byte>, p: nat, d: nat, e: nat)
    requires ParseItem(s, p, d).Some? && d <= e
    ensures ParseItem(s, p, e) == ParseItem(s, p, d)
    decreases |s| - p, 1
  {
    hide HeadValue, ParseChunks;
    var m := MajorAt(s, p);
    if InfoAt(s, p) == INDEFINITE {
      if m > TEXT_STRING {
        DeeperUntil(s, p + 1, d - 1, e - 1, m == MAP, false);
      }
    } else if m == ARRAY || m == MAP {
      var n := if m == MAP then 2 * HeadValue(s, p) else HeadValue(s, p);
      DeeperItems(s, HeadEnd(s, p), n, d - 1, e - 1);
    } else if m == TAG {
      DeeperIsFine(s, HeadEnd(s, p), d, e);
    }
  }

  lemma {:induction false} DeeperItems(s: seq<byte>, p: nat, n: nat, d: nat, e: nat)
    requires p <= |s| && ParseItems(s, p, n, d).Some? && d <= e
    ensures ParseItems(s, p, n, e) == ParseItems(s, p, n, d)
    decreases |s| - p, 2
  {
    hide ParseItem;
    if n > 0 {
      DeeperIsFine(s, p, d, e);
      DeeperItems(s, ParseItem(s, p, d).value.1, n - 1, d, e);
    }
  }

  lemma {:induction false} DeeperUntil(s: seq<byte>, p: nat, d: nat, e: nat, isMap: bool, odd: bool)
    requires ParseUntil(s, p, d, isMap, odd).Some? && d <= e
    ensures ParseUntil(s, p, e, isMap, odd) == ParseUntil(s, p, d, isMap, odd)
    decreases |s| - p, 2
  {
    hide ParseItem;
    if !BreakAt(s, p) {
      DeeperIsFine(s, p, d, e);
      DeeperUntil(s, ParseItem(s, p, d).value.1, d, e, isMap, !odd);
    }
  }

  /** The policy asks for shortest numbers and known lengths. */
  predicate AsksForCanonical(f: Policy) {
    f.shortestIntegrals && f.noIndeterminateLength
  }

  /** The bytes from p to q are those the encoder writes for t. */
  predicate IsEncoding(s: seq<byte>, p: nat, q: nat, t: Item) {
    p <= q <= |s| && Encodable(t) && Encode(t) == s[p..q]
  }

  /**
   What is valid is well formed; and with shortest numbers and known lengths
   it is, byte for byte, what the encoder writes for its tree.
   */
  lemma {:induction false} AcceptedIsEncoding(s: seq<byte>, p: nat, left: nat, f: Policy)
    requires Accept(s, p, left, f).Some?
    ensures ParseItem(s, p, left).Some? && ParseItem(s, p, left).value.1 == Accept(s, p, left, f).value
    ensures AsksForCanonical(f) ==> IsEncoding(s, p, Accept(s, p, left, f).value, ParseItem(s, p, left).value.0)
    decreases |s| - p, 1
  {
    hide HeadPlain, HeadValue, SimpleOk, KeysOk, KeyIsText, HeadOk, Accept, ParseItem, IsEncoding;
    NoHeadNotAccepted(s, p, left, f);
    NoHeadNoItem(s, p, left);
    var m := MajorAt(s, p);
    if InfoAt(s, p) == INDEFINITE {
      IndefiniteAccepted(s, p, left, f);
    } else if m == ARRAY || m == MAP {
      KnownAccepted(s, p, left, f);
    } else if m == TAG {
      TaggedAccepted(s, p, left, f);
    } else {
      LeafAccepted(s, p, left, f);
    }
  }

  lemma {:induction false} IndefiniteAccepted(s: seq<byte>, p: nat, left: nat, f: Policy)
    requires Accept(s, p, left, f).Some? && p < |s| && InfoAt(s, p) == INDEFINITE
    ensures !f.noIndeterminateLength
    ensures ParseItem(s, p, left).Some? && ParseItem(s, p, left).value.1 == Accept(s, p, left, f).value
    decreases |s| - p, 0
  {
    hide KeysOk, AcceptRest, AcceptChunks, ParseUntil, ParseChunks;
    var m := MajorAt(s, p);
    if m <= TEXT_STRING {
      AcceptedChunks(s, p + 1, m, f);
    } else {
      AcceptedRest(s, p + 1, None, left - 1, f, m == MAP, false);
    }
  }

  lemma {:induction false} AcceptedChunks(s: seq<byte>, p: nat, m: major, f: Policy)
    requires AcceptChunks(s, p, m, f).Some?
    ensures ParseChunks(s, p, m).Some? && ParseChunks(s, p, m).value.1 == AcceptChunks(s, p, m, f).value
    decreases |s| - p
  {
    hide HeadPlain, HeadValue, HeadEnd;
    if !BreakAt(s, p) {
      AcceptedChunks(s, HeadEnd(s, p) + HeadValue(s, p), m, f);
    }
  }

  lemma {:induction false} AcceptedRest(s: seq<byte>, p: nat, n: Option<nat>, left: nat, f: Policy, isMap: bool,
                                        odd: bool)
    requires p <= |s| && AcceptRest(s, p, n, left, f, isMap, odd).Some?
    ensures var end := AcceptRest(s, p, n, left, f, isMap, odd).value.1;
      if n.None? then ParseUntil(s, p, left, isMap, odd).Some? && ParseUntil(s, p, left, isMap, odd).value.1 == end
      else
        ParseItems(s, p, n.value, left).Some? && ParseItems(s, p, n.value, left).value.1 == end
        && (AsksForCanonical(f) ==> AreEncodings(s, p, end, ParseItems(s, p, n.value, left).value.0))
        && |ParseItems(s, p, n.value, left).value.0| == n.value
    decreases |s| - p, 2
  {
    hide Accept, ParseItem, KeyIsText, IsEncoding;
    if n == Some(0) {
      NoEncodings(s, p);
    } else if !(n.None? && BreakAt(s, p)) {
      AcceptedIsEncoding(s, p, left, f);
      var q := Accept(s, p, left, f).value;
      var t := ParseItem(s, p, left).value.0;
      if n.None? {
        AcceptedRest(s, q, None, left, f, isMap, !odd);
      } else {
        AcceptedRest(s, q, Some(n.value - 1), left, f, isMap, !odd);
        if AsksForCanonical(f) {
          var rest := ParseItems(s, q, n.value - 1, left).value;
          MoreEncodings(s, p, q, rest.1, t, rest.0);
        }
      }
    }
  }

  predicate AreEncodings(s: seq<byte>, p: nat, q: nat, items: seq<Item>) {
    p <= q <= |s| && AllEncodable(items) && EncodeAll(items) == s[p..q]
  }

  lemma NoEncodings(s: seq<byte>, p: nat)
    ensures p <= |s| ==> AreEncodings(s, p, p, [])
  {}

  lemma JoinSlices(s: seq<byte>, p: nat, q: nat, r: nat)
    requires p <= q <= r <= |s|
    ensures s[p..r] == s[p..q] + s[q..r]
  {}

  lemma MoreEncodings(s: seq<byte>, p: nat, q: nat, r: nat, t: Item, items: seq<Item>)
    requires IsEncoding(s, p, q, t) && AreEncodings(s, q, r, items)
    ensures AreEncodings(s, p, r, [t] + items)
  {
    hide Encode, Encodable;
    assert ([t] + items)[1..] == items;
    JoinSlices(s, p, q, r);
  }

  lemma {:induction false} KnownAccepted(s: seq<byte>, p: nat, left: nat, f: Policy)
    requires Accept(s, p, left, f).Some? && HeadOk(s, p) && InfoAt(s, p) != INDEFINITE
    requires MajorAt(s, p) == ARRAY || MajorAt(s, p) == MAP
    ensures ParseItem(s, p, left).Some? && ParseItem(s, p, left).value.1 == Accept(s, p, left, f).value
    ensures AsksForCanonical(f) ==> IsEncoding(s, p, Accept(s, p, left, f).value, ParseItem(s, p, left).value.0)
    decreases |s| - p, 0
  {
    hide KeysOk, AcceptRest, ParseItems, HeadValue, HeadPlain, IsEncoding, AreEncodings;
    var isMap, q := MajorAt(s, p) == MAP, HeadEnd(s, p);
    var n := if isMap then 2 * HeadValue(s, p) else HeadValue(s, p);
    AcceptedRest(s, q, Some(n), left - 1, f, isMap, false);
    if AsksForCanonical(f) {
      var r := ParseItems(s, q, n, left - 1).value;
      ListIsEncoding(s, p, isMap, r.0, r.1, f);
    }
  }

  lemma {:induction false} ListIsEncoding(s: seq<byte>, p: nat, isMap: bool, items: seq<Item>, end: nat, f: Policy)
    requires HeadFits(s, p) && MajorAt(s, p) == (if isMap then MAP else ARRAY) && HeadPlain(s, p, f)
      && AsksForCanonical(f)
    requires |items| == (if isMap then 2 * HeadValue(s, p) else HeadValue(s, p))
    requires AreEncodings(s, HeadEnd(s, p), end, items)
    ensures IsEncoding(s, p, end, if isMap then Map(true, items) else Array(true, items))
  {
    hide Head, EncodeAll, AllEncodable, HeadValue;
    HeadValueIsSmall(s, p);
    JoinSlices(s, p, HeadEnd(s, p), end);
  }

  lemma {:induction false} TaggedAccepted(s: seq<byte>, p: nat, left: nat, f: Policy)
    requires Accept(s, p, left, f).Some? && HeadOk(s, p) && InfoAt(s, p) != INDEFINITE && MajorAt(s, p) == TAG
    ensures ParseItem(s, p, left).Some? && ParseItem(s, p, left).value.1 == Accept(s, p, left, f).value
    ensures AsksForCanonical(f) ==> IsEncoding(s, p, Accept(s, p, left, f).value, ParseItem(s, p, left).value.0)
    decreases |s| - p, 0
  {
    hide HeadValue, Head;
    var q := HeadEnd(s, p);
    AcceptTagged(s, p, left, f);
    AcceptedIsEncoding(s, q, left - 1, f);
    DeeperIsFine(s, q, left - 1, left);
    if AsksForCanonical(f) {
      var end := Accept(s, q, left - 1, f).value;
      JoinSlices(s, p, q, end);
    }
  }

  lemma {:induction false} LeafAccepted(s: seq<byte>, p: nat, left: nat, f: Policy)
    requires Accept(s, p, left, f).Some? && HeadOk(s, p) && InfoAt(s, p) != INDEFINITE
    requires MajorAt(s, p) != ARRAY && MajorAt(s, p) != MAP && MajorAt(s, p) != TAG
    ensures ParseItem(s, p, left).Some? && ParseItem(s, p, left).value.1 == Accept(s, p, left, f).value
    ensures AsksForCanonical(f) ==> IsEncoding(s, p, Accept(s, p, left, f).value, ParseItem(s, p, left).value.0)
  {
    hide Accept, ParseItem, IsEncoding, HeadOk;
    if MajorAt(s, p) == BYTE_STRING || MajorAt(s, p) == TEXT_STRING {
      StringAccepted(s, p, left, f);
    } else {
      HeadAccepted(s, p, left, f);
    }
  }

  lemma {:induction false} StringAccepted(s: seq<byte>, p: nat, left: nat, f: Policy)
    requires Accept(s, p, left, f).Some? && HeadOk(s, p) && InfoAt(s, p) != INDEFINITE
    requires MajorAt(s, p) == BYTE_STRING || MajorAt(s, p) == TEXT_STRING
    ensures ParseItem(s, p, left).Some? && ParseItem(s, p, left).value.1 == Accept(s, p, left, f).value
    ensures AsksForCanonical(f) ==> IsEncoding(s, p, Accept(s, p, left, f).value, ParseItem(s, p, left).value.0)
  {
    hide Head, HeadValue, IsEncoding, Encode;
    if AsksForCanonical(f) {
      StringIsEncoding(s, p, f);
    }
  }

  lemma {:induction false} StringIsEncoding(s: seq<byte>, p: nat, f: Policy)
    requires HeadFits(s, p) && HeadPlain(s, p, f) && AsksForCanonical(f) && HeadEnd(s, p) + HeadValue(s, p) <= |s|
    requires MajorAt(s, p) == BYTE_STRING || MajorAt(s, p) == TEXT_STRING
    ensures var q, v := HeadEnd(s, p), HeadValue(s, p);
      IsEncoding(s, p, q + v, Str(MajorAt(s, p) == TEXT_STRING, s[q..q + v]))
  {
    hide Head, HeadValue, HeadEnd;
    HeadValueIsSmall(s, p);
    JoinSlices(s, p, HeadEnd(s, p), HeadEnd(s, p) + HeadValue(s, p));
  }

  /** A number, a simple value or a floating point number. */
  lemma {:induction false} HeadAccepted(s: seq<byte>, p: nat, left: nat, f: Policy)
    requires Accept(s, p, left, f).Some? && HeadOk(s, p) && InfoAt(s, p) != INDEFINITE
    requires MajorAt(s, p) == UNSIGNED || MajorAt(s, p) == NEGATIVE || MajorAt(s, p) == SIMPLE
    ensures ParseItem(s, p, left).Some? && ParseItem(s, p, left).value.1 == Accept(s, p, left, f).value
    ensures AsksForCanonical(f) ==> IsEncoding(s, p, Accept(s, p, left, f).value, ParseItem(s, p, left).value.0)
  {
    hide Head, ValueOf, Base, BigEndian;
    HeadValueIsSmall(s, p);
    if IsFloatAt(s, p) {
      FloatIsEncoding(s, p);
    }
  }

  lemma FloatIsEncoding(s: seq<byte>, p: nat)
    requires HeadFits(s, p) && IsFloatAt(s, p)
    ensures IsEncoding(s, p, HeadEnd(s, p), Float(InfoAt(s, p) - HALF_FLOAT, HeadValue(s, p)))
  {
    hide Base, BigEndian, ValueOf;
    var q := HeadEnd(s, p);
    BigEndianOfValue(s[p + 1..q]);
    assert s[p..q] == [s[p]] + s[p + 1..q];
  }

  // ---------- Keys are in order at every depth ----------

  /** The encodings of the items at even places; odd says that the first one stands at an odd place. */
  function KeysOf(items: seq<Item>, odd: bool): seq<seq<byte>>
    requires AllEncodable(items)
  {
    if items == [] then [] else (if odd then [] else [Encode(items[0])]) + KeysOf(items[1..], !odd)
  }

  /** In every map of the tree, at any depth, the keys are in order, and distinct if unique is set. */
  ghost predicate KeysInOrder(t: Item, unique: bool)
    requires Encodable(t)
  {
    match t
    case Array(_, items) => AllInOrder(items, unique)
    case Map(_, items) => Ordered(KeysOf(items, false), unique) && AllInOrder(items, unique)
    case Tagged(_, item) => KeysInOrder(item, unique)
    case _ => true
  }

  ghost predicate AllInOrder(items: seq<Item>, unique: bool)
    requires AllEncodable(items)
  {
    items == [] || (KeysInOrder(items[0], unique) && AllInOrder(items[1..], unique))
  }

  /** The policy also asks for keys in order. */
  predicate AsksForOrder(f: Policy) {
    AsksForCanonical(f) && f.Sorts()
  }

  /** With known lengths and sorting, what is accepted is a tree whose maps have their keys in order, at every depth. */
  lemma {:induction false} AcceptedInOrder(s: seq<byte>, p: nat, left: nat, f: Policy)
    requires Accept(s, p, left, f).Some? && AsksForOrder(f)
    ensures ParseItem(s, p, left).Some? && Encodable(ParseItem(s, p, left).value.0)
    ensures KeysInOrder(ParseItem(s, p, left).value.0, f.Unique())
    decreases |s| - p, 1
  {
    hide HeadPlain, HeadValue, SimpleOk, KeysOk, KeyIsText, HeadOk, Accept, Encode, KeysInOrder;
    AcceptedIsEncoding(s, p, left, f);
    NoHeadNotAccepted(s, p, left, f);
    var m := MajorAt(s, p);
    if InfoAt(s, p) == INDEFINITE {
      IndefiniteAccepted(s, p, left, f);
    } else if m == ARRAY || m == MAP {
      ListInOrder(s, p, left, f);
    } else if m == TAG {
      TaggedInOrder(s, p, left, f);
    } else {
      LeafInOrder(ParseItem(s, p, left).value.0, f.Unique());
    }
  }

  lemma LeafInOrder(t: Item, unique: bool)
    requires Encodable(t) && !t.Array? && !t.Map? && !t.Tagged?
    ensures KeysInOrder(t, unique)
  {}

  lemma {:induction false} TaggedInOrder(s: seq<byte>, p: nat, left: nat, f: Policy)
    requires Accept(s, p, left, f).Some? && HeadOk(s, p) && InfoAt(s, p) != INDEFINITE && MajorAt(s, p) == TAG
      && AsksForOrder(f)
    ensures ParseItem(s, p, left).Some? && Encodable(ParseItem(s, p, left).value.0)
    ensures KeysInOrder(ParseItem(s, p, left).value.0, f.Unique())
    decreases |s| - p, 0
  {
    hide HeadValue, Head;
    AcceptedIsEncoding(s, p, left, f);
    var q := HeadEnd(s, p);
    AcceptTagged(s, p, left, f);
    AcceptedInOrder(s, q, left - 1, f);
    DeeperIsFine(s, q, left - 1, left);
  }

  lemma {:induction false} ListInOrder(s: seq<byte>, p: nat, left: nat, f: Policy)
    requires Accept(s, p, left, f).Some? && HeadOk(s, p) && InfoAt(s, p) != INDEFINITE && AsksForOrder(f)
    requires MajorAt(s, p) == ARRAY || MajorAt(s, p) == MAP
    ensures ParseItem(s, p, left).Some? && Encodable(ParseItem(s, p, left).value.0)
    ensures KeysInOrder(ParseItem(s, p, left).value.0, f.Unique())
    decreases |s| - p, 0
  {
    hide AcceptRest, ParseItems, HeadValue, HeadPlain, Ordered;
    AcceptedIsEncoding(s, p, left, f);
    var isMap, q := MajorAt(s, p) == MAP, HeadEnd(s, p);
    var n := if isMap then 2 * HeadValue(s, p) else HeadValue(s, p);
    RestInOrder(s, q, n, left - 1, f, isMap, false);
  }

  /** The keys that the validator compares are the encodings of the keys of the tree. */
  lemma {:induction false} RestInOrder(s: seq<byte>, p: nat, n: nat, left: nat, f: Policy, isMap: bool, odd: bool)
    requires p <= |s| && AcceptRest(s, p, Some(n), left, f, isMap, odd).Some? && AsksForOrder(f)
    ensures ParseItems(s, p, n, left).Some? && AllEncodable(ParseItems(s, p, n, left).value.0)
    ensures AllInOrder(ParseItems(s, p, n, left).value.0, f.Unique())
    ensures isMap ==>
      AcceptRest(s, p, Some(n), left, f, isMap, odd).value.0 == KeysOf(ParseItems(s, p, n, left).value.0, odd)
    decreases |s| - p, 2
  {
    hide Accept, ParseItem, KeyIsText, Encode, Encodable, KeysInOrder;
    AcceptedRest(s, p, Some(n), left, f, isMap, odd);
    if n > 0 {
      AcceptedIsEncoding(s, p, left, f);
      AcceptedInOrder(s, p, left, f);
      RestInOrder(s, Accept(s, p, left, f).value, n - 1, left, f, isMap, !odd);
      var first := ParseItem(s, p, left).value;
      var rest := ParseItems(s, first.1, n - 1, left).value.0;
      assert ([first.0] + rest)[1..] == rest;
    }
  }

  // ---------- What sorting adds, in terms of the bytes ----------

  /** The items of a container (n of them, or up to a break) are at their end. */
  predicate AtEnd(s: seq<byte>, p: nat, n: Option<nat>) {
    n == Some(0) || (n.None? && BreakAt(s, p))
  }

  function OneLess(n: Option<nat>): Option<nat>
    requires n != Some(0)
  {
    if n.None? then None else Some(n.value - 1)
  }

  /**
   The bytes of the keys from p on, as they stand in the buffer.  The end of an
   item is that of the well-formed item with containers at most depth deep.
   */
  function KeyBytes(s: seq<byte>, p: nat, n: Option<nat>, depth: nat, odd: bool): seq<seq<byte>>
    decreases |s| - p
  {
    if AtEnd(s, p, n) || ParseItem(s, p, depth).None? then []
    else
      var end := ParseItem(s, p, depth).value.1;
      (if odd then [] else [s[p..end]]) + KeyBytes(s, end, OneLess(n), depth, !odd)
  }

  /** In every map in the item at p, at any depth, the bytes of the keys are in order, and distinct if unique is set. */
  ghost predicate BytesInOrder(s: seq<byte>, p: nat, depth: nat, unique: bool)
    decreases |s| - p, 0
  {
    HeadOk(s, p)
    && if InfoAt(s, p) == INDEFINITE then
      MajorAt(s, p) <= TEXT_STRING || ContentInOrder(s, p + 1, None, depth, MajorAt(s, p) == MAP, unique)
    else
      var v, q := HeadValue(s, p), HeadEnd(s, p);
      match MajorAt(s, p)
      case 4 => ContentInOrder(s, q, Some(v), depth, false, unique)
      case 5 => ContentInOrder(s, q, Some(2 * v), depth, true, unique)
      case 6 => BytesInOrder(s, q, depth, unique)
      case _ => true
  }

  /** The same for the content of a container. */
  ghost predicate ContentInOrder(s: seq<byte>, p: nat, n: Option<nat>, depth: nat, isMap: bool, unique: bool)
    decreases |s| - p, 2
  {
    (isMap ==> Ordered(KeyBytes(s, p, n, depth, false), unique)) && ItemsInOrder(s, p, n, depth, unique)
  }

  ghost predicate ItemsInOrder(s: seq<byte>, p: nat, n: Option<nat>, depth: nat, unique: bool)
    decreases |s| - p, 1
  {
    AtEnd(s, p, n)
    || (BytesInOrder(s, p, depth, unique) && ParseItem(s, p, depth).Some?
        && ItemsInOrder(s, ParseItem(s, p, depth).value.1, OneLess(n), depth, unique))
  }

  /** The policy with sorting turned off. */
  function Unsorted(f: Policy): (g: Policy)
    ensures !g.Sorts() && g.noIndeterminateLength == f.noIndeterminateLength
  {
    f.(anyBit := false, mapIsSorted := false, mapKeysAreUnique := false)
  }

  /** r, if the condition holds. */
  function OnlyIf<T>(condition: bool, r: Option<T>): Option<T> {
    if condition then r else None
  }

  /**
   Sorting asks for exactly this: in every map, at any depth, the bytes of the
   keys are in order.  What else a policy asks for is the same without it.
   */
  lemma {:induction false} SortingAddsOrder(s: seq<byte>, p: nat, left: nat, depth: nat, f: Policy)
    requires left <= depth
    ensures Accept(s, p, left, f)
      == OnlyIf(f.Sorts() ==> BytesInOrder(s, p, depth, f.Unique()), Accept(s, p, left, Unsorted(f)))
    decreases |s| - p, 2
  {
    hide Accept, HeadOk, BytesInOrder, HeadValue;
    NoHeadNotAccepted(s, p, left, f);
    NoHeadNotAccepted(s, p, left, Unsorted(f));
    if HeadOk(s, p) {
      HeadIsInside(s, p);
      if InfoAt(s, p) == INDEFINITE {
        IndefiniteAddsOrder(s, p, left, depth, f);
      } else {
        KnownAddsOrder(s, p, left, depth, f);
      }
    }
  }

  lemma {:induction false} ChunksNeedNoBits(s: seq<byte>, p: nat, m: major, f: Policy, g: Policy)
    requires f.shortestIntegrals == g.shortestIntegrals && f.textAllowed == g.textAllowed
    ensures AcceptChunks(s, p, m, f) == AcceptChunks(s, p, m, g)
    decreases |s| - p
  {
    hide HeadValue;
    if p < |s| && HeadFits(s, p) {
      ChunksNeedNoBits(s, HeadEnd(s, p) + HeadValue(s, p), m, f, g);
    }
  }

  lemma HeadIsInside(s: seq<byte>, p: nat)
    requires HeadOk(s, p)
    ensures p < |s|
  {}

  lemma {:induction false} IndefiniteAddsOrder(s: seq<byte>, p: nat, left: nat, depth: nat, f: Policy)
    requires left <= depth && p < |s| && HeadOk(s, p) && InfoAt(s, p) == INDEFINITE
    ensures Accept(s, p, left, f)
      == OnlyIf(f.Sorts() ==> BytesInOrder(s, p, depth, f.Unique()), Accept(s, p, left, Unsorted(f)))
    decreases |s| - p, 0
  {
    hide HeadValue, AcceptRest, AcceptChunks, Ordered, KeyBytes, ItemsInOrder;
    ChunksNeedNoBits(s, p + 1, MajorAt(s, p), f, Unsorted(f));
    if left > 0 {
      RestAddsOrder(s, p + 1, None, left - 1, depth, f, MajorAt(s, p) == MAP, false);
    }
  }

  lemma {:induction false} KnownAddsOrder(s: seq<byte>, p: nat, left: nat, depth: nat, f: Policy)
    requires left <= depth && p < |s| && HeadOk(s, p) && InfoAt(s, p) != INDEFINITE
    ensures Accept(s, p, left, f)
      == OnlyIf(f.Sorts() ==> BytesInOrder(s, p, depth, f.Unique()), Accept(s, p, left, Unsorted(f)))
    decreases |s| - p, 1
  {
    hide Accept, HeadOk, BytesInOrder;
    var m := MajorAt(s, p);
    if m == ARRAY || m == MAP {
      ListAddsOrder(s, p, left, depth, f);
    } else if m == TAG {
      TaggedAddsOrder(s, p, left, depth, f);
    } else {
      LeafAddsOrder(s, p, left, depth, f);
    }
  }

  lemma {:induction false} ListAddsOrder(s: seq<byte>, p: nat, left: nat, depth: nat, f: Policy)
    requires left <= depth && p < |s| && HeadOk(s, p) && InfoAt(s, p) != INDEFINITE
    requires MajorAt(s, p) == ARRAY || MajorAt(s, p) == MAP
    ensures Accept(s, p, left, f)
      == OnlyIf(f.Sorts() ==> BytesInOrder(s, p, depth, f.Unique()), Accept(s, p, left, Unsorted(f)))
    decreases |s| - p, 0
  {
    hide HeadValue, HeadPlain, AcceptRest, Ordered, KeyBytes, ItemsInOrder;
    HeadPlainUnsorted(s, p, f);
    var isMap, q := MajorAt(s, p) == MAP, HeadEnd(s, p);
    if left > 0 {
      var n := if isMap then 2 * HeadValue(s, p) else HeadValue(s, p);
      RestAddsOrder(s, q, Some(n), left - 1, depth, f, isMap, false);
    }
  }

  lemma {:induction false} TaggedAddsOrder(s: seq<byte>, p: nat, left: nat, depth: nat, f: Policy)
    requires left <= depth && p < |s| && HeadOk(s, p) && InfoAt(s, p) != INDEFINITE
    requires MajorAt(s, p) == TAG
    ensures Accept(s, p, left, f)
      == OnlyIf(f.Sorts() ==> BytesInOrder(s, p, depth, f.Unique()), Accept(s, p, left, Unsorted(f)))
    decreases |s| - p, 0
  {
    hide HeadValue, HeadPlain, TypeAt;
    HeadPlainUnsorted(s, p, f);
    if left > 0 {
      SortingAddsOrder(s, HeadEnd(s, p), left - 1, depth, f);
    }
  }

  lemma {:induction false} LeafAddsOrder(s: seq<byte>, p: nat, left: nat, depth: nat, f: Policy)
    requires p < |s| && HeadOk(s, p) && InfoAt(s, p) != INDEFINITE
    requires MajorAt(s, p) != ARRAY && MajorAt(s, p) != MAP && MajorAt(s, p) != TAG
    ensures Accept(s, p, left, f)
      == OnlyIf(f.Sorts() ==> BytesInOrder(s, p, depth, f.Unique()), Accept(s, p, left, Unsorted(f)))
  {
    hide HeadValue, HeadPlain, TypeAt;
    HeadPlainUnsorted(s, p, f);
  }

  lemma HeadPlainUnsorted(s: seq<byte>, p: nat, f: Policy)
    requires HeadOk(s, p) && InfoAt(s, p) != INDEFINITE
    ensures HeadFits(s, p) && (HeadPlain(s, p, Unsorted(f)) <==> HeadPlain(s, p, f))
  {
    hide HeadValue;
  }

  lemma {:induction false} RestAddsOrder(s: seq<byte>, p: nat, n: Option<nat>, left: nat, depth: nat, f: Policy,
                                         isMap: bool, odd: bool)
    requires left <= depth
    ensures var r := AcceptRest(s, p, n, left, Unsorted(f), isMap, odd);
      AcceptRest(s, p, n, left, f, isMap, odd)
      == OnlyIf(f.Sorts() ==> ItemsInOrder(s, p, n, depth, f.Unique()), r)
    ensures var r := AcceptRest(s, p, n, left, Unsorted(f), isMap, odd);
      r.Some? && isMap ==> r.value.0 == KeyBytes(s, p, n, depth, odd)
    decreases |s| - p, 3
  {
    hide Accept, KeyIsText, ParseItem, BytesInOrder, KeyBytes;
    SortingAddsOrder(s, p, left, depth, f);
    KeysStart(s, p, n, depth, odd);
    var first := Accept(s, p, left, Unsorted(f));
    if first.Some? && !AtEnd(s, p, n) {
      AcceptedIsEncoding(s, p, left, Unsorted(f));
      DeeperIsFine(s, p, left, depth);
      RestAddsOrder(s, first.value, OneLess(n), left, depth, f, isMap, !odd);
    }
  }

  lemma KeysStart(s: seq<byte>, p: nat, n: Option<nat>, depth: nat, odd: bool)
    ensures AtEnd(s, p, n) ==> KeyBytes(s, p, n, depth, odd) == []
    ensures !AtEnd(s, p, n) && ParseItem(s, p, depth).Some? ==>
      var end := ParseItem(s, p, depth).value.1;
      KeyBytes(s, p, n, depth, odd)
      == (if odd then [] else [s[p..end]]) + KeyBytes(s, end, OneLess(n), depth, !odd)
  {
    hide ParseItem;
  }

  // ---------- What uniqueness adds ----------

  /** No two keys have the same bytes. */
  ghost predicate Distinct(keys: seq<seq<byte>>) {
    forall i, j :: 0 <= i < j < |keys| ==> keys[i] != keys[j]
  }

  /** No map in the item at p, at any depth, has two keys with the same bytes. */
  ghost predicate BytesDistinct(s: seq<byte>, p: nat, depth: nat)
    decreases |s| - p, 0
  {
    HeadOk(s, p)
    && if InfoAt(s, p) == INDEFINITE then
      MajorAt(s, p) <= TEXT_STRING || ContentDistinct(s, p + 1, None, depth, MajorAt(s, p) == MAP)
    else
      var v, q := HeadValue(s, p), HeadEnd(s, p);
      match MajorAt(s, p)
      case 4 => ContentDistinct(s, q, Some(v), depth, false)
      case 5 => ContentDistinct(s, q, Some(2 * v), depth, true)
      case 6 => BytesDistinct(s, q, depth)
      case _ => true
  }

  ghost predicate ContentDistinct(s: seq<byte>, p: nat, n: Option<nat>, depth: nat, isMap: bool)
    decreases |s| - p, 2
  {
    (isMap ==> Distinct(KeyBytes(s, p, n, depth, false))) && ItemsDistinct(s, p, n, depth)
  }

  ghost predicate ItemsDistinct(s: seq<byte>, p: nat, n: Option<nat>, depth: nat)
    decreases |s| - p, 1
  {
    AtEnd(s, p, n)
    || (BytesDistinct(s, p, depth) && ParseItem(s, p, depth).Some?
        && ItemsDistinct(s, ParseItem(s, p, depth).value.1, OneLess(n), depth))
  }

  lemma OrderedAndDistinct(keys: seq<seq<byte>>)
    ensures Ordered(keys, true) <==> Ordered(keys, false) && Distinct(keys)
  {
    forall i, j | 0 <= i < j < |keys|
      ensures MayFollow(keys[i], keys[j], true) <==> MayFollow(keys[i], keys[j], false) && keys[i] != keys[j]
    {
      CompareIsOrder(keys[i], keys[j]);
    }
  }

  /** In order and distinct is in order without equal keys, and distinct. */
  lemma {:induction false} InOrderAndDistinct(s: seq<byte>, p: nat, depth: nat)
    ensures BytesInOrder(s, p, depth, true) <==> BytesInOrder(s, p, depth, false) && BytesDistinct(s, p, depth)
    decreases |s| - p, 0
  {
    hide ContentInOrder, ContentDistinct, HeadValue;
    if HeadOk(s, p) {
      HeadIsInside(s, p);
      if InfoAt(s, p) == INDEFINITE {
        ContentAndDistinct(s, p + 1, None, depth, MajorAt(s, p) == MAP);
      } else {
        var q, v := HeadEnd(s, p), HeadValue(s, p);
        InOrderAndDistinct(s, q, depth);
        ContentAndDistinct(s, q, Some(v), depth, false);
        ContentAndDistinct(s, q, Some(2 * v), depth, true);
      }
    }
  }

  lemma {:induction false} ContentAndDistinct(s: seq<byte>, p: nat, n: Option<nat>, depth: nat, isMap: bool)
    ensures ContentInOrder(s, p, n, depth, isMap, true)
      <==> ContentInOrder(s, p, n, depth, isMap, false) && ContentDistinct(s, p, n, depth, isMap)
    decreases |s| - p, 2
  {
    hide Ordered, Distinct, ItemsInOrder, ItemsDistinct, KeyBytes;
    OrderedAndDistinct(KeyBytes(s, p, n, depth, false));
    ItemsAndDistinct(s, p, n, depth);
  }

  lemma {:induction false} ItemsAndDistinct(s: seq<byte>, p: nat, n: Option<nat>, depth: nat)
    ensures ItemsInOrder(s, p, n, depth, true) <==> ItemsInOrder(s, p, n, depth, false) && ItemsDistinct(s, p, n, depth)
    decreases |s| - p, 1
  {
    hide BytesInOrder, BytesDistinct, ParseItem;
    if !AtEnd(s, p, n) {
      InOrderAndDistinct(s, p, depth);
      if ParseItem(s, p, depth).Some? {
        ItemsAndDistinct(s, ParseItem(s, p, depth).value.1, OneLess(n), depth);
      }
    }
  }

  /**
   The flag for unique keys, with all three of its bits set, asks for exactly
   this: in no map, at any depth, two keys have the same bytes.  With any of the
   three bits clear the bit of its own changes nothing.
   */
  lemma {:induction false} UniquenessExactly(s: seq<byte>, p: nat, left: nat, f: Policy)
    ensures var g := f.(mapKeysAreUnique := false);
      Accept(s, p, left, f)
      == if f.mapKeysAreUnique && f.mapIsSorted && f.noIndeterminateLength
         then OnlyIf(BytesDistinct(s, p, left), Accept(s, p, left, g))
         else Accept(s, p, left, g)
  {
    hide Accept, BytesInOrder, BytesDistinct;
    var g := f.(mapKeysAreUnique := false);
    SortingAddsOrder(s, p, left, left, f);
    SortingAddsOrder(s, p, left, left, g);
    assert Unsorted(f) == Unsorted(g);
    InOrderAndDistinct(s, p, left);
  }

  /** Twice the same number as a key. */
  const TWICE: seq<byte> := [0xa2, 0x01, 0x00, 0x01, 0x00]

  /** With all three bits the bytes A2 01 00 01 00 are refused, and with only those for sorting they are not. */
  lemma {:induction false} RepeatedKeyRefused(f: Policy)
    requires f.mapKeysAreUnique && f.mapIsSorted && f.noIndeterminateLength && !f.mapKeysAreString
    ensures Accept(TWICE, 0, MAX_RECURSIONS, f).None?
    ensures Accept(TWICE, 0, MAX_RECURSIONS, f.(mapKeysAreUnique := false)).Some?
  {
    hide Accept;
    RepeatedKey(f);
    RepeatedKey(f.(mapKeysAreUnique := false));
  }

  lemma {:induction false} RepeatedKey(f: Policy)
    requires f.mapIsSorted && f.noIndeterminateLength && !f.mapKeysAreString
    ensures Accept(TWICE, 0, MAX_RECURSIONS, f).Some? <==> !f.mapKeysAreUnique
  {
    hide Accept;
    var s, left := TWICE, MAX_RECURSIONS - 1;
    SmallNumber(s, 1, left, f);
    SmallNumber(s, 2, left, f);
    SmallNumber(s, 3, left, f);
    SmallNumber(s, 4, left, f);
    TwoPairs(s, left + 1, f, 2, 3, 4, 5);
    CompareIsOrder(s[1..2], s[3..4]);
    assert s[1..2] == s[3..4];
  }

  // ---------- What the flags for simple values add ----------

  /**
   Of the simple values, false, true and null are always valid, undefined unless
   its flag is set, the others below 32 unless the flag for unassigned values
   below 32 is set, and those from 32 on unless both bits of the flag for all
   unassigned values are.
   */
  lemma {:induction false} SimpleExactly(s: seq<byte>, p: nat, left: nat, f: Policy)
    requires HeadOk(s, p) && s[p] / 32 == 7 && s[p] % 32 <= 24
    ensures var v := if s[p] % 32 == 24 then s[p + 1] else s[p] % 32;
      Accept(s, p, left, f).Some?
      <==> if v == 20 || v == 21 || v == 22 then true
           else if v == 23 then !f.noUndefined
           else if v < 32 then !f.noUnknownSimpleSA
           else !(f.noUnknownSimpleSA && f.noUnknownSimple)
  {
    hide ValueOf, Head;
    SimpleHead(s, p);
    if s[p] % 32 < 24 {
      OneByteHead(s, p, f);
    } else {
      TwoByteHead(s, p);
    }
  }

  lemma SimpleHead(s: seq<byte>, p: nat)
    requires HeadOk(s, p) && s[p] / 32 == 7 && s[p] % 32 <= 24
    ensures HeadFits(s, p) && MajorAt(s, p) == SIMPLE && InfoAt(s, p) == s[p] % 32 && !IsFloatAt(s, p)
    ensures s[p] % 32 == 24 ==> p + 2 <= |s| && HeadValue(s, p) == s[p + 1] >= 32
  {
    if s[p] % 32 == 24 {
      OneByteValue(s[p + 1]);
      assert s[p + 1..p + 2] == [s[p + 1]];
    }
  }

  lemma TwoByteHead(s: seq<byte>, p: nat)
    requires HeadFits(s, p) && InfoAt(s, p) == 24 && 24 <= HeadValue(s, p) <= MAX_UINT64
    ensures s[p..HeadEnd(s, p)] == Head(MajorAt(s, p), HeadValue(s, p))
  {
    hide Head;
    HeadIsShortest(s, p);
    TwoBytes(MajorAt(s, p), HeadValue(s, p));
  }

  lemma TwoBytes(m: major, v: nat)
    requires 24 <= v <= MAX_UINT64
    ensures |Head(m, v)| >= 2
  {}

  // ---------- When the order of keys is checked ----------

  /** Policies that differ only in how the bits for sorting are read. */
  ghost predicate SameButBits(f: Policy, g: Policy) {
    g == f.(anyBit := g.anyBit)
  }

  /** What is accepted depends on whether keys are to be sorted, not on the bits that say so. */
  lemma {:induction false} AcceptNeedsSorts(s: seq<byte>, p: nat, left: nat, f: Policy, g: Policy)
    requires SameButBits(f, g) && f.Sorts() == g.Sorts()
    ensures Accept(s, p, left, f) == Accept(s, p, left, g)
  {
    hide Accept, BytesInOrder;
    SortingAddsOrder(s, p, left, left, f);
    SortingAddsOrder(s, p, left, left, g);
    assert Unsorted(f) == Unsorted(g);
  }

  /** The same bytes are accepted with the bits of the policy read either way. */
  ghost predicate ReadAsDocumented(f: Policy) {
    forall s: seq<byte>, p: nat, left: nat :: Accept(s, p, left, f) == Accept(s, p, left, f.(anyBit := false))
  }

  /** Two one-letter texts as keys. */
  const UNSORTED_TEXT: seq<byte> := [0xa2, 0x61, 0x62, 0x00, 0x61, 0x61, 0x00]

  /** Two numbers as keys. */
  const UNSORTED: seq<byte> := [0xa2, 0x02, 0x00, 0x01, 0x00]

  /**
   The code checks the order of keys as documented, for all bytes, if and only
   if the bits for sorting and for known lengths are set together or not at
   all.  (Texts of one letter are UTF-8.)
   */
  lemma {:induction false} SortingAsDocumentedExactly(f: Policy)
    requires f.anyBit && f.textAllowed([0x61]) && f.textAllowed([0x62])
    ensures ReadAsDocumented(f) <==> f.mapIsSorted == f.noIndeterminateLength
  {
    var g := f.(anyBit := false);
    if f.mapIsSorted == f.noIndeterminateLength {
      forall s: seq<byte>, p: nat, left: nat
        ensures Accept(s, p, left, f) == Accept(s, p, left, g)
      {
        AcceptNeedsSorts(s, p, left, f, g);
      }
    } else {
      UnsortedTextKeys(f);
      UnsortedTextKeys(g);
      assert Accept(UNSORTED_TEXT, 0, 2, f) != Accept(UNSORTED_TEXT, 0, 2, g);
    }
  }

  /** A head of one byte: it has the value of its low bits, and no head is shorter. */
  lemma {:induction false} OneByteHead(s: seq<byte>, p: nat, f: Policy)
    requires p < |s| && s[p] % 32 < 24
    ensures HeadOk(s, p) && HeadFits(s, p) && InfoAt(s, p) == HeadValue(s, p) == s[p] % 32 && HeadEnd(s, p) == p + 1
    ensures HeadPlain(s, p, f)
  {
    assert s[p..p + 1] == [s[p]];
  }

  lemma {:induction false} SmallNumber(s: seq<byte>, p: nat, left: nat, f: Policy)
    requires p < |s| && s[p] < 24
    ensures Accept(s, p, left, f) == Some(p + 1)
  {
    hide HeadValue, HeadPlain;
    OneByteHead(s, p, f);
  }

  lemma {:induction false} OneLetter(s: seq<byte>, p: nat, left: nat, f: Policy)
    requires p + 1 < |s| && s[p] == 0x61 && f.textAllowed([s[p + 1]])
    ensures Accept(s, p, left, f) == Some(p + 2) && KeyIsText(s, p)
  {
    hide HeadValue, HeadPlain;
    OneByteHead(s, p, f);
    assert s[p + 1..p + 2] == [s[p + 1]];
  }

  /** A map of two pairs is accepted if its keys need not be sorted, or are. */
  lemma {:induction false} TwoPairs(s: seq<byte>, left: nat, f: Policy, a: nat, b: nat, c: nat, d: nat)
    requires s != [] && s[0] == 0xa2
    requires left > 1 && Accept(s, 1, left - 1, f) == Some(a) && Accept(s, a, left - 1, f) == Some(b)
    requires Accept(s, b, left - 1, f) == Some(c) && Accept(s, c, left - 1, f) == Some(d)
    requires f.mapKeysAreString ==> KeyIsText(s, 1) && KeyIsText(s, b)
    ensures Accept(s, 0, left, f).Some? <==> f.Sorts() ==> MayFollow(s[1..a], s[b..c], f.Unique())
  {
    hide HeadValue, HeadPlain, Accept, AcceptRest, KeyIsText, Ordered, MayFollow;
    RestOfFour(s, left - 1, f, a, b, c, d);
    MapOfTwo(s, left, f);
    TwoOrdered(s[1..a], s[b..c], f.Unique());
  }

  lemma {:induction false} MapOfTwo(s: seq<byte>, left: nat, f: Policy)
    requires s != [] && s[0] == 0xa2 && left > 1
    ensures var r := AcceptRest(s, 1, Some(4), left - 1, f, true, false);
      Accept(s, 0, left, f) == if r.None? || !KeysOk(true, r.value.0, f) then None else Some(r.value.1)
  {
    hide HeadValue, HeadPlain, AcceptRest, KeysOk;
    OneByteHead(s, 0, f);
  }

  lemma TwoOrdered(a: seq<byte>, b: seq<byte>, unique: bool)
    ensures Ordered([a, b], unique) <==> MayFollow(a, b, unique)
  {
    hide MayFollow;
    var keys := [a, b];
    assert Ordered(keys, unique) ==> MayFollow(keys[0], keys[1], unique);
  }

  /** A pair in front of the rest of a map puts its key in front of the keys. */
  lemma {:induction false} OnePair(s: seq<byte>, p: nat, n: nat, left: nat, f: Policy, mid: nat, end: nat)
    requires Accept(s, p, left, f) == Some(mid) && Accept(s, mid, left, f) == Some(end)
    requires f.mapKeysAreString ==> KeyIsText(s, p)
    ensures AcceptRest(s, p, Some(n + 2), left, f, true, false)
      == KeysBefore([s[p..mid]], AcceptRest(s, end, Some(n), left, f, true, false))
  {
    hide Accept, KeyIsText;
    assert AcceptRest(s, mid, Some(n + 1), left, f, true, true) == AcceptRest(s, end, Some(n), left, f, true, false);
  }

  lemma {:induction false} RestOfFour(s: seq<byte>, left: nat, f: Policy, a: nat, b: nat, c: nat, d: nat)
    requires Accept(s, 1, left, f) == Some(a) && Accept(s, a, left, f) == Some(b)
    requires Accept(s, b, left, f) == Some(c) && Accept(s, c, left, f) == Some(d)
    requires f.mapKeysAreString ==> KeyIsText(s, 1) && KeyIsText(s, b)
    ensures AcceptRest(s, 1, Some(4), left, f, true, false) == Some(([s[1..a], s[b..c]], d))
  {
    hide Accept, AcceptRest, KeyIsText;
    OnePair(s, 1, 2, left, f, a, b);
    OnePair(s, b, 0, left, f, c, d);
    RestStarts(s, d, Some(0), left, f, true, false);
    assert [s[1..a]] + ([s[b..c]] + []) == [s[1..a], s[b..c]];
  }

  lemma {:induction false} UnsortedTextKeys(f: Policy)
    requires f.textAllowed([0x61]) && f.textAllowed([0x62])
    ensures Accept(UNSORTED_TEXT, 0, 2, f).Some? <==> !f.Sorts()
  {
    hide Accept, KeyIsText;
    var s := UNSORTED_TEXT;
    OneLetter(s, 1, 1, f);
    SmallNumber(s, 3, 1, f);
    OneLetter(s, 4, 1, f);
    SmallNumber(s, 6, 1, f);
    TwoPairs(s, 2, f, 3, 4, 6, 7);
    assert s[1..3] == [0x61, 0x62] && s[4..6] == [0x61, 0x61];
    assert !LexLess([0x62], [0x61]) && [0x61, 0x62][1..] == [0x62] && [0x61, 0x61][1..] == [0x61];
  }

  /** With the flag for known lengths alone, keys in the wrong order are refused, though sorting was not asked for. */
  lemma {:induction false} KnownLengthsCheckOrder(f: Policy)
    requires f.anyBit && f.noIndeterminateLength && !f.mapIsSorted && !f.mapKeysAreString
    ensures Accept(UNSORTED, 0, MAX_RECURSIONS, f).None?
    ensures Accept(UNSORTED, 0, MAX_RECURSIONS, f.(anyBit := false)).Some?
  {
    hide Accept;
    UnsortedKeys(f);
    UnsortedKeys(f.(anyBit := false));
  }

  lemma {:induction false} UnsortedKeys(f: Policy)
    requires !f.mapKeysAreString
    ensures Accept(UNSORTED, 0, MAX_RECURSIONS, f).Some? <==> !f.Sorts()
  {
    hide Accept;
    var s, left := UNSORTED, MAX_RECURSIONS - 1;
    SmallNumber(s, 1, left, f);
    SmallNumber(s, 2, left, f);
    SmallNumber(s, 3, left, f);
    SmallNumber(s, 4, left, f);
    TwoPairs(s, left + 1, f, 2, 3, 4, 5);
    assert s[1..2] == [2] && s[3..4] == [1];
  }
}
