/** What each flag of the validator asks of a tree, and that on the encoding of a tree it asks for just that. */
module CborPermitted {
  import opened Bytes
  import opened Wrappers
  import opened CborFormat
  import opened CborTree
  import opened CborCursor
  import opened CborValidation
  import opened CborCanonical
  import opened CborBasic

  // ---------- What a policy asks of a tree ----------

  /** A text string, with or without tags. */
  predicate IsText(t: Item) {
    match t
    case Str(text, _) => text
    case Tagged(_, item) => IsText(item)
    case _ => false
  }

  /** The type of an item as the tag table names it. */
  function TypeOf(t: Item): nat {
    match t
    case Number(_, _) => 0x00
    case Str(text, _) => if text then 0x60 else 0x40
    case Array(_, _) => 0x80
    case Map(_, _) => 0xa0
    case Tagged(_, _) => 0xc0
    case Simple(v) => if v == 20 || v == 21 then 0xf5 else if v == 22 || v == 23 then 0xe0 + v else 0xe0
    case Float(kind, _) => 0xf9 + kind
  }

  predicate SimplePermitted(v: nat, f: Policy) {
    if v == 20 || v == 21 || v == 22 then true
    else if v == 23 then !f.noUndefined
    else if v < 32 then !f.noUnknownSimpleSA
    else !(f.noUnknownSimpleSA && f.noUnknownSimple)
  }

  /** The items at even places are texts; odd says that the first one stands at an odd place. */
  predicate TextKeys(items: seq<Item>, odd: bool) {
    items == [] || ((odd || IsText(items[0])) && TextKeys(items[1..], !odd))
  }

  /** The keys stand in order, and distinct when all three bits of that flag are set. */
  ghost predicate KeysPermitted(items: seq<Item>, f: Policy)
    requires AllEncodable(items)
  {
    (if f.anyBit then f.mapIsSorted || f.noIndeterminateLength else f.mapIsSorted && f.noIndeterminateLength) ==>
      Ordered(KeysOf(items, false), f.mapKeysAreUnique && f.mapIsSorted && f.noIndeterminateLength)
  }

  /** All flags but the one for shortest numbers, in terms of the tree. */
  ghost predicate Permitted(t: Item, f: Policy)
    requires Encodable(t)
  {
    match t
    case Number(_, _) => true
    case Str(text, c) => text ==> f.textAllowed(c)
    case Array(known, items) => (known || !f.noIndeterminateLength) && AllPermitted(items, f)
    case Map(known, items) =>
      (known || !f.noIndeterminateLength) && AllPermitted(items, f) && KeysPermitted(items, f)
      && (f.mapKeysAreString ==> TextKeys(items, false))
    case Tagged(tag, item) => f.tagAllowed(tag, TypeOf(item)) && Permitted(item, f)
    case Simple(v) => SimplePermitted(v, f)
    case Float(kind, bits) => f.floatAllowed(0xf9 + kind, bits)
  }

  ghost predicate AllPermitted(items: seq<Item>, f: Policy)
    requires AllEncodable(items)
  {
    items == [] || (Permitted(items[0], f) && AllPermitted(items[1..], f))
  }

  function EndIf(condition: bool, end: nat): Option<nat> {
    if condition then Some(end) else None
  }

  // ---------- The heads of an encoding ----------

  lemma HeadStands(s: seq<byte>, p: nat, m: major, v: nat, f: Policy)
    requires v <= MAX_UINT64 && Stands(s, p, Head(m, v)) && (m == SIMPLE ==> v < 24 || 32 <= v)
    ensures HeadFits(s, p) && MajorAt(s, p) == m && InfoAt(s, p) == Info(v) && HeadOk(s, p)
    ensures HeadValue(s, p) == v && HeadEnd(s, p) == p + |Head(m, v)| && HeadPlain(s, p, f)
  {
    hide HeadValue, Head;
    HeadReadsBack(s, p, m, v);
  }

  /** The type that the iterator sees is that of the tree. */
  lemma TypeOfEncoding(t: Item, s: seq<byte>, p: nat)
    requires Encodable(t) && Stands(s, p, Encode(t))
    ensures HeadOk(s, p) && TypeAt(s, p) == TypeOf(t) && s[p] != BREAK
  {
    FirstByte(t);
    assert s[p] == s[p..p + |Encode(t)|][0];
    ItemReadsBack(t, s, p, Depth(t));
    NoHeadNoItem(s, p, Depth(t));
  }

  /** The first byte of an encoding. */
  lemma FirstByte(t: Item)
    requires Encodable(t)
    ensures |Encode(t)| > 0
    ensures var b := Encode(t)[0];
      (b < 0x40 <==> t.Number?) && (0x40 <= b < 0x60 <==> t.Str? && !t.text)
      && (0x60 <= b < 0x80 <==> t.Str? && t.text) && (0x80 <= b < 0xa0 <==> t.Array?)
      && (0xa0 <= b < 0xc0 <==> t.Map?) && (0xc0 <= b < 0xe0 <==> t.Tagged?)
      && (t.Float? ==> b == 0xf9 + t.kind) && (t.Simple? ==> b == if t.value < 24 then 0xe0 + t.value else 0xf8)
  {
    hide BigEndian, Base;
  }

  lemma {:induction false} KeyIsTextExactly(t: Item, s: seq<byte>, p: nat)
    requires Encodable(t) && Stands(s, p, Encode(t))
    ensures KeyIsText(s, p) <==> IsText(t)
  {
    hide Head, HeadOk, TypeAt, HeadValue;
    TypeOfEncoding(t, s, p);
    if t.Tagged? {
      StandsConcat(s, p, Head(TAG, t.tag), Encode(t.item));
      HeadReadsBack(s, p, TAG, t.tag);
      KeyIsTextExactly(t.item, s, p + |Head(TAG, t.tag)|);
    }
  }

  // ---------- The validator on an encoding ----------

  /**
   On the encoding of a tree the validator decides exactly whether the policy
   permits the tree, for every policy, and whether containers and tags are
   nested less than left deep.
   */
  lemma {:induction false} PermittedExactly(t: Item, s: seq<byte>, p: nat, left: nat, f: Policy)
    requires Encodable(t) && 1 <= left && Stands(s, p, Encode(t))
    ensures Accept(s, p, left, f) == EndIf(Permitted(t, f) && Nesting(t) < left, p + |Encode(t)|)
    decreases t, 1
  {
    hide Accept, Head, BigEndian, Base, AllPermitted, Stands;
    match t
    case Number(negative, v) =>
      NumberPermitted(t, s, p, left, f);
    case Str(text, c) =>
      StrPermitted(t, s, p, left, f);
    case Array(known, items) =>
      if known {
        KnownPermitted(t, items, s, p, left, f);
      } else {
        ListPermitted(t, items, s, p, left, f);
      }
    case Map(known, items) =>
      if known {
        KnownPermitted(t, items, s, p, left, f);
      } else {
        ListPermitted(t, items, s, p, left, f);
      }
    case Tagged(tag, item) =>
      TaggedPermitted(t, s, p, left, f);
    case Simple(v) =>
      HeadOfSimple(s, p, left, v, f);
    case Float(kind, bits) =>
      FloatPermitted(s, p, left, kind, bits, f);
  }

  lemma {:induction false} NumberPermitted(t: Item, s: seq<byte>, p: nat, left: nat, f: Policy)
    requires t.Number? && Encodable(t) && Stands(s, p, Encode(t))
    ensures Accept(s, p, left, f) == Some(p + |Encode(t)|)
  {
    hide Head, HeadFits, HeadValue, HeadEnd, HeadPlain, HeadOk, Stands;
    HeadStands(s, p, if t.negative then NEGATIVE else UNSIGNED, t.value, f);
  }

  lemma {:induction false} StrPermitted(t: Item, s: seq<byte>, p: nat, left: nat, f: Policy)
    requires t.Str? && Encodable(t) && Stands(s, p, Encode(t))
    ensures Accept(s, p, left, f) == EndIf(t.text ==> f.textAllowed(t.content), p + |Encode(t)|)
  {
    hide Head, HeadFits, HeadValue, HeadEnd, HeadPlain, HeadOk;
    var m: major := if t.text then TEXT_STRING else BYTE_STRING;
    StandsConcat(s, p, Head(m, |t.content|), t.content);
    HeadStands(s, p, m, |t.content|, f);
  }

  lemma {:induction false} HeadOfSimple(s: seq<byte>, p: nat, left: nat, v: nat, f: Policy)
    requires (v < 24 || 32 <= v < 256) && Stands(s, p, Head(SIMPLE, v))
    ensures Accept(s, p, left, f) == EndIf(SimplePermitted(v, f), p + |Head(SIMPLE, v)|)
  {
    hide Head, HeadFits, HeadValue, HeadEnd, HeadPlain, HeadOk, Stands;
    HeadStands(s, p, SIMPLE, v, f);
  }

  lemma {:induction false} FloatPermitted(s: seq<byte>, p: nat, left: nat, kind: nat, bits: nat, f: Policy)
    requires kind <= 2 && bits < Base(Size(HALF_FLOAT + kind))
    requires Stands(s, p, [32 * SIMPLE + HALF_FLOAT + kind] + BigEndian(bits, Size(HALF_FLOAT + kind)))
    ensures Accept(s, p, left, f) == EndIf(f.floatAllowed(0xf9 + kind, bits), p + 1 + Size(HALF_FLOAT + kind))
  {
    hide BigEndian, Base, HeadFits, HeadOk, HeadEnd, HeadValue, Stands;
    FloatReadsBack(s, p, kind, bits);
  }

  lemma {:induction false} TaggedPermitted(t: Item, s: seq<byte>, p: nat, left: nat, f: Policy)
    requires t.Tagged? && Encodable(t) && 1 <= left && Stands(s, p, Encode(t))
    ensures Accept(s, p, left, f) == EndIf(Permitted(t, f) && Nesting(t) < left, p + |Encode(t)|)
    decreases t, 0
  {
    hide Accept, Permitted, Nesting, Encode, Encodable, Head, HeadFits, HeadValue, HeadEnd, HeadPlain, HeadOk, Stands,
      TypeAt, TypeOf;
    TaggedAsks(t, f);
    var q := p + |Head(TAG, t.tag)|;
    StandsConcat(s, p, Head(TAG, t.tag), Encode(t.item));
    HeadStands(s, p, TAG, t.tag, f);
    TypeOfEncoding(t.item, s, q);
    TaggedAccepts(s, p, left, f);
    if left > 1 {
      PermittedExactly(t.item, s, q, left - 1, f);
    }
  }

  lemma {:induction false} TaggedAsks(t: Item, f: Policy)
    requires t.Tagged? && Encodable(t)
    ensures t.tag <= MAX_UINT64 && Encodable(t.item) && Encode(t) == Head(TAG, t.tag) + Encode(t.item)
    ensures Permitted(t, f) <==> f.tagAllowed(t.tag, TypeOf(t.item)) && Permitted(t.item, f)
    ensures Nesting(t) == 1 + Nesting(t.item)
  {
    hide Head, TypeOf;
  }

  lemma {:induction false} TaggedAccepts(s: seq<byte>, p: nat, left: nat, f: Policy)
    requires HeadOk(s, p) && HeadFits(s, p) && HeadPlain(s, p, f) && MajorAt(s, p) == TAG
    ensures var q := HeadEnd(s, p);
      Accept(s, p, left, f)
      == if left <= 1 || !HeadOk(s, q) || !f.tagAllowed(HeadValue(s, p), TypeAt(s, q)) then None
         else Accept(s, q, left - 1, f)
  {
    hide HeadValue, HeadPlain, TypeAt;
  }

  /** What is asked of the items of a container, one by one. */
  ghost predicate RestAllowed(items: seq<Item>, left: nat, f: Policy, isMap: bool, odd: bool)
    requires AllEncodable(items)
  {
    AllPermitted(items, f) && NestingOfAll(items) < left && (isMap && f.mapKeysAreString ==> TextKeys(items, odd))
  }

  lemma {:induction false} FirstAllowed(items: seq<Item>, left: nat, f: Policy, isMap: bool, odd: bool)
    requires items != [] && AllEncodable(items)
    ensures RestAllowed(items, left, f, isMap, odd)
      <==> Permitted(items[0], f) && Nesting(items[0]) < left
           && (isMap && !odd && f.mapKeysAreString ==> IsText(items[0]))
           && RestAllowed(items[1..], left, f, isMap, !odd)
  {
    hide Permitted, Nesting, IsText, Encodable;
  }

  /** What a container asks for, in terms of the outcome for its items. */
  lemma {:induction false} ContainerAsks(t: Item, items: seq<Item>, p: nat, left: nat, f: Policy)
    requires (t.Array? && items == t.items) || (t.Map? && items == t.items)
    requires Encodable(t) && 1 <= left
    ensures AllEncodable(items) && Nesting(t) >= 1
    ensures left > 1 ==> var r := Outcome(items, p, left - 1, f, t.Map?, false);
      (Permitted(t, f) && Nesting(t) < left)
      == ((t.known || !f.noIndeterminateLength) && r.Some? && KeysOk(t.Map?, r.value.0, f))
      && (r.Some? ==> r.value.1 == p + |EncodeAll(items)|)
  {
    hide KeysOf, Ordered, NestingOfAll, AllPermitted, AllEncodable, EncodeAll, TextKeys;
  }

  lemma {:induction false} KnownPermitted(t: Item, items: seq<Item>, s: seq<byte>, p: nat, left: nat, f: Policy)
    requires (t == Array(true, items) || t == Map(true, items)) && Encodable(t)
    requires 1 <= left && Stands(s, p, Encode(t))
    ensures Accept(s, p, left, f) == EndIf(Permitted(t, f) && Nesting(t) < left, p + |Encode(t)|)
    decreases items, 1
  {
    hide Head, HeadFits, HeadValue, HeadEnd, HeadPlain, HeadOk, EncodeAll, AcceptRest, KeysOk, Stands, AllEncodable,
      Permitted, Nesting, Outcome;
    var m: major, v := if t.Map? then MAP else ARRAY, if t.Map? then |items| / 2 else |items|;
    var q := p + |Head(m, v)|;
    StandsConcat(s, p, Head(m, v), EncodeAll(items));
    HeadStands(s, p, m, v, f);
    ContainerAsks(t, items, q, left, f);
    if left > 1 {
      RestPermitted(items, s, q, Some(|items|), left - 1, f, t.Map?, false);
    }
  }

  lemma {:induction false} ListPermitted(t: Item, items: seq<Item>, s: seq<byte>, p: nat, left: nat, f: Policy)
    requires (t == Array(false, items) || t == Map(false, items)) && Encodable(t)
    requires 1 <= left && Stands(s, p, Encode(t))
    ensures Accept(s, p, left, f) == EndIf(Permitted(t, f) && Nesting(t) < left, p + |Encode(t)|)
    decreases items, 1
  {
    hide Accept, Permitted, Nesting, EncodeAll, AcceptRest, KeysOk, AllEncodable, Outcome;
    var m: major := if t.Map? then MAP else ARRAY;
    var first: seq<byte> := [32 * m + INDEFINITE];
    StandsConcat(s, p, first + EncodeAll(items), [BREAK]);
    StandsConcat(s, p, first, EncodeAll(items));
    assert s[p] == s[p..p + 1][0];
    var q := p + 1 + |EncodeAll(items)|;
    assert s[q] == s[q..q + 1][0];
    OpenAccepts(s, p, left, f);
    ContainerAsks(t, items, p + 1, left, f);
    if left > 1 {
      RestPermitted(items, s, p + 1, None, left - 1, f, t.Map?, false);
    }
  }

  lemma {:induction false} OpenAccepts(s: seq<byte>, p: nat, left: nat, f: Policy)
    requires p < |s| && (s[p] == 32 * ARRAY + INDEFINITE || s[p] == 32 * MAP + INDEFINITE)
    ensures left <= 1 || f.noIndeterminateLength ==> Accept(s, p, left, f).None?
    ensures left > 1 && !f.noIndeterminateLength ==>
      var isMap := s[p] == 32 * MAP + INDEFINITE;
      var r := AcceptRest(s, p + 1, None, left - 1, f, isMap, false);
      Accept(s, p, left, f) == if r.None? || !KeysOk(isMap, r.value.0, f) then None else Some(r.value.1 + 1)
  {
    hide AcceptRest, KeysOk;
  }

  /** What the validator is to find in the rest of a container: its keys, and where it ends. */
  ghost function Outcome(items: seq<Item>, p: nat, left: nat, f: Policy, isMap: bool, odd: bool)
    : Option<(seq<seq<byte>>, nat)>
    requires AllEncodable(items)
  {
    if RestAllowed(items, left, f, isMap, odd) then
      Some((if isMap then KeysOf(items, odd) else [], p + |EncodeAll(items)|))
    else None
  }

  lemma {:induction false} OutcomeStep(items: seq<Item>, p: nat, left: nat, f: Policy, isMap: bool, odd: bool)
    requires items != [] && AllEncodable(items)
    ensures Outcome(items, p, left, f, isMap, odd)
      == if !Permitted(items[0], f) || Nesting(items[0]) >= left
           || (isMap && !odd && f.mapKeysAreString && !IsText(items[0])) then None
         else KeysBefore(if isMap && !odd then [Encode(items[0])] else [],
           Outcome(items[1..], p + |Encode(items[0])|, left, f, isMap, !odd))
  {
    hide RestAllowed, Permitted, Nesting, IsText, Encode, Encodable;
    FirstAllowed(items, left, f, isMap, odd);
    assert EncodeAll(items) == Encode(items[0]) + EncodeAll(items[1..]);
    assert KeysOf(items, odd) == (if odd then [] else [Encode(items[0])]) + KeysOf(items[1..], !odd);
    NoKeysBefore(Outcome(items[1..], p + |Encode(items[0])|, left, f, isMap, !odd));
  }

  lemma {:induction false} RestPermitted(items: seq<Item>, s: seq<byte>, p: nat, n: Option<nat>, left: nat, f: Policy,
                                         isMap: bool, odd: bool)
    requires AllEncodable(items) && 1 <= left && Stands(s, p, EncodeAll(items))
    requires n.Some? ==> n.value == |items|
    requires n.None? ==> BreakAt(s, p + |EncodeAll(items)|) && (isMap ==> odd == (|items| % 2 == 1))
    ensures AcceptRest(s, p, n, left, f, isMap, odd) == Outcome(items, p, left, f, isMap, odd)
    decreases items, 0
  {
    hide Accept, AcceptRest, KeyIsText, Encode, Encodable, Outcome, Permitted, Nesting, IsText, HeadOk, TypeAt;
    if items == [] {
      NothingAllowed(p, left, f, isMap, odd);
      RestEnds(s, p, n, left, f, isMap, odd);
    } else {
      var end := p + |Encode(items[0])|;
      StandsConcat(s, p, Encode(items[0]), EncodeAll(items[1..]));
      assert s[p..end] == Encode(items[0]);
      TypeOfEncoding(items[0], s, p);
      KeyIsTextExactly(items[0], s, p);
      PermittedExactly(items[0], s, p, left, f);
      OutcomeStep(items, p, left, f, isMap, odd);
      RestStep(s, p, n, left, f, isMap, odd);
      RestPermitted(items[1..], s, end, OneLess(n), left, f, isMap, !odd);
    }
  }

  lemma {:induction false} NothingAllowed(p: nat, left: nat, f: Policy, isMap: bool, odd: bool)
    requires 1 <= left
    ensures Outcome([], p, left, f, isMap, odd) == Some(([], p))
  {}

  lemma {:induction false} RestEnds(s: seq<byte>, p: nat, n: Option<nat>, left: nat, f: Policy, isMap: bool, odd: bool)
    requires AtEnd(s, p, n) && (n.None? && isMap ==> !odd)
    ensures AcceptRest(s, p, n, left, f, isMap, odd) == Some(([], p))
  {}

  lemma {:induction false} RestStep(s: seq<byte>, p: nat, n: Option<nat>, left: nat, f: Policy, isMap: bool, odd: bool)
    requires !AtEnd(s, p, n)
    ensures var (first, r) := (Accept(s, p, left, f), AcceptRest(s, p, n, left, f, isMap, odd));
      (isMap && !odd && f.mapKeysAreString && !KeyIsText(s, p) ==> r.None?)
      && (first.None? ==> r.None?)
      && (first.Some? && !(isMap && !odd && f.mapKeysAreString && !KeyIsText(s, p)) ==>
        r == KeysBefore(if isMap && !odd then [s[p..first.value]] else [],
          AcceptRest(s, first.value, OneLess(n), left, f, isMap, !odd)))
  {
    hide Accept, KeyIsText;
    NoKeysBefore(if Accept(s, p, left, f).None? then None
      else AcceptRest(s, Accept(s, p, left, f).value, OneLess(n), left, f, isMap, !odd));
  }

  /**
   A policy that asks for shortest numbers and known lengths accepts exactly the
   encodings of the trees that it permits.
   */
  lemma {:induction false} CanonicalExactly(s: seq<byte>, p: nat, q: nat, left: nat, f: Policy)
    requires AsksForCanonical(f) && 1 <= left
    ensures Accept(s, p, left, f) == Some(q)
      <==> exists t :: IsEncoding(s, p, q, t) && Permitted(t, f) && Nesting(t) < left
  {
    hide Accept, Permitted, Nesting, Encode, Encodable, ParseItem;
    if Accept(s, p, left, f) == Some(q) {
      AcceptedIsEncoding(s, p, left, f);
      PermittedExactly(ParseItem(s, p, left).value.0, s, p, left, f);
    }
    if t :| IsEncoding(s, p, q, t) && Permitted(t, f) && Nesting(t) < left {
      PermittedExactly(t, s, p, left, f);
    }
  }
}
