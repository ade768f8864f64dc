/** Validation without any flags, and advancing, which is to give the same result. */
module CborBasic {
  import opened Wrappers
  import opened Bytes
  import opened CborFormat
  import opened CborTree
  import opened CborCursor
  import opened CborParser
  import opened CborValidation
  import opened CborCanonical

  /** No flag is set: every number, text and tag is allowed. */
  function Basic(): (f: Policy)
    ensures !f.Sorts()
  {
    Policy(true, false, false, false, false, false, false, false, false, (_, _) => true, _ => true, (_, _) => true)
  }

  /** How deep containers and tags are nested. */
  function Nesting(t: Item): nat {
    match t
    case Array(_, items) => 1 + NestingOfAll(items)
    case Map(_, items) => 1 + NestingOfAll(items)
    case Tagged(_, item) => 1 + Nesting(item)
    case _ => 0
  }

  function NestingOfAll(items: seq<Item>): nat {
    if items == [] then 0
    else
      var (first, rest) := (Nesting(items[0]), NestingOfAll(items[1..]));
      if first >= rest then first else rest
  }

  /** The end of an item that is nested less than limit deep. */
  function ItemWithin(r: Option<(Item, nat)>, limit: nat): Option<nat> {
    if r.Some? && Nesting(r.value.0) < limit then Some(r.value.1) else None
  }

  function ItemsWithin(r: Option<(seq<Item>, nat)>, limit: nat): Option<nat> {
    if r.Some? && NestingOfAll(r.value.0) < limit then Some(r.value.1) else None
  }

  function EndOfKeys(r: Option<(seq<seq<byte>>, nat)>): Option<nat> {
    if r.None? then None else Some(r.value.1)
  }

  /** The well-formed content of a container, in either form. */
  function Content(s: seq<byte>, p: nat, n: Option<nat>, depth: nat, isMap: bool, odd: bool): Option<(seq<Item>, nat)>
    requires n.Some? ==> p <= |s|
  {
    if n.None? then ParseUntil(s, p, depth, isMap, odd) else ParseItems(s, p, n.value, depth)
  }

  /** What is valid without flags is what is well formed and nested less than left deep. */
  lemma {:induction false} BasicIsNesting(s: seq<byte>, p: nat, left: nat, depth: nat)
    requires 1 <= left <= depth
    ensures Accept(s, p, left, Basic()) == ItemWithin(ParseItem(s, p, depth), left)
    decreases |s| - p, 2
  {
    hide Accept, ParseItem, HeadOk;
    NoHeadNotAccepted(s, p, left, Basic());
    NoHeadNoItem(s, p, depth);
    if HeadOk(s, p) {
      BasicItem(s, p, left, depth);
    }
  }

  lemma {:induction false} BasicItem(s: seq<byte>, p: nat, left: nat, depth: nat)
    requires 1 <= left <= depth && HeadOk(s, p)
    ensures Accept(s, p, left, Basic()) == ItemWithin(ParseItem(s, p, depth), left)
    decreases |s| - p, 1
  {
    hide Accept, ParseItem, HeadOk;
    HeadIsInside(s, p);
    if InfoAt(s, p) == INDEFINITE {
      BasicIndefinite(s, p, left, depth);
    } else if MajorAt(s, p) == ARRAY || MajorAt(s, p) == MAP {
      BasicList(s, p, left, depth);
    } else {
      BasicOther(s, p, left, depth);
    }
  }

  lemma {:induction false} BasicIndefinite(s: seq<byte>, p: nat, left: nat, depth: nat)
    requires 1 <= left <= depth && p < |s| && HeadOk(s, p) && InfoAt(s, p) == INDEFINITE
    ensures Accept(s, p, left, Basic()) == ItemWithin(ParseItem(s, p, depth), left)
    decreases |s| - p, 0
  {
    hide HeadValue, AcceptRest, AcceptChunks, ParseItems, ParseUntil, ParseChunks, NestingOfAll, Ordered;
    BasicChunks(s, p + 1, MajorAt(s, p));
    if left > 1 {
      BasicRest(s, p + 1, None, left - 1, depth - 1, MajorAt(s, p) == MAP, false);
    }
  }

  lemma {:induction false} BasicList(s: seq<byte>, p: nat, left: nat, depth: nat)
    requires 1 <= left <= depth && p < |s| && HeadOk(s, p) && InfoAt(s, p) != INDEFINITE
    requires MajorAt(s, p) == ARRAY || MajorAt(s, p) == MAP
    ensures Accept(s, p, left, Basic()) == ItemWithin(ParseItem(s, p, depth), left)
    decreases |s| - p, 0
  {
    hide HeadValue, AcceptRest, ParseItems, ParseUntil, NestingOfAll, Ordered;
    if left > 1 {
      var isMap, v := MajorAt(s, p) == MAP, HeadValue(s, p);
      BasicRest(s, HeadEnd(s, p), Some(if isMap then 2 * v else v), left - 1, depth - 1, isMap, false);
    }
  }

  lemma {:induction false} BasicOther(s: seq<byte>, p: nat, left: nat, depth: nat)
    requires 1 <= left <= depth && p < |s| && HeadOk(s, p) && InfoAt(s, p) != INDEFINITE
    requires MajorAt(s, p) != ARRAY && MajorAt(s, p) != MAP
    ensures Accept(s, p, left, Basic()) == ItemWithin(ParseItem(s, p, depth), left)
    decreases |s| - p, 0
  {
    hide HeadValue, TypeAt;
    if left > 1 && MajorAt(s, p) == TAG {
      BasicIsNesting(s, HeadEnd(s, p), left - 1, depth);
      NoHeadNoItem(s, HeadEnd(s, p), depth);
    }
  }

  lemma {:induction false} BasicChunks(s: seq<byte>, p: nat, m: major)
    ensures AcceptChunks(s, p, m, Basic()) == (var r := ParseChunks(s, p, m); if r.None? then None else Some(r.value.1))
    decreases |s| - p
  {
    hide HeadValue;
    if p < |s| && HeadFits(s, p) {
      BasicChunks(s, HeadEnd(s, p) + HeadValue(s, p), m);
    }
  }

  lemma {:induction false} BasicRest(s: seq<byte>, p: nat, n: Option<nat>, left: nat, depth: nat, isMap: bool,
                                     odd: bool)
    requires 1 <= left <= depth && (n.Some? ==> p <= |s|)
    ensures EndOfKeys(AcceptRest(s, p, n, left, Basic(), isMap, odd))
      == ItemsWithin(Content(s, p, n, depth, isMap, odd), left)
    decreases |s| - p, 3
  {
    hide Accept, ParseItem, KeyIsText, Nesting;
    if !AtEnd(s, p, n) {
      BasicIsNesting(s, p, left, depth);
      var first := ParseItem(s, p, depth);
      if first.Some? {
        var end := first.value.1;
        var rest := Content(s, end, OneLess(n), depth, isMap, !odd);
        BasicRest(s, end, OneLess(n), left, depth, isMap, !odd);
        if rest.Some? {
          assert ([first.value.0] + rest.value.0)[1..] == rest.value.0;
        }
      }
    }
  }

  /** Where init and validation without flags find the end of the first item. */
  ghost function BasicOutcome(s: seq<byte>): Option<nat> {
    if Start(s).None? then None
    else
      var d := AcceptStep(s, Start(s).value, MAX_RECURSIONS, Basic());
      if d.None? then None else Some(d.value.ptr)
  }

  lemma BasicOutcomeIsNesting(s: seq<byte>)
    ensures BasicOutcome(s) == ItemWithin(ParseItem(s, 0, MAX_RECURSIONS), MAX_RECURSIONS)
  {
    hide Accept, ParseItem, Nesting, TypeAt, HeadOk;
    BasicIsNesting(s, 0, MAX_RECURSIONS, MAX_RECURSIONS);
    NoHeadNotAccepted(s, 0, MAX_RECURSIONS, Basic());
  }

  /**
   Validation without flags and advancing accept the same buffer, if and only
   if a well-formed item in front is nested less than 1024 deep, tags counted,
   and a tag in front of an acceptable head is the start of a well-formed item.
   */
  lemma BasicIsAdvanceExactly(s: seq<byte>)
    ensures var r := ParseItem(s, 0, MAX_RECURSIONS);
      (BasicOutcome(s).Some? <==> AdvanceOutcome(s).Some?)
      <==> if r.Some? then Nesting(r.value.0) < MAX_RECURSIONS else !TagThenHead(s)
  {
    hide Accept, ParseItem, Nesting, BasicOutcome, AdvanceOutcome;
    BasicOutcomeIsNesting(s);
    AdvanceAccepts(s);
  }

  /** Advancing accepts what is well formed, and a tag in front of an acceptable head. */
  lemma AdvanceAccepts(s: seq<byte>)
    ensures AdvanceOutcome(s).Some? <==> WellFormedEnd(s).Some? || TagThenHead(s)
  {
    hide ParseItem, TypeAt, HeadOk, HeadValue;
    NoHeadNoItem(s, 0, MAX_RECURSIONS);
    if HeadOk(s, 0) {
      TagOnlyAtTag(s, 0, MAX_RECURSIONS);
      if MajorAt(s, 0) == TAG {
        NoHeadNoItem(s, HeadEnd(s, 0), MAX_RECURSIONS);
      }
    }
  }

  /** n arrays around the number 0. */
  function Arrays(n: nat): Item {
    if n == 0 then Number(false, 0) else Array(true, [Arrays(n - 1)])
  }

  lemma {:induction false} ArraysAreNested(n: nat)
    ensures Nesting(Arrays(n)) == Depth(Arrays(n)) == n && Encodable(Arrays(n))
  {
    if n > 0 {
      ArraysAreNested(n - 1);
      OneItem(Arrays(n - 1));
    }
  }

  lemma OneItem(t: Item)
    ensures NestingOfAll([t]) == Nesting(t) && DepthOfAll([t]) == Depth(t) && AllEncodable([t]) == Encodable(t)
  {
    hide Nesting, Depth, Encodable;
    assert [t][1..] == [];
  }

  /**
   Two inputs that advancing accepts and validation without flags refuses: a tag
   in front of half an array, and 1024 arrays.
   */
  lemma BasicIsNotAdvance()
    ensures AdvanceOutcome([0xC0, 0x82]).Some? && BasicOutcome([0xC0, 0x82]).None?
    ensures Encodable(Arrays(MAX_RECURSIONS))
    ensures AdvanceOutcome(Encode(Arrays(MAX_RECURSIONS))).Some? && BasicOutcome(Encode(Arrays(MAX_RECURSIONS))).None?
  {
    hide ParseItem, AdvanceOutcome, BasicOutcome, Arrays, Encode, Encodable, Nesting;
    TaggedHalfArrayAccepted();
    BasicOutcomeIsNesting([0xC0, 0x82]);
    var t := Arrays(MAX_RECURSIONS);
    ArraysAreNested(MAX_RECURSIONS);
    var s := Encode(t);
    assert Stands(s, 0, s);
    ItemReadsBack(t, s, 0, MAX_RECURSIONS);
    BasicOutcomeIsNesting(s);
    AdvanceAccepts(s);
  }
}
