/**
 Where a CBOR iterator stands, as far as it decides what comes next, and how
 that relates to the well-formedness rules.
 */
module CborCursor {
  import opened Bytes
  import opened Wrappers
  import opened CborFormat
  import opened CborTree

  const UINT32_MAX: nat := 0xFFFF_FFFF

  const INTEGER_TYPE: nat := 0x00
  const BYTE_STRING_TYPE: nat := 0x40
  const TEXT_STRING_TYPE: nat := 0x60
  const ARRAY_TYPE: nat := 0x80
  const MAP_TYPE: nat := 0xa0
  const TAG_TYPE: nat := 0xc0
  const SIMPLE_TYPE: nat := 0xe0
  const BOOLEAN_TYPE: nat := 0xf5
  const NULL_TYPE: nat := 0xf6
  const UNDEFINED_TYPE: nat := 0xf7
  const HALF_FLOAT_TYPE: nat := 0xf9
  const FLOAT_TYPE: nat := 0xfa
  const DOUBLE_TYPE: nat := 0xfb
  const INVALID_TYPE: nat := 0xff

  /** The type of the item whose head is at p. */
  function TypeAt(s: seq<byte>, p: nat): nat
    requires p < |s|
  {
    var ai := InfoAt(s, p);
    match MajorAt(s, p)
    case 0 => INTEGER_TYPE
    case 1 => INTEGER_TYPE
    case 7 =>
      if ai == 20 || ai == 21 then BOOLEAN_TYPE
      else if ai == 22 || ai == 23 || (HALF_FLOAT <= ai <= DOUBLE_FLOAT) then 0xe0 + ai
      else SIMPLE_TYPE
    case m => 32 * m
  }

  /** The types in terms of the first byte of the head. */
  lemma TypesByByte(s: seq<byte>, p: nat)
    requires p < |s|
    ensures s[p] < 0x40 ==> TypeAt(s, p) == 0x00
    ensures 0x40 <= s[p] < 0x60 ==> TypeAt(s, p) == 0x40
    ensures 0x60 <= s[p] < 0x80 ==> TypeAt(s, p) == 0x60
    ensures 0x80 <= s[p] < 0xa0 ==> TypeAt(s, p) == 0x80
    ensures 0xa0 <= s[p] < 0xc0 ==> TypeAt(s, p) == 0xa0
    ensures 0xc0 <= s[p] < 0xe0 ==> TypeAt(s, p) == 0xc0
    ensures s[p] == 0xf4 || s[p] == 0xf5 ==> TypeAt(s, p) == 0xf5
    ensures s[p] in {0xf6, 0xf7, 0xf9, 0xfa, 0xfb} ==> TypeAt(s, p) == s[p]
    ensures 0xe0 <= s[p] < 0xf4 || s[p] == 0xf8 || 0xfc <= s[p] ==> TypeAt(s, p) == 0xe0
  {}

  /**
   Position, items left (UINT32_MAX: up to a break), type, whether the
   container is a map, whether a key has been read but not its value, and
   whether the length is unknown or a break is still to be skipped.
   */
  datatype Cursor = Cursor(ptr: nat, remaining: nat, ty: nat, isMap: bool, odd: bool, unknown: bool)

  /** Looks at the head at the position. */
  function Look(s: seq<byte>, c: Cursor): Option<Cursor> {
    if HeadOk(s, c.ptr) then Some(c.(ty := TypeAt(s, c.ptr), unknown := InfoAt(s, c.ptr) == INDEFINITE)) else None
  }

  function LookOrBreak(s: seq<byte>, c: Cursor): Option<Cursor> {
    if c.remaining == UINT32_MAX && BreakAt(s, c.ptr) then
      if (c.isMap && c.odd) || c.ty == TAG_TYPE then None
      else Some(c.(ty := INVALID_TYPE, remaining := 0, unknown := true))
    else Look(s, c)
  }

  /** Moves on after an item that ends at the position; a tag does not count as an item. */
  function Next(s: seq<byte>, c: Cursor): Option<Cursor>
    requires c.remaining > 0
  {
    if c.ty == TAG_TYPE then LookOrBreak(s, c)
    else if c.remaining == UINT32_MAX then LookOrBreak(s, c.(odd := !c.odd))
    else if c.remaining == 1 then Some(c.(remaining := 0, ty := INVALID_TYPE, unknown := false))
    else LookOrBreak(s, c.(remaining := c.remaining - 1, odd := !c.odd))
  }

  /** The cursor has looked at the head it stands on. */
  predicate Ready(s: seq<byte>, c: Cursor) {
    0 < c.remaining <= UINT32_MAX && HeadOk(s, c.ptr) && c.ty == TypeAt(s, c.ptr)
    && c.unknown == (InfoAt(s, c.ptr) == INDEFINITE)
  }

  /** One call of advance: over a tag, or over a whole item. */
  function Step(s: seq<byte>, c: Cursor, depth: nat): Option<Cursor>
    requires Ready(s, c)
  {
    if c.ty == TAG_TYPE then Next(s, c.(ptr := HeadEnd(s, c.ptr)))
    else
      var r := ParseItem(s, c.ptr, depth);
      if r.None? then None else Next(s, c.(ptr := r.value.1))
  }

  /** Over a whole item, with its tags. */
  function ItemStep(s: seq<byte>, c: Cursor, depth: nat): Option<Cursor>
    requires Ready(s, c)
  {
    var r := ParseItem(s, c.ptr, depth);
    if r.None? then None else Next(s, c.(ptr := r.value.1, ty := INTEGER_TYPE))
  }

  /** The items from the cursor to the end of its container, and where they end. */
  function Rest(s: seq<byte>, c: Cursor, depth: nat): Option<(seq<Item>, nat)> {
    if c.remaining == 0 || c.ptr > |s| then Some(([], c.ptr))
    else if c.remaining == UINT32_MAX then ParseUntil(s, c.ptr, depth, c.isMap, c.odd)
    else ParseItems(s, c.ptr, c.remaining, depth)
  }

  lemma TagOnlyAtTag(s: seq<byte>, p: nat, depth: nat)
    requires HeadOk(s, p)
    ensures TypeAt(s, p) == TAG_TYPE <==> MajorAt(s, p) == TAG
    ensures TypeAt(s, p) == TAG_TYPE ==>
      HeadFits(s, p)
      && var q := HeadEnd(s, p);
        ParseItem(s, p, depth) == if ParseItem(s, q, depth).None? then None
        else Some((Tagged(HeadValue(s, p), ParseItem(s, q, depth).value.0), ParseItem(s, q, depth).value.1))
  {}

  function EndOf(r: Option<(seq<Item>, nat)>): Option<nat> {
    if r.None? then None else Some(r.value.1)
  }

  /** From one item to the next, the rest of the container loses its first item. */
  lemma ItemStepRest(s: seq<byte>, c: Cursor, depth: nat)
    requires Ready(s, c)
    ensures var d := ItemStep(s, c, depth);
      if d.None? then Rest(s, c, depth).None?
      else
        ParseItem(s, c.ptr, depth).Some? && c.ptr < d.value.ptr <= |s|
        && (d.value.remaining == 0 ==> d.value.unknown == (c.remaining == UINT32_MAX))
        && (d.value.remaining == 0 && d.value.unknown ==> BreakAt(s, d.value.ptr))
        && (d.value.remaining > 0 ==>
          Ready(s, d.value) && (d.value.remaining == UINT32_MAX <==> c.remaining == UINT32_MAX))
        && Rest(s, c, depth) == (if Rest(s, d.value, depth).None? then None
          else Some(([ParseItem(s, c.ptr, depth).value.0] + Rest(s, d.value, depth).value.0,
            Rest(s, d.value, depth).value.1)))
  {
    hide HeadOk, TypeAt, ParseItem;
    NoHeadNoItem(s, c.ptr, depth);
    var r := ParseItem(s, c.ptr, depth);
    if r.Some? {
      var q := r.value.1;
      NoHeadNoItem(s, q, depth);
      RestStops(s, q, c.remaining - 1, depth, c.isMap, !c.odd);
    }
  }

  /** What follows an item when the container ends there, or nothing well formed follows. */
  lemma RestStops(s: seq<byte>, q: nat, n: nat, depth: nat, isMap: bool, odd: bool)
    requires q <= |s|
    ensures n == 0 ==> ParseItems(s, q, n, depth) == Some(([], q))
    ensures n > 0 && !HeadOk(s, q) ==> ParseItems(s, q, n, depth).None?
    ensures BreakAt(s, q) ==> ParseUntil(s, q, depth, isMap, odd) == if isMap && odd then None else Some(([], q))
    ensures !BreakAt(s, q) && !HeadOk(s, q) ==> ParseUntil(s, q, depth, isMap, odd).None?
  {
    hide HeadOk, ParseItem;
    NoHeadNoItem(s, q, depth);
  }

  lemma NoHeadNoItem(s: seq<byte>, p: nat, depth: nat)
    ensures !HeadOk(s, p) ==> ParseItem(s, p, depth).None?
    ensures HeadOk(s, p) ==> p < |s| && !BreakAt(s, p)
  {}

  lemma StepIsItemStep(s: seq<byte>, c: Cursor, depth: nat)
    requires Ready(s, c) && c.ty != TAG_TYPE
    ensures Step(s, c, depth) == ItemStep(s, c, depth)
  {
    hide ParseItem, HeadOk, TypeAt;
    var r := ParseItem(s, c.ptr, depth);
    if r.Some? {
      NextForgets(s, c.(ptr := r.value.1), c.(ptr := r.value.1, ty := INTEGER_TYPE));
    }
  }

  lemma NextForgets(s: seq<byte>, c: Cursor, d: Cursor)
    requires c.remaining > 0 && c.ty != TAG_TYPE && d == c.(ty := INTEGER_TYPE)
    ensures Next(s, c) == Next(s, d)
  {
    hide HeadOk, TypeAt;
  }

  /** One call of advance does not change where the container ends. */
  lemma StepRest(s: seq<byte>, c: Cursor, depth: nat)
    requires Ready(s, c)
    ensures var d := Step(s, c, depth);
      if d.None? then Rest(s, c, depth).None?
      else
        c.ptr < d.value.ptr <= |s|
        && (d.value.remaining == 0 ==> d.value.unknown == (c.remaining == UINT32_MAX))
        && (d.value.remaining == 0 && d.value.unknown ==> BreakAt(s, d.value.ptr))
        && (d.value.remaining > 0 ==>
          Ready(s, d.value) && (d.value.remaining == UINT32_MAX <==> c.remaining == UINT32_MAX))
        && EndOf(Rest(s, c, depth)) == EndOf(Rest(s, d.value, depth))
  {
    hide HeadOk, TypeAt, ParseItem, Next, Rest, ItemStep, Step;
    if c.ty == TAG_TYPE {
      TagStepRest(s, c, depth);
    } else {
      ItemStepRest(s, c, depth);
      StepIsItemStep(s, c, depth);
    }
  }

  lemma TagStepRest(s: seq<byte>, c: Cursor, depth: nat)
    requires Ready(s, c) && c.ty == TAG_TYPE
    ensures var d := Step(s, c, depth);
      if d.None? then Rest(s, c, depth).None?
      else
        c.ptr < d.value.ptr <= |s| && Ready(s, d.value) && d.value.remaining == c.remaining
        && EndOf(Rest(s, c, depth)) == EndOf(Rest(s, d.value, depth))
  {
    hide TypeAt, ParseItem, HeadOk, HeadValue;
    TagOnlyAtTag(s, c.ptr, depth);
    var q := HeadEnd(s, c.ptr);
    NoHeadNoItem(s, q, depth);
    NoHeadNoItem(s, c.ptr, depth);
  }

  // ---------- Containers ----------

  lemma {:induction false} ItemsNeedBytes(s: seq<byte>, p: nat, n: nat, depth: nat)
    requires p <= |s|
    ensures ParseItems(s, p, n, depth).Some? ==> p + n <= |s|
    decreases n
  {
    hide ParseItem;
    if n > 0 {
      var first := ParseItem(s, p, depth);
      if first.Some? {
        ItemsNeedBytes(s, first.value.1, n - 1, depth);
      }
    }
  }

  predicate IsContainer(c: Cursor) {
    c.ty == ARRAY_TYPE || c.ty == MAP_TYPE
  }

  /** The number of items of a container of known length. */
  function ItemCount(s: seq<byte>, c: Cursor): nat
    requires Ready(s, c) && IsContainer(c) && !c.unknown
  {
    if c.ty == MAP_TYPE then 2 * HeadValue(s, c.ptr) else HeadValue(s, c.ptr)
  }

  /** The iterator on the items of a container; an impossible length is refused. */
  function Enter(s: seq<byte>, c: Cursor): Option<Cursor>
    requires Ready(s, c) && IsContainer(c)
  {
    if c.unknown then LookOrBreak(s, Cursor(c.ptr + 1, UINT32_MAX, c.ty, c.ty == MAP_TYPE, false, false))
    else
      var q, v := HeadEnd(s, c.ptr), HeadValue(s, c.ptr);
      if v >= UINT32_MAX || (c.ty == MAP_TYPE && v > UINT32_MAX / 2) then None
      else if v == 0 then Some(Cursor(q, 0, INVALID_TYPE, c.isMap, c.odd, false))
      else LookOrBreak(s, Cursor(q, ItemCount(s, c), c.ty, c.ty == MAP_TYPE, false, false))
  }

  /** An item made of the rest of a container that began with the break still to be skipped, or not. */
  function Closed(c: Cursor, r: Option<(seq<Item>, nat)>): Option<(Item, nat)> {
    if r.None? then None
    else Some((Container(c.ty == MAP_TYPE, !c.unknown, r.value.0), r.value.1 + if c.unknown then 1 else 0))
  }

  lemma EnterRest(s: seq<byte>, c: Cursor, depth: nat)
    requires Ready(s, c) && IsContainer(c) && |s| < UINT32_MAX
    ensures depth == 0 ==> ParseItem(s, c.ptr, depth).None?
    ensures depth > 0 ==>
      var d := Enter(s, c);
      if d.None? then ParseItem(s, c.ptr, depth).None?
      else
        c.ptr < d.value.ptr <= |s|
        && (d.value.remaining == 0 ==> d.value.unknown == c.unknown)
        && (d.value.remaining == 0 && d.value.unknown ==> BreakAt(s, d.value.ptr))
        && (d.value.remaining > 0 ==> Ready(s, d.value) && (d.value.remaining == UINT32_MAX <==> c.unknown))
        && ParseItem(s, c.ptr, depth) == Closed(c, Rest(s, d.value, depth - 1))
  {
    ContainerHead(s, c, depth);
    if depth > 0 {
      if c.unknown {
        EnterUnknown(s, c, depth);
      } else {
        EnterKnown(s, c, depth);
      }
    }
  }

  lemma ContainerHead(s: seq<byte>, c: Cursor, depth: nat)
    requires Ready(s, c) && IsContainer(c)
    ensures MajorAt(s, c.ptr) == if c.ty == MAP_TYPE then MAP else ARRAY
    ensures depth == 0 ==> ParseItem(s, c.ptr, depth).None?
    ensures depth > 0 && c.unknown ==>
      ParseItem(s, c.ptr, depth) == Closed(c, ParseUntil(s, c.ptr + 1, depth - 1, c.ty == MAP_TYPE, false))
    ensures depth > 0 && !c.unknown ==>
      ParseItem(s, c.ptr, depth) == Closed(c, ParseItems(s, HeadEnd(s, c.ptr), ItemCount(s, c), depth - 1))
  {
    hide ParseItems, ParseUntil;
  }

  lemma EnterUnknown(s: seq<byte>, c: Cursor, depth: nat)
    requires Ready(s, c) && IsContainer(c) && depth > 0 && c.unknown
    ensures var d := Enter(s, c);
      if d.None? then ParseUntil(s, c.ptr + 1, depth - 1, c.ty == MAP_TYPE, false).None?
      else
        d.value.ptr == c.ptr + 1 <= |s|
        && (d.value.remaining == 0 ==> d.value.unknown && BreakAt(s, d.value.ptr))
        && (d.value.remaining > 0 ==> Ready(s, d.value) && d.value.remaining == UINT32_MAX)
        && Rest(s, d.value, depth - 1) == ParseUntil(s, c.ptr + 1, depth - 1, c.ty == MAP_TYPE, false)
  {
    hide ParseItem, TypeAt;
    NoHeadNoItem(s, c.ptr + 1, depth - 1);
  }

  lemma EnterKnown(s: seq<byte>, c: Cursor, depth: nat)
    requires Ready(s, c) && IsContainer(c) && depth > 0 && !c.unknown && |s| < UINT32_MAX
    ensures var d := Enter(s, c);
      if d.None? then ParseItems(s, HeadEnd(s, c.ptr), ItemCount(s, c), depth - 1).None?
      else
        d.value.ptr == HeadEnd(s, c.ptr)
        && (d.value.remaining == 0 ==> !d.value.unknown)
        && (d.value.remaining > 0 ==> Ready(s, d.value) && d.value.remaining < UINT32_MAX)
        && Rest(s, d.value, depth - 1) == ParseItems(s, HeadEnd(s, c.ptr), ItemCount(s, c), depth - 1)
  {
    hide ParseItem, TypeAt, HeadValue;
    NoHeadNoItem(s, HeadEnd(s, c.ptr), depth - 1);
    ItemsNeedBytes(s, HeadEnd(s, c.ptr), ItemCount(s, c), depth - 1);
  }
}
