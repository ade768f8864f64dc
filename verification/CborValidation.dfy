/** Validation of CBOR items against a policy: shortest numbers, sorted and unique map keys, and others. */
module CborValidation {
  import opened Bytes
  import opened Wrappers
  import opened CborFormat
  import opened CborTree
  import opened CborCursor
  import opened CborParser

  /**
   The flags, and what the code decides about floating point numbers (type
   and bits), text (its bytes) and tags (tag and type of the item), which
   depends on flags and tables outside this model.  Some flags are sets of
   bits; anyBit says whether sorting is turned on by any of its bits, as in
   the code, or only by all of them, as documented.
   */
  datatype Policy = Policy(
    anyBit: bool,
    shortestIntegrals: bool,
    noIndeterminateLength: bool,
    mapIsSorted: bool,
    mapKeysAreUnique: bool,
    mapKeysAreString: bool,
    noUndefined: bool,
    noUnknownSimpleSA: bool,
    noUnknownSimple: bool,
    floatAllowed: (nat, nat) -> bool,
    textAllowed: seq<byte> -> bool,
    tagAllowed: (nat, nat) -> bool)
  {
    /** Sorting is a set of two bits. */
    predicate Sorts() {
      if anyBit then mapIsSorted || noIndeterminateLength else mapIsSorted && noIndeterminateLength
    }

    /** Uniqueness is a set of three bits, and the check needs all of them. */
    predicate Unique() {
      mapKeysAreUnique && mapIsSorted && noIndeterminateLength
    }

    predicate SimpleAllowed(v: nat) {
      if v < 32 then !noUnknownSimpleSA else !(noUnknownSimple && noUnknownSimpleSA)
    }
  }

  // ---------- The order of keys ----------

  /** Bytewise lexicographic order, a proper prefix first. */
  predicate LexLess(a: seq<byte>, b: seq<byte>) {
    b != [] && (a == [] || a[0] < b[0] || (a[0] == b[0] && LexLess(a[1..], b[1..])))
  }

  /** The sign of memcmp over n bytes. */
  function Memcmp(a: seq<byte>, b: seq<byte>, n: nat): int
    requires n <= |a| && n <= |b|
  {
    if n == 0 then 0 else if a[0] < b[0] then -1 else if a[0] > b[0] then 1 else Memcmp(a[1..], b[1..], n - 1)
  }

  function CompareKeys(a: seq<byte>, b: seq<byte>): int {
    var r := Memcmp(a, b, if |a| <= |b| then |a| else |b|);
    if r == 0 && |a| != |b| then if |a| < |b| then -1 else 1 else r
  }

  lemma {:induction false} CompareIsOrder(a: seq<byte>, b: seq<byte>)
    ensures CompareKeys(a, b) < 0 <==> LexLess(a, b)
    ensures CompareKeys(a, b) > 0 <==> LexLess(b, a)
    ensures CompareKeys(a, b) == 0 <==> a == b
    decreases |a|
  {
    if a != [] && b != [] && a[0] == b[0] {
      CompareIsOrder(a[1..], b[1..]);
      assert a == [a[0]] + a[1..] && b == [b[0]] + b[1..];
    }
  }

  lemma {:induction false} LexTransitive(a: seq<byte>, b: seq<byte>, c: seq<byte>)
    requires LexLess(a, b) && LexLess(b, c)
    ensures LexLess(a, c)
    decreases |a|
  {
    if a != [] && b != [] && a[0] == b[0] == c[0] {
      LexTransitive(a[1..], b[1..], c[1..]);
    }
  }

  predicate MayFollow(a: seq<byte>, b: seq<byte>, unique: bool) {
    LexLess(a, b) || (!unique && a == b)
  }

  /** Every two keys are in order, and with unique every two are distinct. */
  ghost predicate Ordered(keys: seq<seq<byte>>, unique: bool) {
    forall i, j :: 0 <= i < j < |keys| ==> MayFollow(keys[i], keys[j], unique)
  }

  lemma MayFollowTransitive(a: seq<byte>, b: seq<byte>, c: seq<byte>, unique: bool)
    requires MayFollow(a, b, unique) && MayFollow(b, c, unique)
    ensures MayFollow(a, c, unique)
  {
    if LexLess(a, b) && LexLess(b, c) {
      LexTransitive(a, b, c);
    }
  }

  /** Comparing neighbours is enough. */
  lemma NeighboursAreEnough(keys: seq<seq<byte>>, key: seq<byte>, unique: bool)
    requires Ordered(keys, unique)
    ensures Ordered(keys + [key], unique) <==> keys == [] || MayFollow(keys[|keys| - 1], key, unique)
  {
    hide MayFollow;
    var more, n := keys + [key], |keys|;
    if n > 0 {
      if MayFollow(keys[n - 1], key, unique) {
        forall i, j | 0 <= i < j < |more|
          ensures MayFollow(more[i], more[j], unique)
        {
          if j == n && i < n - 1 {
            MayFollowTransitive(more[i], more[n - 1], key, unique);
          }
        }
      } else {
        assert more[n - 1] == keys[n - 1] && more[n] == key;
      }
    }
  }

  lemma OrderedPrefix(a: seq<seq<byte>>, b: seq<seq<byte>>, unique: bool)
    requires Ordered(a + b, unique)
    ensures Ordered(a, unique)
  {
    hide MayFollow;
    forall i, j | 0 <= i < j < |a|
      ensures MayFollow(a[i], a[j], unique)
    {
      assert (a + b)[i] == a[i] && (a + b)[j] == a[j];
    }
  }

  // ---------- What is valid ----------

  predicate IsFloatAt(s: seq<byte>, p: nat)
    requires p < |s|
  {
    MajorAt(s, p) == SIMPLE && HALF_FLOAT <= InfoAt(s, p) <= DOUBLE_FLOAT
  }

  /** The head is the one the encoder writes, if the policy asks for that. */
  predicate HeadPlain(s: seq<byte>, p: nat, f: Policy)
    requires HeadFits(s, p)
  {
    f.shortestIntegrals && !IsFloatAt(s, p) ==>
      HeadValue(s, p) <= MAX_UINT64 && s[p..HeadEnd(s, p)] == Head(MajorAt(s, p), HeadValue(s, p))
  }

  /** The item at p, behind its tags, is a text string. */
  predicate KeyIsText(s: seq<byte>, p: nat)
    decreases if p <= |s| then |s| - p else 0
  {
    HeadOk(s, p)
    && if TypeAt(s, p) == TAG_TYPE then HeadFits(s, p) && KeyIsText(s, HeadEnd(s, p))
    else TypeAt(s, p) == TEXT_STRING_TYPE
  }

  predicate SimpleOk(s: seq<byte>, p: nat, f: Policy)
    requires HeadFits(s, p)
  {
    if IsFloatAt(s, p) then f.floatAllowed(TypeAt(s, p), HeadValue(s, p))
    else if TypeAt(s, p) == UNDEFINED_TYPE then !f.noUndefined
    else if TypeAt(s, p) == SIMPLE_TYPE then f.SimpleAllowed(HeadValue(s, p))
    else true
  }

  /** The end of the valid item at p, with less than left containers and tags nested around each other. */
  ghost function Accept(s: seq<byte>, p: nat, left: nat, f: Policy): (r: Option<nat>)
    ensures r.Some? ==> p < r.value <= |s|
    decreases |s| - p, 1
  {
    if !HeadOk(s, p) then None
    else if InfoAt(s, p) == INDEFINITE then
      if f.noIndeterminateLength then None
      else if MajorAt(s, p) <= TEXT_STRING then
        var r := AcceptChunks(s, p + 1, MajorAt(s, p), f);
        if r.None? then None else Some(r.value + 1)
      else if left <= 1 then None
      else
        var r := AcceptRest(s, p + 1, None, left - 1, f, MajorAt(s, p) == MAP, false);
        if r.None? || !KeysOk(MajorAt(s, p) == MAP, r.value.0, f) then None else Some(r.value.1 + 1)
    else if !HeadPlain(s, p, f) then None
    else
      var v, q := HeadValue(s, p), HeadEnd(s, p);
      match MajorAt(s, p)
      case 2 => if q + v <= |s| then Some(q + v) else None
      case 3 => if q + v <= |s| && f.textAllowed(s[q..q + v]) then Some(q + v) else None
      case 4 => if left <= 1 then None else AcceptKnown(s, q, v, left - 1, f, false)
      case 5 => if left <= 1 then None else AcceptKnown(s, q, 2 * v, left - 1, f, true)
      case 6 => if left <= 1 || !HeadOk(s, q) || !f.tagAllowed(v, TypeAt(s, q)) then None else Accept(s, q, left - 1, f)
      case 7 => if SimpleOk(s, p, f) then Some(q) else None
      case _ => Some(q)
  }

  ghost predicate KeysOk(isMap: bool, keys: seq<seq<byte>>, f: Policy) {
    isMap && f.Sorts() ==> Ordered(keys, f.Unique())
  }

  ghost function AcceptKnown(s: seq<byte>, p: nat, n: nat, left: nat, f: Policy, isMap: bool): (r: Option<nat>)
    requires p <= |s|
    ensures r.Some? ==> p <= r.value <= |s|
    decreases |s| - p, 3
  {
    var r := AcceptRest(s, p, Some(n), left, f, isMap, false);
    if r.None? || !KeysOk(isMap, r.value.0, f) then None else Some(r.value.1)
  }

  /** The keys among the rest of a container (n items, or up to a break), and where the rest ends. */
  ghost function AcceptRest(s: seq<byte>, p: nat, n: Option<nat>, left: nat, f: Policy, isMap: bool, odd: bool)
    : (r: Option<(seq<seq<byte>>, nat)>)
    ensures r.Some? ==>
      p <= r.value.1 && (n.Some? && p <= |s| ==> r.value.1 <= |s|) && (n.None? ==> BreakAt(s, r.value.1))
    decreases |s| - p, 2
  {
    if n == Some(0) then Some(([], p))
    else if n.None? && BreakAt(s, p) then if isMap && odd then None else Some(([], p))
    else if isMap && !odd && f.mapKeysAreString && !KeyIsText(s, p) then None
    else
      var first := Accept(s, p, left, f);
      if first.None? then None
      else
        var rest := AcceptRest(s, first.value, if n.None? then None else Some(n.value - 1), left, f, isMap, !odd);
        if rest.None? then None
        else Some((if isMap && !odd then [s[p..first.value]] + rest.value.0 else rest.value.0, rest.value.1))
  }

  ghost function AcceptChunks(s: seq<byte>, p: nat, m: major, f: Policy): (r: Option<nat>)
    ensures r.Some? ==> p <= r.value && BreakAt(s, r.value)
    decreases |s| - p
  {
    if p >= |s| then None
    else if BreakAt(s, p) then Some(p)
    else if MajorAt(s, p) != m || !HeadFits(s, p) || HeadEnd(s, p) + HeadValue(s, p) > |s| then None
    else
      var q, end := HeadEnd(s, p), HeadEnd(s, p) + HeadValue(s, p);
      if !HeadPlain(s, p, f) || (m == TEXT_STRING && !f.textAllowed(s[q..end])) then None
      else AcceptChunks(s, end, m, f)
  }

  // ---------- Valid items and the iterator ----------

  /** Over a whole valid item, with its tags. */
  ghost function AcceptStep(s: seq<byte>, c: Cursor, left: nat, f: Policy): Option<Cursor>
    requires Ready(s, c)
  {
    var r := Accept(s, c.ptr, left, f);
    if r.None? then None else Next(s, c.(ptr := r.value, ty := INTEGER_TYPE))
  }

  function ItemsLeft(c: Cursor): Option<nat> {
    if c.remaining == UINT32_MAX then None else Some(c.remaining)
  }

  ghost function RestOf(s: seq<byte>, c: Cursor, left: nat, f: Policy, isMap: bool): Option<(seq<seq<byte>>, nat)> {
    if c.remaining == 0 then Some(([], c.ptr)) else AcceptRest(s, c.ptr, ItemsLeft(c), left, f, isMap, c.odd)
  }

  /** Keys already seen in front of those to come. */
  function KeysBefore(keys: seq<seq<byte>>, r: Option<(seq<seq<byte>>, nat)>): Option<(seq<seq<byte>>, nat)> {
    if r.None? then None else Some((keys + r.value.0, r.value.1))
  }

  lemma NoKeysBefore(r: Option<(seq<seq<byte>>, nat)>)
    ensures KeysBefore([], r) == r
  {
    if r.Some? {
      assert [] + r.value.0 == r.value.0;
    }
  }

  lemma MoreKeysBefore(a: seq<seq<byte>>, b: seq<seq<byte>>, r: Option<(seq<seq<byte>>, nat)>)
    ensures KeysBefore(a, KeysBefore(b, r)) == KeysBefore(a + b, r)
  {
    if r.Some? {
      assert a + (b + r.value.0) == a + b + r.value.0;
    }
  }

  lemma {:induction false} NoHeadNotAccepted(s: seq<byte>, p: nat, left: nat, f: Policy)
    ensures !HeadOk(s, p) ==> Accept(s, p, left, f).None?
  {}

  lemma {:induction false} RestStarts(s: seq<byte>, q: nat, n: Option<nat>, left: nat, f: Policy, isMap: bool,
                                      odd: bool)
    ensures n == Some(0) ==> AcceptRest(s, q, n, left, f, isMap, odd) == Some(([], q))
    ensures n.None? && BreakAt(s, q) ==>
      AcceptRest(s, q, n, left, f, isMap, odd) == if isMap && odd then None else Some(([], q))
    ensures n != Some(0) && !(n.None? && BreakAt(s, q)) && !HeadOk(s, q) ==>
      AcceptRest(s, q, n, left, f, isMap, odd).None?
  {
    hide HeadOk, Accept, KeyIsText;
    NoHeadNotAccepted(s, q, left, f);
  }

  /** From one valid item to the next; the item was a key if it stood at an even place in a map. */
  lemma {:induction false} AcceptStepRest(s: seq<byte>, c: Cursor, left: nat, f: Policy, isMap: bool)
    requires Ready(s, c) && c.isMap == isMap
    ensures isMap && !c.odd && f.mapKeysAreString && !KeyIsText(s, c.ptr) ==> RestOf(s, c, left, f, isMap).None?
    ensures var d := AcceptStep(s, c, left, f);
      if d.None? then RestOf(s, c, left, f, isMap).None?
      else
        Accept(s, c.ptr, left, f) == Some(d.value.ptr) && c.ptr < d.value.ptr <= |s|
        && (d.value.remaining == 0 ==> d.value.unknown == (c.remaining == UINT32_MAX))
        && (d.value.remaining == 0 && d.value.unknown ==> BreakAt(s, d.value.ptr))
        && (d.value.remaining > 0 ==>
          Ready(s, d.value) && d.value.isMap == isMap && d.value.odd == !c.odd
          && (d.value.remaining == UINT32_MAX <==> c.remaining == UINT32_MAX)
          && (c.remaining != UINT32_MAX ==> d.value.remaining == c.remaining - 1))
        && (isMap && !c.odd && (c.remaining == UINT32_MAX || c.remaining >= 2) ==> d.value.remaining > 0)
        && (!(isMap && !c.odd && f.mapKeysAreString && !KeyIsText(s, c.ptr)) ==>
          RestOf(s, c, left, f, isMap)
          == KeysBefore(if isMap && !c.odd then [s[c.ptr..d.value.ptr]] else [], RestOf(s, d.value, left, f, isMap)))
  {
    hide HeadOk, TypeAt, Accept, KeyIsText;
    NoHeadNoItem(s, c.ptr, 0);
    NoHeadNotAccepted(s, c.ptr, left, f);
    var r := Accept(s, c.ptr, left, f);
    if r.Some? {
      var n := if c.remaining == UINT32_MAX then None else Some(c.remaining - 1);
      NoHeadNoItem(s, r.value, 0);
      RestStarts(s, r.value, n, left, f, isMap, !c.odd);
      NoKeysBefore(AcceptRest(s, r.value, n, left, f, isMap, !c.odd));
    }
  }

  lemma {:induction false} RestNeedsBytes(s: seq<byte>, p: nat, n: nat, left: nat, f: Policy, isMap: bool, odd: bool)
    requires p <= |s|
    ensures AcceptRest(s, p, Some(n), left, f, isMap, odd).Some? ==> p + n <= |s|
    decreases n
  {
    hide Accept, KeyIsText;
    if n > 0 {
      var first := Accept(s, p, left, f);
      if first.Some? {
        RestNeedsBytes(s, first.value, n - 1, left, f, isMap, !odd);
      }
    }
  }

  /** The content of a container, as the iterator on its items finds it, and what that makes of the container. */
  lemma {:induction false} EnterAccept(s: seq<byte>, c: Cursor, left: nat, f: Policy)
    requires Ready(s, c) && IsContainer(c) && |s| < UINT32_MAX && left > 0
    requires if c.unknown then !f.noIndeterminateLength else HeadPlain(s, c.ptr, f)
    ensures var d := Enter(s, c);
      if d.None? then Accept(s, c.ptr, left, f).None?
      else
        c.ptr < d.value.ptr <= |s|
        && (d.value.remaining == 0 ==> d.value.unknown == c.unknown)
        && (d.value.remaining == 0 && d.value.unknown ==> BreakAt(s, d.value.ptr))
        && (d.value.remaining > 0 ==>
          Ready(s, d.value) && (d.value.remaining == UINT32_MAX <==> c.unknown)
          && d.value.isMap == (c.ty == MAP_TYPE) && !d.value.odd
          && (c.ty == MAP_TYPE && !c.unknown ==> d.value.remaining % 2 == 0))
        && var r := RestOf(s, d.value, left - 1, f, c.ty == MAP_TYPE);
        Accept(s, c.ptr, left, f)
        == if left == 1 || r.None? || !KeysOk(c.ty == MAP_TYPE, r.value.0, f) then None
           else Some(r.value.1 + if c.unknown then 1 else 0)
  {
    hide KeysOk;
    AcceptContainer(s, c, left, f);
    if c.unknown {
      EnterUnknownAccept(s, c, left, f);
    } else {
      EnterKnownAccept(s, c, left, f);
    }
  }

  lemma {:induction false} AcceptContainer(s: seq<byte>, c: Cursor, left: nat, f: Policy)
    requires Ready(s, c) && IsContainer(c) && left > 0
    requires if c.unknown then !f.noIndeterminateLength else HeadPlain(s, c.ptr, f)
    ensures left == 1 ==> Accept(s, c.ptr, left, f).None?
    ensures left > 1 ==>
      var isMap := c.ty == MAP_TYPE;
      var r := if c.unknown then AcceptRest(s, c.ptr + 1, None, left - 1, f, isMap, false)
        else AcceptRest(s, HeadEnd(s, c.ptr), Some(ItemCount(s, c)), left - 1, f, isMap, false);
      Accept(s, c.ptr, left, f)
      == if r.None? || !KeysOk(isMap, r.value.0, f) then None else Some(r.value.1 + if c.unknown then 1 else 0)
  {
    hide AcceptRest, KeysOk, HeadPlain, HeadValue, KeyIsText;
  }

  lemma {:induction false} EnterUnknownAccept(s: seq<byte>, c: Cursor, left: nat, f: Policy)
    requires Ready(s, c) && IsContainer(c) && left > 0 && c.unknown
    ensures var isMap, d := c.ty == MAP_TYPE, Enter(s, c);
      if d.None? then AcceptRest(s, c.ptr + 1, None, left - 1, f, isMap, false).None?
      else
        d.value.ptr == c.ptr + 1 <= |s|
        && (d.value.remaining == 0 ==> d.value.unknown && BreakAt(s, d.value.ptr))
        && (d.value.remaining > 0 ==>
          Ready(s, d.value) && d.value.remaining == UINT32_MAX && d.value.isMap == isMap && !d.value.odd)
        && RestOf(s, d.value, left - 1, f, isMap) == AcceptRest(s, c.ptr + 1, None, left - 1, f, isMap, false)
  {
    hide Accept, TypeAt, KeyIsText;
    NoHeadNoItem(s, c.ptr + 1, 0);
    RestStarts(s, c.ptr + 1, None, left - 1, f, c.ty == MAP_TYPE, false);
  }

  lemma {:induction false} EnterKnownAccept(s: seq<byte>, c: Cursor, left: nat, f: Policy)
    requires Ready(s, c) && IsContainer(c) && left > 0 && !c.unknown && |s| < UINT32_MAX
    ensures var isMap, d := c.ty == MAP_TYPE, Enter(s, c);
      var r := AcceptRest(s, HeadEnd(s, c.ptr), Some(ItemCount(s, c)), left - 1, f, isMap, false);
      if d.None? then r.None?
      else
        d.value.ptr == HeadEnd(s, c.ptr)
        && (d.value.remaining == 0 ==> !d.value.unknown)
        && (d.value.remaining > 0 ==>
          Ready(s, d.value) && d.value.remaining == ItemCount(s, c) < UINT32_MAX
          && d.value.isMap == isMap && !d.value.odd)
        && RestOf(s, d.value, left - 1, f, isMap) == r
  {
    hide Accept, TypeAt, HeadValue, KeyIsText;
    var q, n := HeadEnd(s, c.ptr), ItemCount(s, c);
    NoHeadNoItem(s, q, 0);
    RestStarts(s, q, Some(n), left - 1, f, c.ty == MAP_TYPE, false);
    RestNeedsBytes(s, q, n, left - 1, f, c.ty == MAP_TYPE, false);
  }

  // ---------- The validator ----------

  /** A number can be read and takes no more bytes than it needs. */
  method ValidateNumber(it: CborValue, f: Policy) returns (ok: bool)
    requires it.ptr < |it.source|
    requires HALF_FLOAT_TYPE <= it.ty <= DOUBLE_TYPE <==> IsFloatAt(it.source, it.ptr)
    ensures HeadFits(it.source, it.ptr) ==> (ok <==> HeadPlain(it.source, it.ptr, f))
    ensures !HeadFits(it.source, it.ptr) ==> (ok <==> !f.shortestIntegrals || IsFloatAt(it.source, it.ptr))
  {
    hide HeadValue, Head;
    if !f.shortestIntegrals {
      return true;
    }
    if HALF_FLOAT_TYPE <= it.ty <= DOUBLE_TYPE {
      return true;
    }
    var err, value, bytesUsed := it.ExtractNumberChecked();
    if err != Error.NoError {
      return false;
    }
    var bytesNeeded := 0;
    if value >= 24 {
      bytesNeeded := bytesNeeded + 1;
    }
    if value > 0xff {
      bytesNeeded := bytesNeeded + 1;
    }
    if value > 0xffff {
      bytesNeeded := bytesNeeded + 2;
    }
    if value > 0xffffffff {
      bytesNeeded := bytesNeeded + 4;
    }
    HeadIsShortest(it.source, it.ptr);
    ok := bytesNeeded >= bytesUsed;
  }

  /** The chunks up to ptr of the string on which c stands are valid, and the rest decides. */
  ghost predicate Checked(s: seq<byte>, c: Cursor, first: bool, ptr: nat, f: Policy)
    requires c.ptr < |s|
  {
    var m := MajorAt(s, c.ptr);
    if c.unknown then AcceptChunks(s, c.ptr + 1, m, f) == AcceptChunks(s, ptr, m, f)
    else if first then ptr == c.ptr
    else
      HeadFits(s, c.ptr) && HeadPlain(s, c.ptr, f) && HeadEnd(s, c.ptr) + HeadValue(s, c.ptr) == ptr <= |s|
      && (m == TEXT_STRING ==> f.textAllowed(s[HeadEnd(s, c.ptr)..ptr]))
  }

  lemma {:induction false} AcceptString(s: seq<byte>, c: Cursor, left: nat, f: Policy)
    requires Ready(s, c) && (c.ty == BYTE_STRING_TYPE || c.ty == TEXT_STRING_TYPE)
    requires if c.unknown then !f.noIndeterminateLength else HeadPlain(s, c.ptr, f)
    ensures 32 * MajorAt(s, c.ptr) == c.ty && !BreakAt(s, c.ptr) && c.ptr < |s|
    ensures c.unknown ==>
      var r := AcceptChunks(s, c.ptr + 1, MajorAt(s, c.ptr), f);
      Accept(s, c.ptr, left, f) == if r.None? then None else Some(r.value + 1)
    ensures !c.unknown ==>
      HeadFits(s, c.ptr)
      && var q, end := HeadEnd(s, c.ptr), HeadEnd(s, c.ptr) + HeadValue(s, c.ptr);
      Accept(s, c.ptr, left, f)
      == if end <= |s| && (c.ty == TEXT_STRING_TYPE ==> f.textAllowed(s[q..end])) then Some(end) else None
  {
    hide HeadValue, HeadEnd, AcceptChunks, HeadPlain;
  }

  lemma {:induction false} CheckedStep(s: seq<byte>, c: Cursor, first: bool, ptr: nat, left: nat, f: Policy)
    requires Ready(s, c) && (c.ty == BYTE_STRING_TYPE || c.ty == TEXT_STRING_TYPE) && ptr <= |s|
    requires if c.unknown then !f.noIndeterminateLength else HeadPlain(s, c.ptr, f)
    requires c.ptr < |s| && Checked(s, c, first, ptr, f)
    ensures var here := ptr < |s| && 32 * MajorAt(s, ptr) == c.ty && !BreakAt(s, ptr) && HeadFits(s, ptr)
        && HeadEnd(s, ptr) + HeadValue(s, ptr) <= |s|;
      if (!c.unknown && !first) || BreakAt(s, ptr) then
        Accept(s, c.ptr, left, f) == Some(ptr + if c.unknown then 1 else 0)
      else if here && HeadPlain(s, ptr, f)
          && (c.ty == TEXT_STRING_TYPE ==> f.textAllowed(s[HeadEnd(s, ptr)..HeadEnd(s, ptr) + HeadValue(s, ptr)])) then
        Checked(s, c, false, HeadEnd(s, ptr) + HeadValue(s, ptr), f)
      else Accept(s, c.ptr, left, f).None?
  {
    hide HeadValue, HeadEnd, HeadPlain, Accept;
    AcceptString(s, c, left, f);
  }

  /** One chunk of a string: done says that there was none left. */
  method ValidateChunk(it: CborValue, f: Policy, ghost c: Cursor, ghost left: nat) returns (done: bool, ok: bool)
    requires Ready(it.source, c) && (c.ty == BYTE_STRING_TYPE || c.ty == TEXT_STRING_TYPE) && c.ptr < |it.source|
    requires if c.unknown then !f.noIndeterminateLength else HeadPlain(it.source, c.ptr, f)
    requires it.ptr <= |it.source| < UINT32_MAX && it.View() == c.(ptr := it.ptr)
    requires Checked(it.source, c, it.flags.negative, it.ptr, f)
    modifies it
    ensures it.ptr <= |it.source| && it.View() == c.(ptr := it.ptr)
    ensures !ok ==> Accept(it.source, c.ptr, left, f).None?
    ensures ok && done ==> Accept(it.source, c.ptr, left, f) == Some(it.ptr + if c.unknown then 1 else 0)
    ensures ok && !done ==> Checked(it.source, c, it.flags.negative, it.ptr, f) && it.ptr > old(it.ptr)
  {
    hide ValueOf, HeadValue, HeadOk, Next, Accept, Checked, HeadPlain, HeadEnd, HeadFits, BreakAt, TypeAt, IsFloatAt;
    CheckedStep(it.source, c, it.flags.negative, it.ptr, left, f);
    var next := new CborValue.Copy(it);
    var err, chunk := next.GetStringChunk();
    if err == Error.NoError {
      StringIsNoFloat(it.source, it.ptr);
      ok := ValidateNumber(it, f);
      if !ok {
        return false, false;
      }
    }
    it.Assign(next);
    if err == NoMoreStringChunks {
      return true, true;
    }
    if err != Error.NoError {
      return false, false;
    }
    return false, it.ty != TEXT_STRING_TYPE || f.textAllowed(chunk);
  }

  method ValidateString(it: CborValue, f: Policy, ghost left: nat) returns (ok: bool)
    requires it.Standing() && |it.source| < UINT32_MAX && (it.ty == BYTE_STRING_TYPE || it.ty == TEXT_STRING_TYPE)
    requires if it.flags.unknownLength then !f.noIndeterminateLength else HeadPlain(it.source, it.ptr, f)
    modifies it
    ensures it.ptr <= |it.source|
    ensures ok <==> AcceptStep(it.source, old(it.View()), left, f).Some?
    ensures ok ==> Some(it.View()) == AcceptStep(it.source, old(it.View()), left, f)
    ensures ok && it.remaining > 0 ==> it.Standing()
  {
    hide ValueOf, HeadValue, HeadOk, Next, Accept, Checked, HeadPlain, HeadEnd, HeadFits, BreakAt, TypeAt, IsFloatAt;
    ghost var c := it.View();
    var s := it.source;
    StringStarts(s, c, f);
    it.flags := it.flags.(iterating := true, negative := true);
    if it.flags.unknownLength {
      it.ptr := it.ptr + 1;
    }
    var done := false;
    while !done
      invariant it.ptr <= |s| && it.View() == c.(ptr := it.ptr)
      invariant !done ==> Checked(s, c, it.flags.negative, it.ptr, f)
      invariant done ==> Accept(s, c.ptr, left, f) == Some(it.ptr + if c.unknown then 1 else 0)
      decreases !done, |s| - it.ptr
    {
      done, ok := ValidateChunk(it, f, c, left);
      if !ok {
        return;
      }
    }
    EndInside(s, c, it.ptr, left, f);
    if it.flags.unknownLength {
      it.ptr := it.ptr + 1;
    }
    NextIgnoresType(s, it.View());
    var err := it.PreparseNextValue();
    ok := err == Error.NoError;
  }

  lemma {:induction false} StringStarts(s: seq<byte>, c: Cursor, f: Policy)
    requires Ready(s, c)
    ensures c.ptr < |s| && Checked(s, c, true, c.ptr + if c.unknown then 1 else 0, f)
  {
  }

  lemma StringIsNoFloat(s: seq<byte>, p: nat)
    ensures p < |s| && (32 * MajorAt(s, p) == BYTE_STRING_TYPE || 32 * MajorAt(s, p) == TEXT_STRING_TYPE) ==>
      !IsFloatAt(s, p)
  {}

  lemma {:induction false} EndInside(s: seq<byte>, c: Cursor, ptr: nat, left: nat, f: Policy)
    requires c.unknown ==> Accept(s, c.ptr, left, f) == Some(ptr + 1)
    ensures c.unknown ==> ptr + 1 <= |s|
  {}

  /** What comes next does not depend on the type, unless it is a tag. */
  lemma NextIgnoresType(s: seq<byte>, c: Cursor)
    ensures c.remaining > 0 && c.ty != TAG_TYPE ==> Next(s, c) == Next(s, c.(ty := INTEGER_TYPE))
  {
    hide HeadOk, TypeAt;
  }

  /** The items of a container, keys in order. */
  method ValidateContainer(it: CborValue, isMap: bool, f: Policy, left: nat) returns (ok: bool)
    requires |it.source| < UINT32_MAX && it.ptr <= |it.source|
    requires it.remaining > 0 ==>
      it.Standing() && it.flags.isMap == isMap && !it.flags.nextIsMapKey
      && (isMap && it.remaining != UINT32_MAX ==> it.remaining % 2 == 0)
    requires it.remaining == 0 && it.flags.unknownLength ==> BreakAt(it.source, it.ptr)
    modifies it
    ensures it.ptr <= |it.source|
    ensures var r := RestOf(it.source, old(it.View()), left, f, isMap);
      (ok <==> left > 0 && r.Some? && KeysOk(isMap, r.value.0, f)) && (ok ==> it.ptr == r.value.1 && it.remaining == 0)
    ensures ok ==>
      it.flags.unknownLength
      == if old(it.remaining) == 0 then old(it.flags.unknownLength) else old(it.remaining) == UINT32_MAX
    ensures ok && it.flags.unknownLength ==> BreakAt(it.source, it.ptr)
    decreases left, 2
  {
    hide ValueOf, HeadValue, HeadOk, Next, Accept, AcceptStep, RestOf, KeyIsText, TypeAt, BreakAt, Ordered, CompareKeys;
    if left == 0 {
      return false;
    }
    ghost var c := it.View();
    var s := it.source;
    ghost var keys: seq<seq<byte>> := [];
    var previous: Option<seq<byte>> := None;
    StartOfKeys(RestOf(s, c, left, f, isMap), f.Unique());
    while it.remaining != 0
      invariant it.ptr <= |s|
      invariant it.remaining > 0 ==>
        it.Standing() && it.flags.isMap == isMap && (isMap ==> !it.flags.nextIsMapKey)
        && (isMap && it.remaining != UINT32_MAX ==> it.remaining % 2 == 0)
        && (it.remaining == UINT32_MAX <==> c.remaining == UINT32_MAX) && c.remaining > 0
      invariant it.remaining == 0 ==>
        it.flags.unknownLength == if c.remaining == 0 then c.unknown else c.remaining == UINT32_MAX
      invariant it.remaining == 0 && it.flags.unknownLength ==> BreakAt(s, it.ptr)
      invariant RestOf(s, c, left, f, isMap) == KeysBefore(keys, RestOf(s, it.View(), left, f, isMap))
      invariant isMap && f.Sorts() ==> Ordered(keys, f.Unique()) && previous == LastOf(keys)
      decreases |s| - it.ptr
    {
      ghost var before, d := it.ptr, it.View();
      AcceptStepRest(s, d, left, f, isMap);
      if isMap && f.mapKeysAreString {
        var text := CheckKeyIsText(it);
        if !text {
          return false;
        }
      }
      var current := it.ptr;
      ok := ValidateValue(it, f, left);
      if !ok {
        return;
      }
      MoreKeysBefore(keys, if isMap && !d.odd then [s[before..it.ptr]] else [], RestOf(s, it.View(), left, f, isMap));
      if !isMap {
        NoMoreKeys(keys);
        continue;
      }
      var key := s[current..it.ptr];
      if f.Sorts() {
        ok := CheckOrder(previous, key, f, keys);
        if !ok {
          NotOrdered(keys + [key], RestOf(s, it.View(), left, f, isMap), f);
          return;
        }
        previous := Some(key);
      }
      keys := keys + [key];
      AcceptStepRest(s, it.View(), left, f, isMap);
      ok := ValidateValue(it, f, left);
      if !ok {
        return;
      }
      NoKeysBefore(RestOf(s, it.View(), left, f, isMap));
    }
    EndOfKeys(s, it.View(), keys, left, f, isMap);
    ok := true;
  }

  /** The order of a key and the one before it. */
  method CheckOrder(previous: Option<seq<byte>>, key: seq<byte>, f: Policy, ghost keys: seq<seq<byte>>)
    returns (ok: bool)
    requires f.Sorts() && Ordered(keys, f.Unique()) && previous == LastOf(keys)
    ensures ok <==> Ordered(keys + [key], f.Unique())
  {
    hide Ordered, CompareKeys;
    NeighboursAreEnough(keys, key, f.Unique());
    if previous.Some? {
      var r := CompareKeys(previous.value, key);
      CompareIsOrder(previous.value, key);
      if r > 0 || (r == 0 && f.Unique()) {
        return false;
      }
    }
    ok := true;
  }

  function LastOf(keys: seq<seq<byte>>): Option<seq<byte>> {
    if keys == [] then None else Some(keys[|keys| - 1])
  }

  lemma StartOfKeys(r: Option<(seq<seq<byte>>, nat)>, unique: bool)
    ensures KeysBefore([], r) == r && Ordered([], unique)
  {
    NoKeysBefore(r);
  }

  lemma NoMoreKeys(keys: seq<seq<byte>>)
    ensures keys + [] == keys
  {}

  lemma {:induction false} EndOfKeys(s: seq<byte>, c: Cursor, keys: seq<seq<byte>>, left: nat, f: Policy, isMap: bool)
    requires c.remaining == 0
    ensures KeysBefore(keys, RestOf(s, c, left, f, isMap)) == Some((keys, c.ptr))
  {
    NoMoreKeys(keys);
  }

  /** Two keys out of order spoil the container, whatever follows. */
  lemma {:induction false} NotOrdered(keys: seq<seq<byte>>, r: Option<(seq<seq<byte>>, nat)>, f: Policy)
    requires !Ordered(keys, f.Unique())
    ensures r.Some? ==> !Ordered(KeysBefore(keys, r).value.0, f.Unique())
  {
    hide Ordered;
    if r.Some? && Ordered(keys + r.value.0, f.Unique()) {
      OrderedPrefix(keys, r.value.0, f.Unique());
    }
  }

  /** Looks behind the tags of a key, on a copy of the iterator. */
  method CheckKeyIsText(it: CborValue) returns (ok: bool)
    requires it.Standing() && |it.source| < UINT32_MAX
    ensures ok <==> KeyIsText(it.source, it.ptr)
  {
    hide HeadOk, TypeAt, Step;
    UntaggedText(it.source, it.View());
    var ty := it.ty;
    if ty == TAG_TYPE {
      var copy := new CborValue.Copy(it);
      var err := copy.SkipTag();
      if err != Error.NoError {
        return false;
      }
      ty := copy.ty;
    }
    ok := ty == TEXT_STRING_TYPE;
  }

  lemma {:induction false} UntaggedText(s: seq<byte>, c: Cursor)
    requires Ready(s, c)
    ensures KeyIsText(s, c.ptr) <==> Untagged(s, c).Some? && Untagged(s, c).value.ty == TEXT_STRING_TYPE
    decreases if c.ptr <= |s| then |s| - c.ptr else 0
  {
    hide HeadOk, TypeAt;
    if c.ty == TAG_TYPE {
      TagKnown(s, c);
      TagOnlyAtTag(s, c.ptr, 0);
      TagStepRest(s, c, 0);
      NoHeadNoItem(s, HeadEnd(s, c.ptr), 0);
      if Step(s, c, 0).Some? {
        UntaggedText(s, Step(s, c, 0).value);
      }
    }
  }

  lemma {:induction false} HeadOfValue(s: seq<byte>, c: Cursor, left: nat, f: Policy)
    requires Ready(s, c)
    ensures c.ptr < |s|
    ensures !c.unknown ==>
      HeadFits(s, c.ptr) && (HALF_FLOAT_TYPE <= c.ty <= DOUBLE_TYPE <==> IsFloatAt(s, c.ptr))
      && (!HeadPlain(s, c.ptr, f) ==> Accept(s, c.ptr, left, f).None?)
    ensures c.unknown && f.noIndeterminateLength ==> Accept(s, c.ptr, left, f).None?
  {
    hide HeadPlain, AcceptKnown, AcceptRest, HeadValue;
  }

  lemma {:induction false} TagAccepted(s: seq<byte>, c: Cursor, left: nat, f: Policy)
    requires Ready(s, c) && c.ty == TAG_TYPE && left > 0
    requires c.unknown || HeadPlain(s, c.ptr, f)
    ensures !c.unknown && HeadFits(s, c.ptr)
    ensures var d := Step(s, c, 0);
      if d.None? then Accept(s, c.ptr, left, f).None?
      else
        Ready(s, d.value) && c.ptr < d.value.ptr
        && AcceptStep(s, c, left, f)
        == if left == 1 || !f.tagAllowed(HeadValue(s, c.ptr), d.value.ty) then None
           else AcceptStep(s, d.value, left - 1, f)
  {
    hide HeadValue, HeadPlain, HeadOk, TypeAt, Accept;
    TagKnown(s, c);
    TagOnlyAtTag(s, c.ptr, 0);
    TagStepRest(s, c, 0);
    AcceptTagged(s, c.ptr, left, f);
    NoHeadNoItem(s, HeadEnd(s, c.ptr), 0);
    var d := Step(s, c, 0);
    if d.Some? && left > 1 && Accept(s, d.value.ptr, left - 1, f).Some? {
      var q := Accept(s, d.value.ptr, left - 1, f).value;
      NextForgetsMore(s, c.(ptr := q, ty := INTEGER_TYPE), d.value.(ptr := q, ty := INTEGER_TYPE));
    }
  }

  lemma {:induction false} AcceptTagged(s: seq<byte>, p: nat, left: nat, f: Policy)
    requires HeadOk(s, p) && HeadFits(s, p)
    ensures MajorAt(s, p) == TAG && HeadPlain(s, p, f) ==>
      Accept(s, p, left, f)
      == if left <= 1 || !HeadOk(s, HeadEnd(s, p)) || !f.tagAllowed(HeadValue(s, p), TypeAt(s, HeadEnd(s, p))) then None
         else Accept(s, HeadEnd(s, p), left - 1, f)
  {
    hide HeadValue, HeadPlain, TypeAt;
  }

  lemma {:induction false} SimpleAccepted(s: seq<byte>, c: Cursor, left: nat, f: Policy)
    requires Ready(s, c) && IsFixedType(c.ty) && c.ty != TAG_TYPE
    requires c.unknown || HeadPlain(s, c.ptr, f)
    ensures !c.unknown && HeadFits(s, c.ptr)
    ensures AcceptStep(s, c, left, f)
      == if MajorAt(s, c.ptr) == SIMPLE && !SimpleOk(s, c.ptr, f) then None else Step(s, c, 0)
  {
    hide HeadValue, HeadPlain, SimpleOk, Next;
    FixedStep(s, c, 0);
    NextIgnoresType(s, c.(ptr := HeadEnd(s, c.ptr)));
  }

  method ValidateSimple(it: CborValue, f: Policy) returns (ok: bool)
    requires it.Standing() && !it.flags.unknownLength && HeadFits(it.source, it.ptr)
    ensures ok <==> (MajorAt(it.source, it.ptr) == SIMPLE ==> SimpleOk(it.source, it.ptr, f))
  {
    hide ValueOf;
    if it.ty == SIMPLE_TYPE {
      ok := f.SimpleAllowed(it.extra);
    } else if it.ty == UNDEFINED_TYPE {
      ok := !f.noUndefined;
    } else if it.ty == HALF_FLOAT_TYPE || it.ty == FLOAT_TYPE || it.ty == DOUBLE_TYPE {
      var v := it.ExtractNumber();
      ok := f.floatAllowed(it.ty, v);
    } else {
      ok := true;
    }
  }

  /** An array or a map. */
  method ValidateList(it: CborValue, f: Policy, left: nat) returns (ok: bool)
    requires it.Standing() && |it.source| < UINT32_MAX && left > 0
    requires IsContainer(it.View())
    requires if it.flags.unknownLength then !f.noIndeterminateLength else HeadPlain(it.source, it.ptr, f)
    modifies it
    ensures it.ptr <= |it.source|
    ensures ok <==> AcceptStep(it.source, old(it.View()), left, f).Some?
    ensures ok ==> Some(it.View()) == AcceptStep(it.source, old(it.View()), left, f)
    ensures ok && it.remaining > 0 ==> it.Standing()
    decreases left, 0
  {
    hide ValueOf, HeadValue, Next, Accept, HeadPlain, TypeAt, RestOf, KeysOk, BreakAt, HeadOk, HeadFits, Enter,
      SimpleOk;
    ghost var c := it.View();
    var s := it.source;
    NoHeadNoItem(s, c.ptr, 0);
    EnterAccept(s, c, left, f);
    var isMap := it.ty == MAP_TYPE;
    var err, recursed := it.EnterContainer();
    if err != Error.NoError {
      return false;
    }
    ok := ValidateContainer(recursed, isMap, f, left - 1);
    if !ok {
      return;
    }
    BreakInside(s, recursed.ptr);
    NextIgnoresType(s, c.(ptr := recursed.ptr + if recursed.flags.unknownLength then 1 else 0));
    err := it.LeaveContainer(recursed);
    ok := err == Error.NoError;
  }

  /** A tag, and what it tags. */
  method ValidateTagged(it: CborValue, f: Policy, left: nat) returns (ok: bool)
    requires it.Standing() && |it.source| < UINT32_MAX && left > 0
    requires it.ty == TAG_TYPE
    requires if it.flags.unknownLength then !f.noIndeterminateLength else HeadPlain(it.source, it.ptr, f)
    modifies it
    ensures it.ptr <= |it.source|
    ensures ok <==> AcceptStep(it.source, old(it.View()), left, f).Some?
    ensures ok ==> Some(it.View()) == AcceptStep(it.source, old(it.View()), left, f)
    ensures ok && it.remaining > 0 ==> it.Standing()
    decreases left, 0
  {
    hide AcceptStep, Step, ValueOf, HeadValue, Next, Accept, HeadPlain, TypeAt, RestOf, KeysOk, BreakAt, HeadOk,
      HeadFits, Enter, SimpleOk;
    TagAccepted(it.source, it.View(), left, f);
    var tag := it.ExtractNumber();
    var err := it.AdvanceFixed();
    if err != Error.NoError {
      NotAccepted(it.source, old(it.View()), left, f);
      return false;
    }
    if left == 1 || !f.tagAllowed(tag, it.ty) {
      return false;
    }
    ok := ValidateValue(it, f, left - 1);
  }

  lemma {:induction false} NotAccepted(s: seq<byte>, c: Cursor, left: nat, f: Policy)
    requires Ready(s, c) && Accept(s, c.ptr, left, f).None?
    ensures AcceptStep(s, c, left, f).None?
  {}

  /** One item with its tags. */
  method ValidateValue(it: CborValue, f: Policy, left: nat) returns (ok: bool)
    requires it.Standing() && |it.source| < UINT32_MAX && left > 0
    modifies it
    ensures it.ptr <= |it.source|
    ensures ok <==> AcceptStep(it.source, old(it.View()), left, f).Some?
    ensures ok ==> Some(it.View()) == AcceptStep(it.source, old(it.View()), left, f)
    ensures ok && it.remaining > 0 ==> it.Standing()
    decreases left, 1
  {
    hide ValueOf, HeadValue, Next, Accept, HeadPlain, TypeAt, RestOf, KeysOk, BreakAt, HeadOk, HeadFits, Enter,
      SimpleOk;
    ghost var c := it.View();
    HeadOfValue(it.source, c, left, f);
    if !it.flags.unknownLength {
      ok := ValidateNumber(it, f);
      if !ok {
        return;
      }
    } else if f.noIndeterminateLength {
      return false;
    }
    if it.ty == ARRAY_TYPE || it.ty == MAP_TYPE {
      ok := ValidateList(it, f, left);
    } else if it.ty == BYTE_STRING_TYPE || it.ty == TEXT_STRING_TYPE {
      ok := ValidateString(it, f, left);
    } else if it.ty == TAG_TYPE {
      ok := ValidateTagged(it, f, left);
    } else {
      SimpleAccepted(it.source, c, left, f);
      ok := ValidateSimple(it, f);
      if !ok {
        return;
      }
      var err := it.AdvanceFixed();
      ok := err == Error.NoError;
    }
  }

  /** Validates the item on which an iterator stands, without moving it. */
  method Validate(it: CborValue, f: Policy) returns (ok: bool)
    requires it.Standing() && |it.source| < UINT32_MAX
    ensures ok <==> AcceptStep(it.source, it.View(), MAX_RECURSIONS, f).Some?
  {
    hide AcceptStep;
    var value := new CborValue.Copy(it);
    ok := ValidateValue(value, f, MAX_RECURSIONS);
  }
}
