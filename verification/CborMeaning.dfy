/** What the calls of an encoder mean: the items that a reader finds in the bytes they write. */
module CborMeaning {
  import opened Bytes
  import opened Wrappers
  import opened CborFormat
  import opened CborTree
  import Enc = CborEncoder

  /**
   Calls from which whole items come: legal values (of which the reader refuses
   simple value 24), a call behind every tag, values for all keys, and no more
   items than can be counted.
   */
  predicate Whole(op: Enc.Op) {
    match op
    case SimpleValue(v) => v != 24 && !Enc.Illegal(v)
    case Container(isMap, length, ops) =>
      !Enc.TooLarge(isMap, length) && AllWhole(ops)
      && if length == Enc.INDEFINITE_LENGTH then Enc.Count(ops) <= MAX_UINT64 && (isMap ==> Enc.Count(ops) % 2 == 0)
      else Enc.Count(ops) == if isMap then 2 * length else length
    case _ => true
  }

  predicate AllWhole(ops: seq<Enc.Op>) {
    ops == [] || (Whole(ops[0]) && AllWhole(ops[1..]) && (ops[0].TagOp? ==> ops[1..] != []))
  }

  /** The item that a call writes, unless it is a tag. */
  function ItemOf(op: Enc.Op): Item
    requires Whole(op) && !op.TagOp?
    decreases op
  {
    match op
    case Uint(v) => Number(false, v)
    case NegativeInt(a) => Number(true, if a == 0 then MAX_UINT64 else a - 1)
    case Int(i) => if i < 0 then Number(true, -i - 1) else Number(false, i)
    case SimpleValue(v) => Simple(v)
    case FloatingPoint(kind, bits) => Float(kind, bits)
    case StringOp(text, c) => Str(text, c)
    case Container(isMap, length, ops) =>
      if isMap then Map(length != Enc.INDEFINITE_LENGTH, ItemsOf(ops))
      else Array(length != Enc.INDEFINITE_LENGTH, ItemsOf(ops))
  }

  /** The items that a sequence of calls writes; a tag goes in front of the next one. */
  function ItemsOf(ops: seq<Enc.Op>): (items: seq<Item>)
    requires AllWhole(ops)
    ensures ops != [] ==> items != []
    decreases ops
  {
    if ops == [] then []
    else
      var rest := ItemsOf(ops[1..]);
      if ops[0].TagOp? then [Tagged(ops[0].tag, rest[0])] + rest[1..] else [ItemOf(ops[0])] + rest
  }

  /** Each call writes the encoding of its item. */
  lemma {:induction false} CallWritesItem(op: Enc.Op)
    requires Enc.InRange(op) && Whole(op) && !op.TagOp?
    ensures Encodable(ItemOf(op)) && Encode(ItemOf(op)) == Enc.Flat(Enc.Chunks(op)) && Enc.Counts(op)
    decreases op, 2
  {
    hide Enc.Flat, Head, BigEndian, Base;
    match op
    case StringOp(text, c) =>
      Enc.FlatTwo(Head(if text then TEXT_STRING else BYTE_STRING, |c|), c);
    case Container(isMap, length, ops) =>
      ContainerWritesItem(isMap, length, ops);
    case TagOp(_) =>
    case _ =>
      Enc.FlatOne(Encode(ItemOf(op)));
  }

  lemma {:induction false} ContainerWritesItem(isMap: bool, length: nat, ops: seq<Enc.Op>)
    requires Enc.InRange(Enc.Container(isMap, length, ops)) && Whole(Enc.Container(isMap, length, ops))
    ensures var op := Enc.Container(isMap, length, ops);
      Encodable(ItemOf(op)) && Encode(ItemOf(op)) == Enc.Flat(Enc.Chunks(op)) && Enc.Counts(op)
    decreases ops, 1
  {
    hide Enc.Flat, Head, EncodeAll, AllEncodable, ItemsOf, Enc.Chunks;
    CallsWriteItems(ops);
    Enc.FlatContainer(isMap, length, ops);
  }

  lemma {:induction false} CallsWriteItems(ops: seq<Enc.Op>)
    requires Enc.AllInRange(ops) && AllWhole(ops)
    ensures AllEncodable(ItemsOf(ops)) && EncodeAll(ItemsOf(ops)) == Enc.Flat(Enc.ChunksOf(ops))
    ensures |ItemsOf(ops)| == Enc.Count(ops)
    decreases ops, 0
  {
    hide Enc.Flat, Encode, Encodable, Head, Enc.Chunks, Enc.InRange;
    if ops == [] {
      Enc.NoChunk(Enc.Sink([], None, 0));
    } else {
      CallsWriteItems(ops[1..]);
      Enc.FlatConcat(Enc.Chunks(ops[0]), Enc.ChunksOf(ops[1..]));
      var rest := ItemsOf(ops[1..]);
      if ops[0].TagOp? {
        TagWrites(ops[0]);
        TagInFront(ops[0].tag, rest);
      } else {
        CallWritesItem(ops[0]);
        ItemInFront(ItemOf(ops[0]), rest);
      }
    }
  }

  lemma TagWrites(op: Enc.Op)
    requires op.TagOp? && Enc.InRange(op)
    ensures Enc.Flat(Enc.Chunks(op)) == Head(TAG, op.tag) && !Enc.Counts(op) && op.tag <= MAX_UINT64
  {
    hide Enc.Flat, Head;
    Enc.FlatOne(Head(TAG, op.tag));
  }

  lemma ItemInFront(t: Item, rest: seq<Item>)
    requires Encodable(t) && AllEncodable(rest)
    ensures AllEncodable([t] + rest) && EncodeAll([t] + rest) == Encode(t) + EncodeAll(rest)
  {
    hide Encode, Encodable;
    assert ([t] + rest)[1..] == rest;
  }

  lemma TagInFront(tag: nat, rest: seq<Item>)
    requires tag <= MAX_UINT64 && rest != [] && AllEncodable(rest)
    ensures var items := [Tagged(tag, rest[0])] + rest[1..];
      AllEncodable(items) && EncodeAll(items) == Head(TAG, tag) + EncodeAll(rest)
  {
    hide Head, Encode, Encodable, EncodeAll, AllEncodable;
    FirstEncodes(rest);
    TaggedEncodes(tag, rest[0]);
    ItemInFront(Tagged(tag, rest[0]), rest[1..]);
  }

  lemma FirstEncodes(items: seq<Item>)
    requires items != [] && AllEncodable(items)
    ensures Encodable(items[0]) && AllEncodable(items[1..])
    ensures EncodeAll(items) == Encode(items[0]) + EncodeAll(items[1..])
  {
    hide Encode, Encodable;
  }

  lemma TaggedEncodes(tag: nat, t: Item)
    requires tag <= MAX_UINT64 && Encodable(t)
    ensures Encodable(Tagged(tag, t)) && Encode(Tagged(tag, t)) == Head(TAG, tag) + Encode(t)
  {}

  /** A reader of the bytes that the calls write finds their items, and nothing else. */
  lemma CallsReadBack(ops: seq<Enc.Op>, depth: nat)
    requires Enc.AllInRange(ops) && AllWhole(ops) && DepthOfAll(ItemsOf(ops)) <= depth
    ensures var s := Enc.Flat(Enc.ChunksOf(ops));
      ParseItems(s, 0, Enc.Count(ops), depth) == Some((ItemsOf(ops), |s|))
  {
    hide Enc.Flat, Enc.ChunksOf, ParseItems, EncodeAll, AllEncodable, ItemsOf;
    CallsWriteItems(ops);
    var s := EncodeAll(ItemsOf(ops));
    assert Stands(s, 0, s);
    ItemsReadBack(ItemsOf(ops), s, 0, depth);
  }

  /** What one call writes reads back as its item. */
  lemma CallReadsBack(op: Enc.Op, depth: nat)
    requires Enc.InRange(op) && Whole(op) && !op.TagOp? && Depth(ItemOf(op)) <= depth
    ensures var s := Enc.Flat(Enc.Chunks(op));
      ParseItem(s, 0, depth) == Some((ItemOf(op), |s|))
  {
    hide Enc.Flat, Enc.Chunks, ParseItem, Encode, Encodable, ItemOf;
    CallWritesItem(op);
    var s := Encode(ItemOf(op));
    assert Stands(s, 0, s);
    ItemReadsBack(ItemOf(op), s, 0, depth);
  }

  /** The item at the start of the bytes is a number that stands for the integer. */
  predicate ReadsAsInteger(s: seq<byte>, i: int) {
    var r := ParseItem(s, 0, 0);
    r.Some? && r.value.0.Number? && IntegerOf(r.value.0) == i && r.value.1 == |s|
  }

  /** The three calls for integers write the integer they are given. */
  lemma IntegersReadBack(i: int, v: nat)
    ensures -0x8000_0000_0000_0000 <= i < 0x8000_0000_0000_0000 ==> ReadsAsInteger(Enc.Flat(Enc.Chunks(Enc.Int(i))), i)
    ensures v < 0x1_0000_0000_0000_0000 ==> ReadsAsInteger(Enc.Flat(Enc.Chunks(Enc.Uint(v))), v)
    ensures v < 0x1_0000_0000_0000_0000 ==>
      ReadsAsInteger(Enc.Flat(Enc.Chunks(Enc.NegativeInt(v))), if v == 0 then -0x1_0000_0000_0000_0000 else -(v as int))
  {
    hide Enc.Flat, Enc.Chunks, ParseItem;
    if -0x8000_0000_0000_0000 <= i < 0x8000_0000_0000_0000 {
      CallReadsBack(Enc.Int(i), 0);
    }
    if v < 0x1_0000_0000_0000_0000 {
      CallReadsBack(Enc.Uint(v), 0);
      CallReadsBack(Enc.NegativeInt(v), 0);
    }
  }
}
