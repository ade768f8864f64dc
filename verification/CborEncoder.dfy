/** The CBOR encoder: it writes until the buffer is full, and from then on counts. */
module CborEncoder {
  import opened Bytes
  import opened Wrappers
  import opened CborFormat
  import CborTree

  /** The largest value of size_t, and the length that stands for an unknown one. */
  const SIZE_MAX: nat := 0xFFFF_FFFF
  const INDEFINITE_LENGTH: nat := SIZE_MAX

  datatype Error = NoError | OutOfMemory | TooManyItems | TooFewItems | IllegalSimpleType | DataTooLarge

  // ---------- The specification: chunks appended to a buffer ----------

  /** The buffer, its end (or none once it overflowed), and the position, or the number of bytes needed. */
  datatype Sink = Sink(buffer: seq<byte>, end: Option<nat>, data: nat) {
    predicate Valid() {
      end.Some? ==> data <= end.value <= |buffer|
    }

    predicate WouldOverflow(len: nat) {
      if end.Some? then end.value - data - len < 0 else 0 - data - len < 0
    }

    /** A chunk is written whole or not at all. */
    function Append(chunk: seq<byte>): Sink
      requires Valid()
    {
      if WouldOverflow(|chunk|) then
        if end.Some? then Sink(buffer, None, |chunk| - (end.value - data)) else Sink(buffer, None, data + |chunk|)
      else if end.Some? then Sink(buffer[..data] + chunk + buffer[data + |chunk|..], end, data + |chunk|)
      else this
    }

    lemma AppendValid(chunk: seq<byte>)
      requires Valid()
      ensures Append(chunk).Valid() && |Append(chunk).buffer| == |buffer|
    {}
  }

  function AppendAll(k: Sink, chunks: seq<seq<byte>>): (r: Sink)
    requires k.Valid()
    ensures r.Valid() && |r.buffer| == |k.buffer|
    decreases |chunks|
  {
    if chunks == [] then k
    else
      k.AppendValid(chunks[0]);
      AppendAll(k.Append(chunks[0]), chunks[1..])
  }

  function Flat(chunks: seq<seq<byte>>): seq<byte> {
    if chunks == [] then [] else chunks[0] + Flat(chunks[1..])
  }

  lemma {:induction false} AppendAllConcat(k: Sink, a: seq<seq<byte>>, b: seq<seq<byte>>)
    requires k.Valid()
    ensures AppendAll(k, a + b) == AppendAll(AppendAll(k, a), b)
    decreases |a|
  {
    hide Sink.Append;
    if a == [] {
      assert a + b == b;
    } else {
      k.AppendValid(a[0]);
      assert (a + b)[1..] == a[1..] + b;
      AppendAllConcat(k.Append(a[0]), a[1..], b);
    }
  }

  lemma {:induction false} FlatConcat(a: seq<seq<byte>>, b: seq<seq<byte>>)
    ensures Flat(a + b) == Flat(a) + Flat(b)
    decreases |a|
  {
    if a == [] {
      assert a + b == b;
    } else {
      assert (a + b)[1..] == a[1..] + b;
      FlatConcat(a[1..], b);
    }
  }

  lemma AppendOne(k: Sink, a: seq<byte>)
    requires k.Valid()
    ensures k.Append(a).Valid() && AppendAll(k, [a]) == k.Append(a)
  {
    hide Sink.Append;
    k.AppendValid(a);
    assert [a][1..] == [];
  }

  lemma AppendTwo(k: Sink, a: seq<byte>, b: seq<byte>)
    requires k.Valid()
    ensures k.Append(a).Valid() && AppendAll(k, [a, b]) == k.Append(a).Append(b)
    ensures a != [] ==>
      (k.Append(a).WouldOverflow(|b|) <==> AppendAll(k, [a, b]).end.None?)
  {
    AppendOne(k.Append(a), b);
    assert [a, b] == [a] + [b];
    AppendAllConcat(k, [a], [b]);
    AppendOne(k, a);
  }

  /** The sink that starts at position at of a buffer of n bytes, n = 0 with no buffer being already past its end. */
  predicate Starts(k: Sink, buffer: seq<byte>, n: nat) {
    k.buffer == buffer && n <= |buffer| && k.data == 0 && (k.end == Some(n) || (k.end == None && n == 0))
  }

  /** After out has been sent to a sink that started with n bytes. */
  ghost predicate Received(k: Sink, buffer: seq<byte>, n: nat, out: seq<byte>) {
    |k.buffer| == |buffer| && n <= |buffer|
    && if k.end.Some? then
        k.end.value == n && k.data == |out| <= n && k.buffer == out + buffer[|out|..]
      else
        n <= |out| && k.data == |out| - n
        && exists w :: 0 <= w <= n && k.buffer == out[..w] + buffer[w..] && (n == 0 || |out| > n)
  }

  lemma ReceivedMore(k: Sink, buffer: seq<byte>, n: nat, out: seq<byte>, chunk: seq<byte>)
    requires k.Valid() && Received(k, buffer, n, out)
    ensures Received(k.Append(chunk), buffer, n, out + chunk)
  {
    var r := k.Append(chunk);
    if k.end.None? {
      var w :| 0 <= w <= n && k.buffer == out[..w] + buffer[w..] && (n == 0 || |out| > n);
      assert r.buffer == (out + chunk)[..w] + buffer[w..];
    } else if r.end.None? {
      assert r.buffer == (out + chunk)[..|out|] + buffer[|out|..];
    }
  }

  lemma {:induction false} ReceivedAll(k: Sink, buffer: seq<byte>, n: nat, out: seq<byte>, chunks: seq<seq<byte>>)
    requires k.Valid() && Received(k, buffer, n, out)
    ensures Received(AppendAll(k, chunks), buffer, n, out + Flat(chunks))
    decreases |chunks|
  {
    hide Received, Sink.Append;
    if chunks == [] {
      assert out + Flat(chunks) == out;
    } else {
      ReceivedMore(k, buffer, n, out, chunks[0]);
      k.AppendValid(chunks[0]);
      ReceivedAll(k.Append(chunks[0]), buffer, n, out + chunks[0], chunks[1..]);
      assert out + chunks[0] + Flat(chunks[1..]) == out + Flat(chunks);
    }
  }

  /**
   An output that fits is in the buffer, byte for byte; of one that does not,
   a prefix is in the buffer, nothing else has changed, and the count says
   exactly how many bytes were missing.
   */
  lemma CountIsExact(k: Sink, buffer: seq<byte>, n: nat, chunks: seq<seq<byte>>)
    requires Starts(k, buffer, n)
    ensures k.Valid()
    ensures var (r, out) := (AppendAll(k, chunks), Flat(chunks));
      (|out| <= n && out != [] ==> r.end == Some(n) && r.data == |out| && r.buffer == out + buffer[|out|..])
      && (|out| > n ==>
        r.end == None && r.data == |out| - n && exists w :: 0 <= w <= n && r.buffer == out[..w] + buffer[w..])
  {
    hide AppendAll, Flat;
    assert Received(k, buffer, n, []) by {
      assert buffer == [][..0] + buffer[0..];
    }
    ReceivedAll(k, buffer, n, [], chunks);
    assert [] + Flat(chunks) == Flat(chunks);
  }

  // ---------- Operations ----------

  /** What a client does with an encoder; a container is created, filled with operations and closed. */
  datatype Op =
    | Uint(value: nat)
    | NegativeInt(absolute: nat)
    | Int(i: int)
    | SimpleValue(v: byte)
    | FloatingPoint(kind: nat, bits: nat)
    | TagOp(tag: nat)
    | StringOp(text: bool, content: seq<byte>)
    | Container(isMap: bool, length: nat, ops: seq<Op>)

  /** The arguments are in the range of their C types; strings are shorter than half the address space. */
  predicate InRange(op: Op) {
    match op
    case Uint(v) => v <= MAX_UINT64
    case NegativeInt(a) => a <= MAX_UINT64
    case Int(i) => -0x8000_0000_0000_0000 <= i < 0x8000_0000_0000_0000
    case SimpleValue(_) => true
    case FloatingPoint(kind, bits) => kind <= 2 && bits < Base(Size(HALF_FLOAT + kind))
    case TagOp(t) => t <= MAX_UINT64
    case StringOp(_, c) => |c| <= SIZE_MAX / 2
    case Container(_, length, ops) => length <= SIZE_MAX && AllInRange(ops)
  }

  predicate AllInRange(ops: seq<Op>) {
    ops == [] || (InRange(ops[0]) && AllInRange(ops[1..]))
  }

  predicate TooLarge(isMap: bool, length: nat) {
    isMap && length != INDEFINITE_LENGTH && length > SIZE_MAX / 2
  }

  predicate Illegal(v: byte) {
    HALF_FLOAT <= v <= INDEFINITE
  }

  function FirstChunk(isMap: bool, length: nat): seq<byte>
    requires length <= SIZE_MAX
  {
    var m: major := if isMap then MAP else ARRAY;
    if length == INDEFINITE_LENGTH then [32 * m + INDEFINITE] else Head(m, length)
  }

  /** The chunks that an operation sends to the buffer. */
  function Chunks(op: Op): seq<seq<byte>>
    requires InRange(op)
  {
    match op
    case Uint(v) => [Head(UNSIGNED, v)]
    case NegativeInt(a) => [Head(NEGATIVE, if a == 0 then MAX_UINT64 else a - 1)]
    case Int(i) => [if i < 0 then Head(NEGATIVE, -1 - i) else Head(UNSIGNED, i)]
    case SimpleValue(v) => if Illegal(v) then [] else [Head(SIMPLE, v)]
    case FloatingPoint(kind, bits) => [[32 * SIMPLE + HALF_FLOAT + kind] + BigEndian(bits, Size(HALF_FLOAT + kind))]
    case TagOp(t) => [Head(TAG, t)]
    case StringOp(text, c) => [Head(if text then TEXT_STRING else BYTE_STRING, |c|), c]
    case Container(isMap, length, ops) =>
      if TooLarge(isMap, length) then []
      else [FirstChunk(isMap, length)] + ChunksOf(ops) + (if length == INDEFINITE_LENGTH then [[BREAK]] else [])
  }

  function ChunksOf(ops: seq<Op>): seq<seq<byte>>
    requires AllInRange(ops)
  {
    if ops == [] then [] else Chunks(ops[0]) + ChunksOf(ops[1..])
  }

  /** Operations that count towards the number of items of a container. */
  predicate Counts(op: Op) {
    match op
    case TagOp(_) => false
    case SimpleValue(v) => !Illegal(v)
    case Container(isMap, length, _) => !TooLarge(isMap, length)
    case _ => true
  }

  function Count(ops: seq<Op>): nat {
    if ops == [] then 0 else (if Counts(ops[0]) then 1 else 0) + Count(ops[1..])
  }

  /** Every value is legal and every container of known length gets exactly its items. */
  predicate WellUsed(op: Op) {
    match op
    case SimpleValue(v) => !Illegal(v)
    case Container(isMap, length, ops) =>
      !TooLarge(isMap, length) && AllWellUsed(ops)
      && (length == INDEFINITE_LENGTH || Count(ops) == if isMap then 2 * length else length)
    case _ => true
  }

  predicate AllWellUsed(ops: seq<Op>) {
    ops == [] || (WellUsed(ops[0]) && AllWellUsed(ops[1..]))
  }

  // ---------- The encoder ----------

  class CborEncoder {
    const buffer: array<byte>
    var end: Option<nat>
    var data: nat
    var remaining: nat
    var unknownLength: bool

    /** Starts on the first size bytes of a buffer, or, with no buffer, counts from the start. */
    constructor (buffer: array<byte>, size: nat, isNull: bool)
      requires size <= buffer.Length && (isNull ==> size == 0)
      ensures this.buffer == buffer && Valid() && Starts(View(), buffer[..], size)
      ensures remaining == 2 && !unknownLength
    {
      this.buffer := buffer;
      end := if isNull then None else Some(size);
      data := 0;
      remaining := 2;
      unknownLength := false;
    }

    /** A container starts where its parent stands. */
    constructor Child(parent: CborEncoder)
      requires parent.Valid()
      ensures buffer == parent.buffer && Valid() && View() == parent.View()
    {
      buffer := parent.buffer;
      end := parent.end;
      data := parent.data;
      remaining := 0;
      unknownLength := false;
    }

    ghost predicate Valid()
      reads this, buffer
    {
      View().Valid()
    }

    ghost function View(): Sink
      reads this, buffer
    {
      Sink(buffer[..], end, data)
    }

    method AppendToBuffer(chunk: seq<byte>) returns (err: Error)
      requires Valid()
      modifies this`end, this`data, buffer
      ensures Valid() && View() == old(View()).Append(chunk)
      ensures err == if old(View()).WouldOverflow(|chunk|) then OutOfMemory else NoError
    {
      var left: int := if end.Some? then end.value - data - |chunk| else 0 - data - |chunk|;
      if left < 0 {
        var len := |chunk|;
        if end.Some? {
          len := len - (end.value - data);
          end := None;
          data := 0;
        }
        data := data + len;
        return OutOfMemory;
      }
      forall i | 0 <= i < |chunk| {
        buffer[data + i] := chunk[i];
      }
      data := data + |chunk|;
      err := NoError;
    }

    /** Builds the head from its end, big-endian, and appends as much of it as is needed. */
    method EncodeNumberNoUpdate(ui: nat, m: major) returns (err: Error)
      requires Valid() && ui <= MAX_UINT64
      modifies this`end, this`data, buffer
      ensures Valid() && View() == old(View()).Append(Head(m, ui))
      ensures err == if old(View()).WouldOverflow(|Head(m, ui)|) then OutOfMemory else NoError
    {
      hide Sink.Append, Sink.WouldOverflow;
      var buf := Put64(ui);
      var bufstart := 15;
      if ui < 24 {
        SmallHead(buf[..], m, ui);
        buf[bufstart] := buf[bufstart] + 32 * m;
      } else {
        var more := 0;
        if ui > 0xff {
          more := more + 1;
        }
        if ui > 0xffff {
          more := more + 1;
        }
        if ui > 0xffffffff {
          more := more + 1;
        }
        LargeHead(buf[..], m, ui, more);
        bufstart := bufstart - Size(24 + more);
        buf[bufstart] := 32 * m + 24 + more;
      }
      err := AppendToBuffer(buf[bufstart..]);
    }

    method SaturatedDecrement()
      modifies this`remaining
      ensures remaining == if old(remaining) > 0 then old(remaining) - 1 else 0
    {
      if remaining > 0 {
        remaining := remaining - 1;
      }
    }

    method EncodeNumber(ui: nat, m: major) returns (err: Error)
      requires Valid() && ui <= MAX_UINT64
      modifies this`end, this`data, this`remaining, buffer
      ensures Valid() && View() == old(View()).Append(Head(m, ui))
      ensures err == if old(View()).WouldOverflow(|Head(m, ui)|) then OutOfMemory else NoError
      ensures remaining == if old(remaining) > 0 then old(remaining) - 1 else 0
    {
      hide Sink.Append, Sink.WouldOverflow, Head;
      SaturatedDecrement();
      err := EncodeNumberNoUpdate(ui, m);
    }

    method EncodeString(content: seq<byte>, m: major) returns (err: Error)
      requires Valid() && |content| <= SIZE_MAX / 2
      modifies this`end, this`data, this`remaining, buffer
      ensures Valid() && View() == AppendAll(old(View()), [Head(m, |content|), content])
      ensures remaining == if old(remaining) > 0 then old(remaining) - 1 else 0
      ensures err == if end.None? then OutOfMemory else NoError
    {
      hide Head, AppendAll, Sink.Append, Sink.WouldOverflow;
      ghost var k := View();
      err := EncodeNumber(|content|, m);
      AppendTwo(k, Head(m, |content|), content);
      if err != NoError && err != OutOfMemory {
        return err;
      }
      err := AppendToBuffer(content);
    }

    /** Encodes one operation; oom says that a call ran out of memory, misuse that one reported another error. */
    method Encode(op: Op) returns (oom: bool, misuse: bool)
      requires Valid() && InRange(op)
      modifies this`end, this`data, this`remaining, buffer
      ensures Valid() && View() == AppendAll(old(View()), Chunks(op))
      ensures oom == (end.None? && Flat(Chunks(op)) != [])
      ensures misuse == !WellUsed(op)
      ensures remaining == if Counts(op) then Decremented(old(remaining)) else old(remaining)
      decreases op
    {
      hide AppendAll, Sink.Append, Sink.WouldOverflow, Head;
      var err := NoError;
      match op {
      case Uint(v) =>
        OneChunk(View(), Head(UNSIGNED, v));
        err := EncodeNumber(v, UNSIGNED);
      case NegativeInt(a) =>
        OneChunk(View(), Head(NEGATIVE, if a == 0 then MAX_UINT64 else a - 1));
        err := EncodeNumber(if a == 0 then MAX_UINT64 else a - 1, NEGATIVE);
      case Int(x) =>
        OneChunk(View(), if x < 0 then Head(NEGATIVE, -1 - x) else Head(UNSIGNED, x));
        err := EncodeNumber(if x < 0 then -1 - x else x, if x < 0 then NEGATIVE else UNSIGNED);
      case SimpleValue(v) =>
        if HALF_FLOAT <= v <= INDEFINITE {
          err := IllegalSimpleType;
          NoChunk(View());
        } else {
          OneChunk(View(), Head(SIMPLE, v));
          err := EncodeNumber(v, SIMPLE);
        }
      case FloatingPoint(kind, bits) =>
        var chunk: seq<byte> := [32 * SIMPLE + HALF_FLOAT + kind] + BigEndian(bits, Size(HALF_FLOAT + kind));
        OneChunk(View(), chunk);
        SaturatedDecrement();
        err := AppendToBuffer(chunk);
      case TagOp(t) =>
        OneChunk(View(), Head(TAG, t));
        err := EncodeNumberNoUpdate(t, TAG);
      case StringOp(text, c) =>
        TwoChunks(Head(if text then TEXT_STRING else BYTE_STRING, |c|), c);
        err := EncodeString(c, if text then TEXT_STRING else BYTE_STRING);
      case Container(isMap, length, ops) =>
        if isMap && length != INDEFINITE_LENGTH && length > SIZE_MAX / 2 {
          err := DataTooLarge;
          NoChunk(View());
        } else {
          oom, misuse := EncodeContainer(isMap, length, ops);
          return;
        }
      }
      oom, misuse := err == OutOfMemory, err != NoError && err != OutOfMemory;
    }

    method EncodeAll(ops: seq<Op>) returns (oom: bool, misuse: bool)
      requires Valid() && AllInRange(ops)
      modifies this`end, this`data, this`remaining, buffer
      ensures Valid() && View() == AppendAll(old(View()), ChunksOf(ops))
      ensures oom == (end.None? && Flat(ChunksOf(ops)) != [])
      ensures misuse == !AllWellUsed(ops)
      ensures remaining == if Count(ops) <= old(remaining) then old(remaining) - Count(ops) else 0
      decreases ops, 0
    {
      hide AppendAll, Sink.Append, Sink.WouldOverflow, Head, Chunks, WellUsed, Counts, Flat, InRange;
      ghost var k := View();
      NoChunk(k);
      if ops == [] {
        return false, false;
      }
      var oom0, misuse0 := Encode(ops[0]);
      var oom1, misuse1 := EncodeAll(ops[1..]);
      oom, misuse := oom0 || oom1, misuse0 || misuse1;
      ConcatChunks(k, Chunks(ops[0]), ChunksOf(ops[1..]));
    }

    /** Creates a container, encodes the operations into it and closes it. */
    method EncodeContainer(isMap: bool, length: nat, ops: seq<Op>) returns (oom: bool, misuse: bool)
      requires Valid() && InRange(Container(isMap, length, ops)) && !TooLarge(isMap, length)
      modifies this`end, this`data, this`remaining, buffer
      ensures Valid() && View() == AppendAll(old(View()), Chunks(Container(isMap, length, ops)))
      ensures oom == end.None?
      ensures misuse == !WellUsed(Container(isMap, length, ops))
      ensures remaining == Decremented(old(remaining))
      decreases ops, 1
    {
      hide AppendAll, Sink.Append, Sink.WouldOverflow, Head, WellUsed, Counts, Flat, InRange, BigEndian, FirstChunk;
      RangeOfContainer(isMap, length, ops);
      ContainerChunks(View(), isMap, length, ops);
      var container := new CborEncoder.Child(this);
      var err0 := CreateContainer(container, isMap, length);
      var oom1, misuse1 := container.EncodeAll(ops);
      var err2 := CloseContainer(container);
      oom := err0 == OutOfMemory || oom1 || err2 == OutOfMemory;
      misuse := misuse1 || (err2 != NoError && err2 != OutOfMemory);
    }

    method CreateContainer(container: CborEncoder, isMap: bool, length: nat) returns (err: Error)
      requires Valid() && container.Valid() && container != this && container.buffer == buffer
      requires length <= SIZE_MAX && !TooLarge(isMap, length) && container.View() == View()
      modifies this`remaining, container, buffer
      ensures container.Valid() && container.View() == old(View()).Append(FirstChunk(isMap, length))
      ensures err == if container.end.None? then OutOfMemory else NoError
      ensures remaining == Decremented(old(remaining))
      ensures container.unknownLength == (length == INDEFINITE_LENGTH)
      ensures !container.unknownLength ==> container.remaining == 1 + if isMap then 2 * length else length
    {
      hide Sink.Append, Sink.WouldOverflow, Head, BigEndian;
      OneChunk(View(), FirstChunk(isMap, length));
      SaturatedDecrement();
      container.remaining := (length + 1) % (SIZE_MAX + 1);
      container.unknownLength := false;
      var m: major := if isMap then MAP else ARRAY;
      if length == INDEFINITE_LENGTH {
        container.unknownLength := true;
        err := container.AppendToBuffer([32 * m + INDEFINITE]);
      } else {
        if isMap {
          container.remaining := container.remaining + length;
        }
        err := container.EncodeNumberNoUpdate(length, m);
      }
    }

    method CloseContainer(container: CborEncoder) returns (err: Error)
      requires container.Valid() && container != this && container.buffer == buffer
      modifies this`end, this`data, buffer
      ensures Valid()
      ensures View() == if container.unknownLength then old(container.View()).Append([BREAK]) else old(container.View())
      ensures container.unknownLength ==> err == if end.None? then OutOfMemory else NoError
      ensures !container.unknownLength ==>
        err == if container.remaining == 0 then TooManyItems else if container.remaining > 1 then TooFewItems
          else if end.None? then OutOfMemory else NoError
    {
      hide Sink.Append, Sink.WouldOverflow;
      OneChunk(container.View(), [BREAK]);
      end := container.end;
      data := container.data;
      if container.unknownLength {
        err := AppendToBuffer([BREAK]);
        return;
      }
      if container.remaining != 1 {
        return if container.remaining == 0 then TooManyItems else TooFewItems;
      }
      if end.None? {
        return OutOfMemory;
      }
      return NoError;
    }
  }

  function Decremented(remaining: nat): nat {
    if remaining > 0 then remaining - 1 else 0
  }

  // ---------- Chunks ----------

  lemma OneChunk(k: Sink, a: seq<byte>)
    requires k.Valid() && a != []
    ensures k.Append(a).Valid() && AppendAll(k, [a]) == k.Append(a) && Flat([a]) != []
    ensures k.WouldOverflow(|a|) <==> k.Append(a).end.None?
  {
    AppendOne(k, a);
  }

  lemma NoChunk(k: Sink)
    requires k.Valid()
    ensures AppendAll(k, []) == k && Flat([]) == []
  {}

  lemma TwoChunks(a: seq<byte>, b: seq<byte>)
    requires a != []
    ensures Flat([a, b]) != []
  {
    assert [a, b][1..] == [b];
  }

  lemma {:induction false} StaysFull(k: Sink, chunks: seq<seq<byte>>)
    requires k.Valid()
    ensures k.end.None? ==> AppendAll(k, chunks).end.None?
    ensures k.end.Some? && AppendAll(k, chunks).end.None? ==> Flat(chunks) != []
    decreases |chunks|
  {
    if chunks != [] {
      k.AppendValid(chunks[0]);
      StaysFull(k.Append(chunks[0]), chunks[1..]);
    }
  }

  lemma ConcatChunks(k: Sink, a: seq<seq<byte>>, b: seq<seq<byte>>)
    requires k.Valid()
    ensures AppendAll(k, a + b) == AppendAll(AppendAll(k, a), b) && Flat(a + b) == Flat(a) + Flat(b)
    ensures AppendAll(k, a).end.None? ==> AppendAll(k, a + b).end.None?
    ensures AppendAll(k, a).end.Some? && AppendAll(k, a + b).end.None? ==> Flat(b) != []
  {
    hide AppendAll;
    AppendAllConcat(k, a, b);
    FlatConcat(a, b);
    StaysFull(AppendAll(k, a), b);
  }

  lemma RangeOfContainer(isMap: bool, length: nat, ops: seq<Op>)
    requires InRange(Container(isMap, length, ops))
    ensures length <= SIZE_MAX && AllInRange(ops)
    ensures !TooLarge(isMap, length) ==>
      (WellUsed(Container(isMap, length, ops)) <==>
        AllWellUsed(ops) && (length == INDEFINITE_LENGTH || Count(ops) == if isMap then 2 * length else length))
  {}

  lemma ContainerChunks(k: Sink, isMap: bool, length: nat, ops: seq<Op>)
    requires k.Valid() && InRange(Container(isMap, length, ops)) && !TooLarge(isMap, length)
    ensures var k0 := k.Append(FirstChunk(isMap, length));
      k0.Valid()
      && var k1 := AppendAll(k0, ChunksOf(ops));
      AppendAll(k, Chunks(Container(isMap, length, ops)))
      == (if length == INDEFINITE_LENGTH then k1.Append([BREAK]) else k1)
      && (k0.end.None? ==> k1.end.None?)
      && (k0.end.Some? && k1.end.None? ==> Flat(ChunksOf(ops)) != [])
      && (k1.end.None? ==> k1.Append([BREAK]).end.None?)
  {
    hide AppendAll, Sink.Append, FirstChunk;
    var first := FirstChunk(isMap, length);
    AppendOne(k, first);
    ConcatChunks(k, [first], ChunksOf(ops));
    var k1 := AppendAll(k.Append(first), ChunksOf(ops));
    if length == INDEFINITE_LENGTH {
      ConcatChunks(k, [first] + ChunksOf(ops), [[BREAK]]);
    } else {
      assert [first] + ChunksOf(ops) + [] == [first] + ChunksOf(ops);
    }
    AppendOne(k1, [BREAK]);
    StaysFull(k1, [[BREAK]]);
    StaysFull(k.Append(first), ChunksOf(ops));
  }

  method Put64(v: nat) returns (buf: array<byte>)
    requires v <= MAX_UINT64
    ensures fresh(buf) && buf.Length == 16 && buf[8..] == BigEndian(v, 8)
  {
    buf := new byte[16];
    var i, rest := 16, v;
    while i > 8
      invariant 8 <= i <= 16 && BigEndian(v, 8) == BigEndian(rest, i - 8) + buf[i..]
    {
      i := i - 1;
      buf[i] := rest % 256;
      rest := rest / 256;
    }
  }

  /** The last k of eight big-endian bytes are the number in k bytes. */
  lemma {:induction false} TailOfBigEndian(v: nat, n: nat, k: nat)
    requires k <= n
    ensures BigEndian(v, n)[n - k..] == BigEndian(v, k)
  {
    if k > 0 {
      TailOfBigEndian(v / 256, n - 1, k - 1);
    }
  }

  lemma SmallHead(buf: seq<byte>, m: major, ui: nat)
    requires |buf| == 16 && buf[8..] == BigEndian(ui, 8) && ui < 24
    ensures buf[15] == ui && buf[15 := 32 * m + ui][15..] == Head(m, ui)
  {
    hide BigEndian;
    LastByte(ui, 8);
    assert buf[15] == buf[8..][7];
  }

  lemma LastByte(v: nat, k: nat)
    requires k > 0
    ensures BigEndian(v, k)[k - 1] == v % 256
  {}

  lemma LargeHead(buf: seq<byte>, m: major, ui: nat, more: nat)
    requires |buf| == 16 && buf[8..] == BigEndian(ui, 8) && 24 <= ui <= MAX_UINT64
    requires more == Info(ui) - 24
    ensures buf[15 - Size(24 + more) := 32 * m + 24 + more][15 - Size(24 + more)..] == Head(m, ui)
  {
    hide BigEndian;
    var k := Size(24 + more);
    TailOfBigEndian(ui, 8, k);
    assert buf[16 - k..] == buf[8..][8 - k..];
  }

  // ---------- The count over whole sessions ----------

  /**
   Starts an encoder on a buffer and encodes the operations: the outcome depends
   on the size as the client expects.
   */
  method EncodeSession(buffer: array<byte>, size: nat, isNull: bool, ops: seq<Op>)
    returns (oom: bool, misuse: bool, used: nat, needed: nat)
    requires size <= buffer.Length && (isNull ==> size == 0) && AllInRange(ops)
    modifies buffer
    ensures var out := Flat(ChunksOf(ops));
      oom == (|out| > size)
      && (!oom ==> used == |out| && needed == 0 && buffer[..] == out + old(buffer[..])[|out|..])
      && (oom ==> needed == |out| - size && exists w :: 0 <= w <= size && buffer[..] == out[..w] + old(buffer[..])[w..])
    ensures misuse == !AllWellUsed(ops)
  {
    hide AppendAll, Sink.Append, Flat, ChunksOf, Starts, AllWellUsed;
    var encoder := new CborEncoder(buffer, size, isNull);
    ghost var k := encoder.View();
    CountIsExact(k, buffer[..], size, ChunksOf(ops));
    NothingSent(k, ChunksOf(ops), buffer[..], size);
    oom, misuse := encoder.EncodeAll(ops);
    used := if encoder.end.Some? then encoder.data else 0;
    needed := if encoder.end.Some? then 0 else encoder.data;
  }

  /** Chunks without bytes leave the sink as it was. */
  lemma {:induction false} NothingSent(k: Sink, chunks: seq<seq<byte>>, buffer: seq<byte>, n: nat)
    requires Starts(k, buffer, n)
    ensures k.Valid() && (Flat(chunks) == [] ==> AppendAll(k, chunks) == k)
    decreases |chunks|
  {
    if Flat(chunks) == [] && chunks != [] {
      assert k.Append([]) == k;
      NothingSent(k, chunks[1..], buffer, n);
    }
  }

  /**
   Running the operations again with as many more bytes as were missing
   succeeds and fills the buffer exactly.
   */
  method RunTwice(ops: seq<Op>, first: array<byte>, isNull: bool) returns (second: array<byte>, oom: bool)
    requires AllInRange(ops) && (isNull ==> first.Length == 0)
    modifies first
    ensures !oom
    ensures var out := Flat(ChunksOf(ops));
      if |out| > first.Length then second[..] == out else second == first && first[..|out|] == out
  {
    hide Flat, ChunksOf, AllInRange;
    var misuse, used, needed;
    oom, misuse, used, needed := EncodeSession(first, first.Length, isNull, ops);
    second := first;
    if oom {
      second := new byte[first.Length + needed];
      oom, misuse, used, needed := EncodeSession(second, second.Length, false, ops);
    }
  }

  // ---------- Trees ----------

  /** What the API can write of a tree: lengths in the range of size_t, and no half address space in one string. */
  predicate Writable(t: CborTree.Item) {
    match t
    case Number(_, v) => v <= MAX_UINT64
    case Str(_, c) => |c| <= SIZE_MAX / 2
    case Array(_, items) => |items| < SIZE_MAX && AllWritable(items)
    case Map(_, items) => |items| < SIZE_MAX && |items| % 2 == 0 && AllWritable(items)
    case Tagged(tag, item) => tag <= MAX_UINT64 && Writable(item)
    case Simple(v) => v < 24 || 32 <= v < 256
    case Float(kind, bits) => kind <= 2 && bits < Base(Size(HALF_FLOAT + kind))
  }

  predicate AllWritable(items: seq<CborTree.Item>) {
    items == [] || (Writable(items[0]) && AllWritable(items[1..]))
  }

  /** The calls that write a tree. */
  function OpsOf(t: CborTree.Item): seq<Op>
    requires Writable(t)
  {
    match t
    case Number(negative, v) => [if negative then NegativeInt((v + 1) % (MAX_UINT64 + 1)) else Uint(v)]
    case Str(text, c) => [StringOp(text, c)]
    case Array(known, items) => [Container(false, if known then |items| else INDEFINITE_LENGTH, OpsOfAll(items))]
    case Map(known, items) => [Container(true, if known then |items| / 2 else INDEFINITE_LENGTH, OpsOfAll(items))]
    case Tagged(tag, item) => [TagOp(tag)] + OpsOf(item)
    case Simple(v) => [SimpleValue(v)]
    case Float(kind, bits) => [FloatingPoint(kind, bits)]
  }

  function OpsOfAll(items: seq<CborTree.Item>): seq<Op>
    requires AllWritable(items)
  {
    if items == [] then [] else OpsOf(items[0]) + OpsOfAll(items[1..])
  }

  lemma {:induction false} OpsConcat(a: seq<Op>, b: seq<Op>)
    requires AllInRange(a) && AllInRange(b)
    ensures AllInRange(a + b) && Flat(ChunksOf(a + b)) == Flat(ChunksOf(a)) + Flat(ChunksOf(b))
    ensures Count(a + b) == Count(a) + Count(b) && (AllWellUsed(a + b) <==> AllWellUsed(a) && AllWellUsed(b))
    decreases |a|
  {
    hide Flat, Chunks, WellUsed, Counts, InRange;
    if a == [] {
      assert a + b == b;
      NoChunk(Sink([], None, 0));
    } else {
      assert (a + b)[1..] == a[1..] + b;
      OpsConcat(a[1..], b);
      FlatConcat(Chunks(a[0]), ChunksOf(a[1..]));
      FlatConcat(Chunks(a[0]), ChunksOf(a[1..] + b));
    }
  }

  lemma OneOp(op: Op)
    requires InRange(op)
    ensures AllInRange([op]) && ChunksOf([op]) == Chunks(op) && Count([op]) == (if Counts(op) then 1 else 0)
    ensures AllWellUsed([op]) <==> WellUsed(op)
  {
    assert [op][1..] == [];
    assert Chunks(op) + [] == Chunks(op);
  }

  lemma FlatOne(a: seq<byte>)
    ensures Flat([a]) == a
  {
    assert [a][1..] == [];
    assert a + [] == a;
  }

  /** The calls are legal, write exactly the bytes of the tree, and count as one item. */
  lemma {:induction false} OpsWriteTree(t: CborTree.Item)
    requires Writable(t)
    ensures CborTree.Encodable(t) && AllInRange(OpsOf(t)) && AllWellUsed(OpsOf(t)) && Count(OpsOf(t)) == 1
    ensures Flat(ChunksOf(OpsOf(t))) == CborTree.Encode(t)
    decreases t, 1
  {
    hide Flat, Head, ChunksOf, BigEndian, Base, AllInRange, AllWellUsed, Count;
    match t
    case Number(negative, v) =>
      OneOp(OpsOf(t)[0]);
      FlatOne(CborTree.Encode(t));
    case Str(text, c) =>
      OneOp(OpsOf(t)[0]);
      FlatTwo(Head(if text then TEXT_STRING else BYTE_STRING, |c|), c);
    case Array(known, items) =>
      OpsWriteList(t, items);
    case Map(known, items) =>
      OpsWriteList(t, items);
    case Tagged(tag, item) =>
      OpsWriteTree(item);
      OneOp(TagOp(tag));
      FlatOne(Head(TAG, tag));
      OpsConcat([TagOp(tag)], OpsOf(item));
    case Simple(v) =>
      OneOp(OpsOf(t)[0]);
      FlatOne(CborTree.Encode(t));
    case Float(kind, bits) =>
      OneOp(OpsOf(t)[0]);
      FlatOne(CborTree.Encode(t));
  }

  lemma {:induction false} OpsWriteList(t: CborTree.Item, items: seq<CborTree.Item>)
    requires Writable(t) && (t.Array? || t.Map?) && t.items == items
    ensures CborTree.Encodable(t) && AllInRange(OpsOf(t)) && AllWellUsed(OpsOf(t)) && Count(OpsOf(t)) == 1
    ensures Flat(ChunksOf(OpsOf(t))) == CborTree.Encode(t)
    decreases t, 0
  {
    hide Flat, Head, ChunksOf, AllInRange, AllWellUsed, Count, Chunks;
    var length := if !t.known then INDEFINITE_LENGTH else if t.Map? then |items| / 2 else |items|;
    OpsWriteAll(items);
    OneOp(OpsOf(t)[0]);
    FlatContainer(t.Map?, length, OpsOfAll(items));
  }

  lemma FlatTwo(a: seq<byte>, b: seq<byte>)
    ensures Flat([a, b]) == a + b
  {
    assert [a, b][1..] == [b];
    FlatOne(b);
  }

  lemma FlatContainer(isMap: bool, length: nat, ops: seq<Op>)
    requires InRange(Container(isMap, length, ops)) && !TooLarge(isMap, length)
    ensures Flat(Chunks(Container(isMap, length, ops)))
         == FirstChunk(isMap, length) + Flat(ChunksOf(ops)) + if length == INDEFINITE_LENGTH then [BREAK] else []
  {
    hide Flat, FirstChunk;
    var first := FirstChunk(isMap, length);
    FlatOne(first);
    FlatConcat([first], ChunksOf(ops));
    if length == INDEFINITE_LENGTH {
      FlatOne([BREAK]);
      FlatConcat([first] + ChunksOf(ops), [[BREAK]]);
    } else {
      assert [first] + ChunksOf(ops) + [] == [first] + ChunksOf(ops);
      assert first + Flat(ChunksOf(ops)) + [] == first + Flat(ChunksOf(ops));
    }
  }

  lemma {:induction false} OpsWriteAll(items: seq<CborTree.Item>)
    requires AllWritable(items)
    ensures CborTree.AllEncodable(items) && AllInRange(OpsOfAll(items)) && AllWellUsed(OpsOfAll(items))
    ensures Count(OpsOfAll(items)) == |items| && Flat(ChunksOf(OpsOfAll(items))) == CborTree.EncodeAll(items)
    decreases items, 0
  {
    hide Writable, OpsOf, CborTree.Encode, CborTree.Encodable;
    if items != [] {
      OpsWriteTree(items[0]);
      OpsWriteAll(items[1..]);
      OpsConcat(OpsOf(items[0]), OpsOfAll(items[1..]));
    }
  }

  /** Writes a tree into a buffer. */
  method EncodeTree(t: CborTree.Item, buffer: array<byte>) returns (oom: bool, misuse: bool, used: nat, needed: nat)
    requires Writable(t)
    modifies buffer
    ensures CborTree.Encodable(t) && !misuse
    ensures oom == (|CborTree.Encode(t)| > buffer.Length)
    ensures !oom ==> used == |CborTree.Encode(t)| && buffer[..used] == CborTree.Encode(t)
    ensures oom ==> needed == |CborTree.Encode(t)| - buffer.Length
  {
    hide CborTree.Encode, CborTree.Encodable, Flat, ChunksOf, OpsOf, Writable;
    OpsWriteTree(t);
    oom, misuse, used, needed := EncodeSession(buffer, buffer.Length, false, OpsOf(t));
  }
}
