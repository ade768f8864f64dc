/** The CBOR pull parser: an iterator that has always looked at the head it stands on. */
module CborParser {
  import opened Bytes
  import opened Wrappers
  import opened CborFormat
  import opened CborTree
  import opened CborCursor

  const MAX_RECURSIONS: nat := 1024

  datatype Error = NoError | UnexpectedEOF | UnexpectedBreak | UnknownType | IllegalType | IllegalNumber
    | IllegalSimpleType | DataTooLarge | NestingTooDeep | NoMoreStringChunks | AdvancePastEOF

  /** The flags of the iterator; negative and before-the-first-chunk share one bit. */
  datatype Flags = Flags(is64: bool, tooLarge: bool, negative: bool, iterating: bool, unknownLength: bool,
                         isMap: bool, nextIsMapKey: bool)

  class CborValue {
    const source: seq<byte>
    var ptr: nat
    var remaining: nat
    var ty: nat
    var extra: nat
    var flags: Flags

    constructor (source: seq<byte>)
      ensures this.source == source && ptr == 0 && remaining == 1 && ty == INVALID_TYPE
      ensures flags == Flags(false, false, false, false, false, false, false)
    {
      this.source := source;
      ptr, remaining, ty, extra := 0, 1, INVALID_TYPE, 0;
      flags := Flags(false, false, false, false, false, false, false);
    }

    constructor Copy(it: CborValue)
      ensures source == it.source && ptr == it.ptr && remaining == it.remaining && ty == it.ty
      ensures extra == it.extra && flags == it.flags
    {
      source := it.source;
      ptr, remaining, ty, extra, flags := it.ptr, it.remaining, it.ty, it.extra, it.flags;
    }

    function View(): Cursor
      reads this
    {
      Cursor(ptr, remaining, ty, flags.isMap, flags.nextIsMapKey, flags.unknownLength)
    }

    /** The iterator stands on a head it has looked at, and its number is the value of the head. */
    ghost predicate Standing()
      reads this
    {
      Ready(source, View()) && (!flags.unknownLength ==> NumberKnown())
    }

    ghost predicate NumberKnown()
      requires HeadFits(source, ptr)
      reads this
    {
      (flags.tooLarge ==> 26 <= InfoAt(source, ptr) <= 27 && flags.is64 == (InfoAt(source, ptr) == 27))
      && (!flags.tooLarge && ty != BOOLEAN_TYPE ==> extra == HeadValue(source, ptr))
      && (ty == BOOLEAN_TYPE ==> extra == if HeadValue(source, ptr) == 20 then 0 else 21)
      && (ty == INTEGER_TYPE ==> flags.negative == (MajorAt(source, ptr) == NEGATIVE))
      && !flags.iterating
    }

    method Assign(it: CborValue)
      requires it.source == source
      modifies this
      ensures ptr == old(it.ptr) && remaining == old(it.remaining) && ty == old(it.ty)
      ensures extra == old(it.extra) && flags == old(it.flags)
    {
      ptr, remaining, ty, extra, flags := it.ptr, it.remaining, it.ty, it.extra, it.flags;
    }

    // ---------- Reading bytes ----------

    predicate CanReadBytes(n: nat)
      requires ptr <= |source|
      reads this
    {
      |source| - ptr >= n
    }

    function ReadNumber(offset: nat, n: nat): nat
      requires ptr + offset + n <= |source|
      reads this
    {
      ValueOf(source[ptr + offset..ptr + offset + n])
    }

    /** The number in the head. */
    method ExtractNumber() returns (v: nat)
      requires Standing() && !flags.unknownLength && ty != BOOLEAN_TYPE
      ensures v == HeadValue(source, ptr)
    {
      if flags.tooLarge {
        v := if flags.is64 then ReadNumber(1, 8) else ReadNumber(1, 4);
      } else {
        v := extra;
      }
    }

    /** The number in the head, read again from its bytes, and how many bytes it takes behind the first. */
    method ExtractNumberChecked() returns (err: Error, value: nat, bytesUsed: nat)
      requires ptr < |source|
      ensures err == if InfoAt(source, ptr) > 27 then IllegalNumber
        else if HeadFits(source, ptr) then NoError
        else UnexpectedEOF
      ensures err == NoError ==>
        value == HeadValue(source, ptr) && bytesUsed == HeadEnd(source, ptr) - ptr - 1
    {
      hide ValueOf;
      value, bytesUsed := 0, 0;
      var descriptor := source[ptr] % 32;
      if descriptor < 24 {
        return NoError, descriptor, 0;
      }
      if descriptor > 27 {
        return IllegalNumber, value, bytesUsed;
      }
      bytesUsed := Size(descriptor);
      if !CanReadBytes(1 + bytesUsed) {
        return UnexpectedEOF, value, bytesUsed;
      }
      value := ReadNumber(1, bytesUsed);
      err := NoError;
    }

    method ExtractNumberAndAdvance() returns (v: nat)
      requires Standing() && !flags.unknownLength
      modifies this`ptr
      ensures ptr == HeadEnd(source, old(ptr))
      ensures ty != BOOLEAN_TYPE ==> v == HeadValue(source, old(ptr))
    {
      if ty != BOOLEAN_TYPE {
        v := ExtractNumber();
      } else {
        v := extra;
      }
      var descriptor := source[ptr] % 32;
      var bytesNeeded := if descriptor < 24 then 0 else Size(descriptor);
      ptr := ptr + bytesNeeded + 1;
    }

    // ---------- Looking at the next head ----------

    method PreparseValue() returns (err: Error)
      requires ptr <= |source| && 0 < remaining <= UINT32_MAX
      modifies this`ty, this`extra, this`flags
      ensures err == HeadError(source, ptr)
      ensures err == NoError <==> Look(source, old(View())).Some?
      ensures err == NoError ==> Some(View()) == Look(source, old(View())) && Standing()
    {
      hide ValueOf;
      ty := INVALID_TYPE;
      flags := Flags(false, false, false, false, false, flags.isMap, flags.nextIsMapKey);
      if !CanReadBytes(1) {
        return UnexpectedEOF;
      }
      var major := source[ptr] / 32;
      var descriptor := source[ptr] % 32;
      ty := 32 * major;
      extra := descriptor;
      if descriptor > 27 {
        if descriptor != INDEFINITE {
          return if major == SIMPLE then UnknownType else IllegalNumber;
        }
        if ty == TEXT_STRING_TYPE || ty == BYTE_STRING_TYPE || ty == ARRAY_TYPE || ty == MAP_TYPE {
          flags := flags.(unknownLength := true);
          return NoError;
        }
        return if major == SIMPLE then UnexpectedBreak else IllegalNumber;
      }
      var bytesNeeded := if descriptor < 24 then 0 else Size(descriptor);
      if bytesNeeded != 0 {
        if !CanReadBytes(bytesNeeded + 1) {
          return UnexpectedEOF;
        }
        extra := 0;
        if bytesNeeded <= 2 {
          extra := ReadNumber(1, bytesNeeded);
        } else {
          flags := flags.(is64 := descriptor == 27, tooLarge := true);
        }
      }
      err := ClassifyHead(major, descriptor);
    }

    /** The type of a whole head, and the numbers that stand for other things. */
    method ClassifyHead(major: nat, descriptor: nat) returns (err: Error)
      requires HeadFits(source, ptr) && major == MajorAt(source, ptr) && descriptor == InfoAt(source, ptr)
        && ty == 32 * major
      requires !flags.unknownLength && !flags.negative && !flags.iterating
      requires flags.tooLarge == (26 <= descriptor <= 27) && flags.is64 == (descriptor == 27)
      requires !flags.tooLarge ==> extra == HeadValue(source, ptr)
      modifies this`ty, this`extra, this`flags
      ensures err == HeadError(source, ptr)
      ensures err == NoError ==>
        ty == TypeAt(source, ptr) && NumberKnown() && flags == old(flags).(negative := flags.negative)
    {
      hide HeadValue, ValueOf;
      SmallHeadValue(source, ptr);
      if major == NEGATIVE {
        flags := flags.(negative := true);
        ty := INTEGER_TYPE;
      } else if major == SIMPLE {
        if descriptor == 20 {
          extra := 0;
          ty := BOOLEAN_TYPE;
        } else if descriptor == 21 || descriptor == 22 || descriptor == 23 || descriptor == HALF_FLOAT
               || descriptor == 26 || descriptor == 27 {
          ty := source[ptr];
        } else if descriptor == SIMPLE_IN_NEXT_BYTE {
          if extra < 32 {
            ty := INVALID_TYPE;
            return IllegalSimpleType;
          }
        }
      }
      return NoError;
    }

    method PreparseNextValueNoDecrement() returns (err: Error)
      requires ptr <= |source| && 0 < remaining <= UINT32_MAX
      modifies this`ty, this`extra, this`flags, this`remaining
      ensures err == NoError <==> LookOrBreak(source, old(View())).Some?
      ensures err == NoError ==> Some(View()) == LookOrBreak(source, old(View()))
      ensures err == NoError && remaining > 0 ==> Standing()
    {
      hide ValueOf, HeadOk, TypeAt;
      if remaining == UINT32_MAX && CanReadBytes(1) && source[ptr] == BREAK {
        if (flags.isMap && flags.nextIsMapKey) || ty == TAG_TYPE {
          return UnexpectedBreak;
        }
        ty := INVALID_TYPE;
        remaining := 0;
        flags := flags.(unknownLength := true);
        return NoError;
      }
      err := PreparseValue();
    }

    method PreparseNextValue() returns (err: Error)
      requires ptr <= |source| && 0 < remaining <= UINT32_MAX
      modifies this`ty, this`extra, this`flags, this`remaining
      ensures err == NoError <==> Next(source, old(View())).Some?
      ensures err == NoError ==> Some(View()) == Next(source, old(View()))
      ensures err == NoError && remaining > 0 ==> Standing()
    {
      hide ValueOf, HeadOk, TypeAt;
      var itemCounts := ty != TAG_TYPE;
      if remaining != UINT32_MAX {
        if itemCounts {
          remaining := remaining - 1;
          if remaining == 0 {
            ty := INVALID_TYPE;
            flags := flags.(unknownLength := false);
            return NoError;
          }
        }
      }
      if itemCounts {
        flags := flags.(nextIsMapKey := !flags.nextIsMapKey);
      }
      err := PreparseNextValueNoDecrement();
    }

    // ---------- Moving on ----------

    /** Over an item that is neither a string nor a container. */
    method AdvanceInternal() returns (err: Error)
      requires Standing() && IsFixedType(ty)
      modifies this
      ensures ptr <= |source|
      ensures err == NoError <==> Step(source, old(View()), 0).Some?
      ensures err == NoError ==> Some(View()) == Step(source, old(View()), 0)
      ensures err == NoError && remaining > 0 ==> Standing()
    {
      hide ValueOf, HeadOk, Next, HeadValue;
      FixedStep(source, View(), 0);
      var length := ExtractNumberAndAdvance();
      err := PreparseNextValue();
    }

    method EnterContainer() returns (err: Error, recursed: CborValue)
      requires Standing() && IsContainer(View())
      ensures fresh(recursed) && recursed.source == source && recursed.ptr <= |source|
      ensures err == NoError <==> Enter(source, View()).Some?
      ensures err == NoError ==> Some(recursed.View()) == Enter(source, View())
      ensures err == NoError && recursed.remaining > 0 ==> recursed.Standing()
    {
      hide ValueOf, HeadOk, HeadValue, LookOrBreak, TypeAt;
      NoHeadNoItem(source, ptr, 0);
      recursed := new CborValue.Copy(this);
      if flags.unknownLength {
        recursed.remaining := UINT32_MAX;
        recursed.ptr := recursed.ptr + 1;
      } else {
        var len := recursed.ExtractNumberAndAdvance();
        recursed.remaining := len % (UINT32_MAX + 1);
        if recursed.remaining != len || len == UINT32_MAX {
          recursed.ptr := ptr;
          return DataTooLarge, recursed;
        }
        if recursed.ty == MAP_TYPE {
          if recursed.remaining > UINT32_MAX / 2 {
            recursed.ptr := ptr;
            return DataTooLarge, recursed;
          }
          recursed.remaining := recursed.remaining * 2;
        }
        if len == 0 {
          recursed.ty := INVALID_TYPE;
          return NoError, recursed;
        }
      }
      recursed.flags := Flags(false, false, false, false, false, recursed.ty == MAP_TYPE, false);
      err := recursed.PreparseNextValueNoDecrement();
    }

    /** Past the container, and past its break if it has one. */
    method LeaveContainer(recursed: CborValue) returns (err: Error)
      requires IsContainer(View()) && 0 < remaining <= UINT32_MAX && recursed.source == source && recursed != this
      requires recursed.ptr + (if recursed.flags.unknownLength then 1 else 0) <= |source|
      modifies this
      ensures var end := recursed.ptr + if recursed.flags.unknownLength then 1 else 0;
        ptr == end
        && (err == NoError <==> Next(source, old(View()).(ptr := end)).Some?)
        && (err == NoError ==> Some(View()) == Next(source, old(View()).(ptr := end)))
      ensures err == NoError && remaining > 0 ==> Standing()
    {
      hide Next;
      ptr := recursed.ptr;
      if recursed.flags.unknownLength {
        ptr := ptr + 1;
      }
      err := PreparseNextValue();
    }

    // ---------- Strings ----------

    /** A chunk of the string can be read at the position. */
    ghost predicate ChunkHere()
      reads this
    {
      ptr < |source| && 32 * MajorAt(source, ptr) == ty && !BreakAt(source, ptr) && HeadFits(source, ptr)
      && HeadEnd(source, ptr) + HeadValue(source, ptr) <= |source|
    }

    /** The string has no chunk left: its one chunk has been read, or its break is reached. */
    ghost predicate NoMoreChunks()
      reads this
    {
      (!flags.unknownLength && !flags.negative) || BreakAt(source, ptr)
    }

    /** How many bytes the head of the next chunk takes, and how many the chunk itself. */
    method GetStringChunkSize() returns (err: Error, offset: nat, len: nat)
      requires ptr <= |source| < UINT32_MAX && (ty == BYTE_STRING_TYPE || ty == TEXT_STRING_TYPE)
      ensures err == NoMoreStringChunks <==> NoMoreChunks()
      ensures err == NoError ==>
        !NoMoreChunks() && ptr < |source| && 32 * MajorAt(source, ptr) == ty && HeadFits(source, ptr)
        && ptr + offset == HeadEnd(source, ptr) && len == HeadValue(source, ptr)
      ensures err != NoError ==> NoMoreChunks() || !ChunkHere()
    {
      hide ValueOf;
      offset, len := 1, 0;
      if !flags.unknownLength && !flags.negative {
        return NoMoreStringChunks, offset, len;
      }
      if !CanReadBytes(1) {
        return UnexpectedEOF, offset, len;
      }
      var descriptor := source[ptr];
      if descriptor == BREAK {
        return NoMoreStringChunks, offset, len;
      }
      if 32 * (descriptor / 32) != ty {
        return IllegalType, offset, len;
      }
      var info := descriptor % 32;
      len := info;
      if info > 27 {
        return IllegalNumber, offset, len;
      } else if info >= 24 {
        var bytesNeeded := Size(info);
        if !CanReadBytes(1 + bytesNeeded) {
          return UnexpectedEOF, offset, len;
        }
        len := ReadNumber(1, bytesNeeded);
        if len > UINT32_MAX {
          return DataTooLarge, offset, len;
        }
        offset := bytesNeeded + 1;
      }
      err := NoError;
    }

    /** The next chunk; a string of known length has one, a chunked one as many as there are up to the break. */
    method GetStringChunk() returns (err: Error, chunk: seq<byte>)
      requires ptr <= |source| < UINT32_MAX && (ty == BYTE_STRING_TYPE || ty == TEXT_STRING_TYPE)
      modifies this`ptr, this`flags
      ensures ptr <= |source| && flags == old(flags).(negative := flags.negative)
      ensures err == NoMoreStringChunks <==> old(NoMoreChunks())
      ensures err == NoMoreStringChunks ==> ptr == old(ptr) && flags == old(flags)
      ensures err == NoError <==> !old(NoMoreChunks()) && old(ChunkHere())
      ensures err == NoError ==>
        !flags.negative && ptr == HeadEnd(source, old(ptr)) + HeadValue(source, old(ptr))
        && chunk == source[HeadEnd(source, old(ptr))..ptr]
    {
      hide HeadValue;
      chunk := [];
      var offset, len;
      err, offset, len := GetStringChunkSize();
      if err != NoError {
        return;
      }
      ptr := ptr + offset;
      if !CanReadBytes(len) {
        return UnexpectedEOF, chunk;
      }
      chunk := source[ptr..ptr + len];
      ptr := ptr + len;
      flags := flags.(negative := false);
    }

    /** Collects the chunks of a string and moves on past it. */
    method IterateStringChunks() returns (err: Error, content: seq<byte>)
      requires Standing() && |source| < UINT32_MAX && (ty == BYTE_STRING_TYPE || ty == TEXT_STRING_TYPE)
      modifies this
      ensures ptr <= |source|
      ensures err == NoError <==> Step(source, old(View()), 0).Some?
      ensures err == NoError ==>
        Some(View()) == Step(source, old(View()), 0)
        && ParseItem(source, old(ptr), 0).value.0 == Str(old(ty) == TEXT_STRING_TYPE, content)
      ensures err == NoError && remaining > 0 ==> Standing()
    {
      hide ValueOf, HeadValue, HeadFits, HeadOk, Next, Step, ParseChunks, ParseItem, Reading, BreakAt, TypeAt;
      ghost var c := View();
      ReadingStarts(source, c);
      flags := flags.(iterating := true, negative := true);
      if flags.unknownLength {
        ptr := ptr + 1;
      }
      content := [];
      while true
        invariant ptr <= |source| && View() == c.(ptr := ptr) && Reading(source, c, flags.negative, ptr, content)
        decreases |source| - ptr, flags.negative
      {
        ReadingStep(source, c, flags.negative, ptr, content);
        var chunk;
        err, chunk := GetStringChunk();
        if err == NoMoreStringChunks {
          break;
        }
        if err != NoError {
          return;
        }
        content := content + chunk;
      }
      if flags.unknownLength {
        ptr := ptr + 1;
      }
      err := PreparseNextValue();
    }

    // ---------- Whole items ----------

    /** Moves on past an item, recursing into containers up to the nesting level. */
    method AdvanceRecursive(nestingLevel: nat) returns (err: Error)
      requires Standing() && |source| < UINT32_MAX
      modifies this
      ensures ptr <= |source|
      ensures err == NoError <==> Step(source, old(View()), nestingLevel).Some?
      ensures err == NoError ==> Some(View()) == Step(source, old(View()), nestingLevel)
      ensures err == NoError && remaining > 0 ==> Standing()
      decreases nestingLevel, 1
    {
      hide ValueOf, HeadValue, HeadOk, TypeAt, HeadFits, Next, Step, ParseItem, BreakAt;
      ghost var c := View();
      DepthMatters(source, c, nestingLevel, 0);
      if IsFixedType(ty) {
        err := AdvanceInternal();
        return;
      }
      if ty != ARRAY_TYPE && ty != MAP_TYPE {
        var content;
        err, content := IterateStringChunks();
        return;
      }
      err := AdvanceContainer(nestingLevel);
    }

    /** Past a container, item by item. */
    method AdvanceContainer(nestingLevel: nat) returns (err: Error)
      requires Standing() && |source| < UINT32_MAX && IsContainer(View())
      modifies this
      ensures ptr <= |source|
      ensures err == NoError <==> Step(source, old(View()), nestingLevel).Some?
      ensures err == NoError ==> Some(View()) == Step(source, old(View()), nestingLevel)
      ensures err == NoError && remaining > 0 ==> Standing()
      decreases nestingLevel, 0
    {
      hide ValueOf, HeadValue, HeadOk, TypeAt, HeadFits, Next, Rest, Enter, Step, ParseItem, BreakAt;
      ghost var c := View();
      NoHeadNoItem(source, ptr, 0);
      EnterRest(source, c, nestingLevel);
      ContainerStep(source, c, nestingLevel);
      if nestingLevel == 0 {
        return NestingTooDeep;
      }
      var recursed;
      err, recursed := EnterContainer();
      if err != NoError {
        return;
      }
      while recursed.remaining != 0
        invariant recursed.ptr <= |source| && (recursed.remaining > 0 ==> recursed.Standing())
        invariant recursed.remaining > 0 ==> (recursed.remaining == UINT32_MAX <==> c.unknown)
        invariant recursed.remaining == 0 ==> recursed.flags.unknownLength == c.unknown
        invariant recursed.remaining == 0 && c.unknown ==> BreakAt(source, recursed.ptr)
        invariant EndOf(Rest(source, recursed.View(), nestingLevel - 1)) == ContentEnd(source, c, nestingLevel)
        invariant fresh(recursed) && recursed.source == source
        modifies recursed
        decreases |source| - recursed.ptr
      {
        StepRest(source, recursed.View(), nestingLevel - 1);
        err := recursed.AdvanceRecursive(nestingLevel - 1);
        if err != NoError {
          return;
        }
      }
      RestAtEnd(source, recursed.View(), nestingLevel - 1);
      BreakInside(source, recursed.ptr);
      err := LeaveContainer(recursed);
    }

    method Advance() returns (err: Error)
      requires Standing() && |source| < UINT32_MAX
      modifies this
      ensures ptr <= |source|
      ensures err == NoError <==> Step(source, old(View()), MAX_RECURSIONS).Some?
      ensures err == NoError ==> Some(View()) == Step(source, old(View()), MAX_RECURSIONS)
      ensures err == NoError && remaining > 0 ==> Standing()
    {
      err := AdvanceRecursive(MAX_RECURSIONS);
    }

    /** Over an item of fixed size, which a tag also is. */
    method AdvanceFixed() returns (err: Error)
      requires Standing() && IsFixedType(ty)
      modifies this
      ensures ptr <= |source|
      ensures err == NoError <==> Step(source, old(View()), 0).Some?
      ensures err == NoError ==> Some(View()) == Step(source, old(View()), 0)
      ensures err == NoError && remaining > 0 ==> Standing()
    {
      err := AdvanceInternal();
    }

    /** Past the tags of an item, up to what they tag. */
    method SkipTag() returns (err: Error)
      requires Standing() && |source| < UINT32_MAX
      modifies this
      ensures ptr <= |source|
      ensures err == NoError <==> Untagged(source, old(View())).Some?
      ensures err == NoError ==> Some(View()) == Untagged(source, old(View())) && Standing()
    {
      hide Step, HeadOk, TypeAt, HeadFits;
      NoHeadNoItem(source, ptr, 0);
      while ty == TAG_TYPE
        invariant Standing() && Untagged(source, View()) == Untagged(source, old(View())) && ptr <= |source|
        decreases |source| - ptr
      {
        TagStepRest(source, View(), 0);
        err := AdvanceFixed();
        if err != NoError {
          return;
        }
      }
      err := NoError;
    }

    // ---------- Reading a tree ----------

    /** The value of an item of fixed size. */
    method ReadFixed() returns (item: Item)
      requires Standing() && IsFixedType(ty) && ty != TAG_TYPE
      ensures ParseItem(source, ptr, 0) == Some((item, HeadEnd(source, ptr)))
    {
      hide ValueOf;
      FixedStep(source, View(), 0);
      if ty == BOOLEAN_TYPE {
        return Simple(if extra != 0 then 21 else 20);
      }
      var v := ExtractNumber();
      if ty == INTEGER_TYPE {
        item := Number(flags.negative, v);
      } else if ty == HALF_FLOAT_TYPE || ty == FLOAT_TYPE || ty == DOUBLE_TYPE {
        item := Float(ty - HALF_FLOAT_TYPE, v);
      } else if ty == NULL_TYPE {
        item := Simple(22);
      } else if ty == UNDEFINED_TYPE {
        item := Simple(23);
      } else {
        item := Simple(v);
      }
    }

    /** Walks over one item with its tags, entering and leaving containers, and collects its tree. */
    method ReadItem(nestingLevel: nat) returns (err: Error, item: Item)
      requires Standing() && |source| < UINT32_MAX
      modifies this
      ensures ptr <= |source|
      ensures err == NoError <==> ItemStep(source, old(View()), nestingLevel).Some?
      ensures err == NoError ==>
        Some(View()) == ItemStep(source, old(View()), nestingLevel)
        && ParseItem(source, old(ptr), nestingLevel).Some?
        && item == ParseItem(source, old(ptr), nestingLevel).value.0
      ensures err == NoError && remaining > 0 ==> Standing()
      decreases |source| - ptr
    {
      hide ValueOf, HeadValue, HeadOk, TypeAt, HeadFits, Next, Rest, Enter, Step, ItemStep, ParseItem, BreakAt;
      ghost var c := View();
      item := Simple(23);
      DepthMatters(source, c, nestingLevel, 0);
      ItemStepHas(source, c, nestingLevel);
      if ty == TAG_TYPE {
        TaggedStep(source, c, nestingLevel);
        var tag := ExtractNumber();
        err := AdvanceFixed();
        if err == NoError {
          ItemStepHas(source, View(), nestingLevel);
          err, item := ReadItem(nestingLevel);
          item := Tagged(tag, item);
        }
      } else if IsFixedType(ty) {
        item := ReadFixed();
        err := AdvanceFixed();
      } else if ty != ARRAY_TYPE && ty != MAP_TYPE {
        var content;
        var isText := ty == TEXT_STRING_TYPE;
        err, content := IterateStringChunks();
        item := Str(isText, content);
      } else {
        err, item := ReadContainer(nestingLevel);
      }
    }

    /** Walks over a container. */
    method ReadContainer(nestingLevel: nat) returns (err: Error, item: Item)
      requires Standing() && |source| < UINT32_MAX && IsContainer(View())
      modifies this
      ensures ptr <= |source|
      ensures err == NoError <==> ItemStep(source, old(View()), nestingLevel).Some?
      ensures err == NoError ==>
        Some(View()) == ItemStep(source, old(View()), nestingLevel)
        && ParseItem(source, old(ptr), nestingLevel).Some?
        && item == ParseItem(source, old(ptr), nestingLevel).value.0
      ensures err == NoError && remaining > 0 ==> Standing()
      decreases |source| - ptr, 0
    {
      hide ValueOf, HeadValue, HeadOk, TypeAt, HeadFits, Next, Rest, Enter, Step, ItemStep, ParseItem, BreakAt;
      ghost var c := View();
      var isMap, known := ty == MAP_TYPE, !flags.unknownLength;
      item := Simple(23);
      EnterRest(source, c, nestingLevel);
      ContainerTree(source, c, nestingLevel);
      NoHeadNoItem(source, ptr, 0);
      if nestingLevel == 0 {
        return NestingTooDeep, item;
      }
      var recursed;
      err, recursed := EnterContainer();
      if err != NoError {
        return;
      }
      var items: seq<Item> := [];
      TreeStarts(ContentTree(source, c, nestingLevel));
      while recursed.remaining != 0
        invariant c.ptr < recursed.ptr <= |source| && (recursed.remaining > 0 ==> recursed.Standing())
        invariant recursed.remaining > 0 ==> (recursed.remaining == UINT32_MAX <==> c.unknown)
        invariant recursed.remaining == 0 ==> recursed.flags.unknownLength == c.unknown
        invariant recursed.remaining == 0 && c.unknown ==> BreakAt(source, recursed.ptr)
        invariant ContentTree(source, c, nestingLevel)
               == Before(items, Rest(source, recursed.View(), nestingLevel - 1))
        invariant fresh(recursed) && recursed.source == source
        modifies recursed
        decreases |source| - recursed.ptr
      {
        ItemStepRest(source, recursed.View(), nestingLevel - 1);
        ItemStepHas(source, recursed.View(), nestingLevel - 1);
        var first;
        err, first := recursed.ReadItem(nestingLevel - 1);
        if err != NoError {
          return;
        }
        TreeGrows(items, first, Rest(source, recursed.View(), nestingLevel - 1));
        items := items + [first];
      }
      TreeEnds(source, recursed.View(), items, nestingLevel - 1);
      BreakInside(source, recursed.ptr);
      item := if isMap then Map(known, items) else Array(known, items);
      err := LeaveContainer(recursed);
    }
  }

  // ---------- Whole buffers ----------

  /** Starts an iterator on a buffer. */
  method ParserInit(source: seq<byte>) returns (err: Error, it: CborValue)
    ensures fresh(it) && it.source == source
    ensures err == NoError <==> Start(source).Some?
    ensures err == NoError ==> Some(it.View()) == Start(source) && it.Standing()
  {
    hide Look;
    it := new CborValue(source);
    err := it.PreparseValue();
  }

  /** Starts an iterator and advances it over the first item. */
  method ParseAndAdvance(source: seq<byte>) returns (err: Error, position: nat)
    requires |source| < UINT32_MAX
    ensures position <= |source|
    ensures err == NoError <==> AdvanceOutcome(source).Some?
    ensures err == NoError ==> Some(position) == AdvanceOutcome(source)
  {
    hide Look, Step;
    var it;
    position := 0;
    err, it := ParserInit(source);
    if err == NoError {
      err := it.Advance();
      position := it.ptr;
    }
  }

  /** The same with the tags of the first item skipped before. */
  method ParseSkipAndAdvance(source: seq<byte>) returns (err: Error, position: nat)
    requires |source| < UINT32_MAX
    ensures position <= |source|
    ensures err == NoError <==> ParseItem(source, 0, MAX_RECURSIONS).Some?
    ensures err == NoError ==> position == ParseItem(source, 0, MAX_RECURSIONS).value.1
  {
    hide Look, Step, ParseItem, Untagged;
    SkipThenAdvance(source);
    var it;
    position := 0;
    err, it := ParserInit(source);
    if err == NoError {
      err := it.SkipTag();
      position := it.ptr;
      if err == NoError {
        err := it.Advance();
        position := it.ptr;
      }
    }
  }

  /** Reads the first item of a buffer into a tree. */
  method ReadTree(source: seq<byte>) returns (err: Error, item: Item, position: nat)
    requires |source| < UINT32_MAX
    ensures err == NoError <==> ParseItem(source, 0, MAX_RECURSIONS).Some?
    ensures err == NoError ==> ParseItem(source, 0, MAX_RECURSIONS) == Some((item, position))
  {
    hide ParseItem;
    StartHas(source);
    var it;
    position, item := 0, Simple(23);
    err, it := ParserInit(source);
    if err == NoError {
      err, item := it.ReadItem(MAX_RECURSIONS);
      position := it.ptr;
    }
  }

  lemma SmallHeadValue(s: seq<byte>, p: nat)
    requires HeadFits(s, p)
    ensures InfoAt(s, p) < 24 ==> HeadValue(s, p) == InfoAt(s, p)
  {}

  /** What is wrong with the head at p, if anything is. */
  function HeadError(s: seq<byte>, p: nat): (err: Error)
    ensures err == NoError <==> HeadOk(s, p)
  {
    if p >= |s| then UnexpectedEOF
    else if InfoAt(s, p) == INDEFINITE && BYTE_STRING <= MajorAt(s, p) <= MAP then NoError
    else if InfoAt(s, p) > 27 then
      if MajorAt(s, p) != SIMPLE then IllegalNumber
      else if InfoAt(s, p) == INDEFINITE then UnexpectedBreak else UnknownType
    else if !HeadFits(s, p) then UnexpectedEOF
    else if HeadOk(s, p) then NoError else IllegalSimpleType
  }

  /** The errors of a head in terms of its first byte and of the number of bytes from there. */
  lemma HeadErrorsByByte(s: seq<byte>, p: nat)
    ensures p >= |s| ==> HeadError(s, p) == UnexpectedEOF
    ensures p < |s| && s[p] < 0xe0 && 28 <= s[p] % 32 <= 30 ==> HeadError(s, p) == IllegalNumber
    ensures p < |s| && s[p] in {0x1f, 0x3f, 0xdf} ==> HeadError(s, p) == IllegalNumber
    ensures p < |s| && s[p] in {0x5f, 0x7f, 0x9f, 0xbf} ==> HeadError(s, p) == NoError
    ensures p < |s| && 0xfc <= s[p] <= 0xfe ==> HeadError(s, p) == UnknownType
    ensures p < |s| && s[p] == 0xff ==> HeadError(s, p) == UnexpectedBreak
    ensures p < |s| && s[p] % 32 < 24 ==> HeadError(s, p) == NoError
    ensures p < |s| && s[p] % 32 == 24 && s[p] != 0xf8 ==>
      HeadError(s, p) == if |s| - p < 2 then UnexpectedEOF else NoError
    ensures p < |s| && s[p] == 0xf8 ==>
      HeadError(s, p) == if |s| - p < 2 then UnexpectedEOF else if s[p + 1] < 32 then IllegalSimpleType else NoError
    ensures p < |s| && s[p] % 32 == 25 ==> HeadError(s, p) == if |s| - p < 3 then UnexpectedEOF else NoError
    ensures p < |s| && s[p] % 32 == 26 ==> HeadError(s, p) == if |s| - p < 5 then UnexpectedEOF else NoError
    ensures p < |s| && s[p] % 32 == 27 ==> HeadError(s, p) == if |s| - p < 9 then UnexpectedEOF else NoError
  {
    if p < |s| && s[p] == 0xf8 && |s| - p >= 2 {
      OneByteAt(s, p);
    }
  }

  lemma OneByteAt(s: seq<byte>, p: nat)
    requires p + 2 <= |s| && s[p] == 0xf8
    ensures HeadFits(s, p) && HeadValue(s, p) == s[p + 1]
  {
    assert s[p + 1..p + 2] == [s[p + 1]];
    OneByteValue(s[p + 1]);
  }

  predicate IsFixedType(ty: nat) {
    ty != TEXT_STRING_TYPE && ty != BYTE_STRING_TYPE && ty != ARRAY_TYPE && ty != MAP_TYPE
  }

  lemma FixedStep(s: seq<byte>, c: Cursor, depth: nat)
    requires Ready(s, c) && IsFixedType(c.ty)
    ensures HeadFits(s, c.ptr) && !c.unknown && Step(s, c, depth) == Next(s, c.(ptr := HeadEnd(s, c.ptr)))
    ensures c.ty != TAG_TYPE ==>
      ParseItem(s, c.ptr, depth).Some? && ParseItem(s, c.ptr, depth).value.1 == HeadEnd(s, c.ptr)
  {}

  /** The bytes in front of those of the chunks. */
  function WithPrefix(content: seq<byte>, r: Option<(seq<byte>, nat)>): Option<(seq<byte>, nat)> {
    if r.None? then None else Some((content + r.value.0, r.value.1))
  }

  lemma PrefixNothing(r: Option<(seq<byte>, nat)>)
    ensures WithPrefix([], r) == r
  {
    if r.Some? {
      assert [] + r.value.0 == r.value.0;
    }
  }

  lemma PrefixTwice(a: seq<byte>, b: seq<byte>, r: Option<(seq<byte>, nat)>)
    ensures WithPrefix(a, WithPrefix(b, r)) == WithPrefix(a + b, r)
  {
    if r.Some? {
      assert a + (b + r.value.0) == a + b + r.value.0;
    }
  }

  lemma ChunkStep(s: seq<byte>, p: nat, m: major)
    ensures BreakAt(s, p) ==> ParseChunks(s, p, m) == Some(([], p))
    ensures !BreakAt(s, p) ==>
      ParseChunks(s, p, m) ==
      if p < |s| && MajorAt(s, p) == m && HeadFits(s, p) && HeadEnd(s, p) + HeadValue(s, p) <= |s| then
        WithPrefix(s[HeadEnd(s, p)..HeadEnd(s, p) + HeadValue(s, p)],
          ParseChunks(s, HeadEnd(s, p) + HeadValue(s, p), m))
      else None
  {
    hide HeadValue, HeadEnd;
  }

  lemma StringStep(s: seq<byte>, c: Cursor)
    requires Ready(s, c) && (c.ty == BYTE_STRING_TYPE || c.ty == TEXT_STRING_TYPE)
    ensures 32 * MajorAt(s, c.ptr) == c.ty && !BreakAt(s, c.ptr) && c.ptr < |s|
    ensures c.unknown ==>
      var r := ParseChunks(s, c.ptr + 1, MajorAt(s, c.ptr));
      Step(s, c, 0) == (if r.None? then None else Next(s, c.(ptr := r.value.1 + 1)))
      && (r.Some? ==> ParseItem(s, c.ptr, 0) == Some((Str(c.ty == TEXT_STRING_TYPE, r.value.0), r.value.1 + 1)))
    ensures !c.unknown ==>
      HeadFits(s, c.ptr)
      && var q := HeadEnd(s, c.ptr) + HeadValue(s, c.ptr);
      Step(s, c, 0) == (if q <= |s| then Next(s, c.(ptr := q)) else None)
      && (q <= |s| ==> ParseItem(s, c.ptr, 0) == Some((Str(c.ty == TEXT_STRING_TYPE, s[HeadEnd(s, c.ptr)..q]), q)))
  {
    hide HeadValue, HeadEnd, ParseChunks, Next, ParseItem;
    StringItem(s, c.ptr, 0);
  }

  lemma StringItem(s: seq<byte>, p: nat, depth: nat)
    requires HeadOk(s, p) && (MajorAt(s, p) == BYTE_STRING || MajorAt(s, p) == TEXT_STRING)
    ensures InfoAt(s, p) == INDEFINITE ==>
      var r := ParseChunks(s, p + 1, MajorAt(s, p));
      ParseItem(s, p, depth)
      == if r.None? then None else Some((Str(MajorAt(s, p) == TEXT_STRING, r.value.0), r.value.1 + 1))
    ensures InfoAt(s, p) != INDEFINITE ==>
      HeadFits(s, p)
      && var q, end := HeadEnd(s, p), HeadEnd(s, p) + HeadValue(s, p);
      ParseItem(s, p, depth) == if end <= |s| then Some((Str(MajorAt(s, p) == TEXT_STRING, s[q..end]), end)) else None
  {
    hide HeadValue, HeadEnd, ParseChunks;
  }

  /** What the chunks read so far, up to ptr, and those to come make of the string on which c stands. */
  predicate Reading(s: seq<byte>, c: Cursor, first: bool, ptr: nat, content: seq<byte>)
    requires c.ptr < |s|
  {
    var m := MajorAt(s, c.ptr);
    if c.unknown then ParseChunks(s, c.ptr + 1, m) == WithPrefix(content, ParseChunks(s, ptr, m))
    else if first then ptr == c.ptr && content == []
    else
      HeadFits(s, c.ptr) && HeadEnd(s, c.ptr) + HeadValue(s, c.ptr) == ptr <= |s|
      && content == s[HeadEnd(s, c.ptr)..ptr]
  }

  lemma ReadingStarts(s: seq<byte>, c: Cursor)
    requires Ready(s, c) && (c.ty == BYTE_STRING_TYPE || c.ty == TEXT_STRING_TYPE)
    ensures c.ptr < |s| && Reading(s, c, true, c.ptr + if c.unknown then 1 else 0, [])
  {
    PrefixNothing(ParseChunks(s, c.ptr + 1, MajorAt(s, c.ptr)));
  }

  /** Where a string ends, or goes on behind the next chunk, or is cut off. */
  ghost predicate ReadsOn(s: seq<byte>, c: Cursor, first: bool, ptr: nat, content: seq<byte>)
    requires Ready(s, c) && c.ptr < |s|
  {
    var here := ptr < |s| && 32 * MajorAt(s, ptr) == c.ty && !BreakAt(s, ptr) && HeadFits(s, ptr)
      && HeadEnd(s, ptr) + HeadValue(s, ptr) <= |s|;
    if (!c.unknown && !first) || BreakAt(s, ptr) then
      var end := ptr + if c.unknown then 1 else 0;
      end <= |s| && Step(s, c, 0) == Next(s, c.(ptr := end))
      && ParseItem(s, c.ptr, 0) == Some((Str(c.ty == TEXT_STRING_TYPE, content), end))
    else if here then
      var q := HeadEnd(s, ptr) + HeadValue(s, ptr);
      Reading(s, c, false, q, content + s[HeadEnd(s, ptr)..q])
    else Step(s, c, 0).None?
  }

  lemma ReadingStep(s: seq<byte>, c: Cursor, first: bool, ptr: nat, content: seq<byte>)
    requires Ready(s, c) && (c.ty == BYTE_STRING_TYPE || c.ty == TEXT_STRING_TYPE) && ptr <= |s|
    requires c.ptr < |s| && Reading(s, c, first, ptr, content)
    ensures ReadsOn(s, c, first, ptr, content)
  {
    hide Reading, ReadsOn;
    if c.unknown {
      ChunksReadOn(s, c, first, ptr, content);
    } else {
      WholeReadsOn(s, c, first, ptr, content);
    }
  }

  lemma ChunksReadOn(s: seq<byte>, c: Cursor, first: bool, ptr: nat, content: seq<byte>)
    requires Ready(s, c) && (c.ty == BYTE_STRING_TYPE || c.ty == TEXT_STRING_TYPE) && ptr <= |s| && c.unknown
    requires c.ptr < |s| && Reading(s, c, first, ptr, content)
    ensures ReadsOn(s, c, first, ptr, content)
  {
    hide HeadValue, HeadEnd, ParseChunks, Next, Step, ParseItem;
    StringStep(s, c);
    var m := MajorAt(s, c.ptr);
    ChunkStep(s, ptr, m);
    if BreakAt(s, ptr) {
      assert content + [] == content;
    } else if ptr < |s| && MajorAt(s, ptr) == m && HeadFits(s, ptr) && HeadEnd(s, ptr) + HeadValue(s, ptr) <= |s| {
      var q := HeadEnd(s, ptr) + HeadValue(s, ptr);
      PrefixTwice(content, s[HeadEnd(s, ptr)..q], ParseChunks(s, q, m));
    }
  }

  lemma WholeReadsOn(s: seq<byte>, c: Cursor, first: bool, ptr: nat, content: seq<byte>)
    requires Ready(s, c) && (c.ty == BYTE_STRING_TYPE || c.ty == TEXT_STRING_TYPE) && ptr <= |s| && !c.unknown
    requires c.ptr < |s| && Reading(s, c, first, ptr, content)
    ensures ReadsOn(s, c, first, ptr, content)
  {
    hide HeadValue, HeadEnd, ParseChunks, Next, Step, ParseItem;
    StringStep(s, c);
    if first && HeadEnd(s, ptr) + HeadValue(s, ptr) <= |s| {
      assert content + s[HeadEnd(s, ptr)..HeadEnd(s, ptr) + HeadValue(s, ptr)]
        == s[HeadEnd(s, ptr)..HeadEnd(s, ptr) + HeadValue(s, ptr)];
    }
  }

  /** The nesting level matters only to containers. */
  lemma DepthMatters(s: seq<byte>, c: Cursor, depth: nat, other: nat)
    requires Ready(s, c)
    ensures !IsContainer(c) ==> Step(s, c, depth) == Step(s, c, other)
    ensures !IsContainer(c) && c.ty != TAG_TYPE ==> ParseItem(s, c.ptr, depth) == ParseItem(s, c.ptr, other)
  {
    hide HeadValue, HeadEnd, ParseChunks, Next, ParseItems, ParseUntil;
    if !IsContainer(c) && c.ty != TAG_TYPE {
      assert MajorAt(s, c.ptr) != ARRAY && MajorAt(s, c.ptr) != MAP && MajorAt(s, c.ptr) != TAG;
      assert ParseItem(s, c.ptr, depth) == ParseItem(s, c.ptr, other);
    }
  }

  /** Where the content of a container ends: after its last item, or at its break. */
  function ContentEnd(s: seq<byte>, c: Cursor, depth: nat): Option<nat>
    requires Ready(s, c) && IsContainer(c) && depth > 0
  {
    if Enter(s, c).None? then None else EndOf(Rest(s, Enter(s, c).value, depth - 1))
  }

  lemma ContainerStep(s: seq<byte>, c: Cursor, depth: nat)
    requires Ready(s, c) && IsContainer(c) && |s| < UINT32_MAX
    ensures depth == 0 ==> Step(s, c, depth).None?
    ensures depth > 0 ==>
      Step(s, c, depth) == if ContentEnd(s, c, depth).None? then None
        else Next(s, c.(ptr := ContentEnd(s, c, depth).value + if c.unknown then 1 else 0))
  {
    hide Rest, Enter, Next, ParseItem, HeadOk;
    EnterRest(s, c, depth);
  }

  lemma RestAtEnd(s: seq<byte>, c: Cursor, depth: nat)
    requires c.remaining == 0
    ensures EndOf(Rest(s, c, depth)) == Some(c.ptr)
  {}

  // ---------- What the parser accepts ----------

  function Start(s: seq<byte>): Option<Cursor> {
    Look(s, Cursor(0, 1, INVALID_TYPE, false, false, false))
  }

  /** Where init and advance end, if both succeed. */
  function AdvanceOutcome(s: seq<byte>): Option<nat> {
    if Start(s).None? then None
    else
      var d := Step(s, Start(s).value, MAX_RECURSIONS);
      if d.None? then None else Some(d.value.ptr)
  }

  /** Where the first item ends, if the buffer starts with a well-formed one. */
  function WellFormedEnd(s: seq<byte>): Option<nat> {
    var r := ParseItem(s, 0, MAX_RECURSIONS);
    if r.None? then None else Some(r.value.1)
  }

  /** The buffer starts with a tag, and with a head that may start an item behind it. */
  predicate TagThenHead(s: seq<byte>) {
    HeadOk(s, 0) && HeadFits(s, 0) && MajorAt(s, 0) == TAG && HeadOk(s, HeadEnd(s, 0))
  }

  /**
   Init and advance accept exactly the buffers that start with a well-formed
   item, and stop right behind it, except for a tagged item: there advance
   stops behind the tag and has only looked at the head of what it tags.
   */
  lemma AdvanceIsWellFormednessExactly(s: seq<byte>)
    ensures AdvanceOutcome(s) == WellFormedEnd(s) <==> !TagThenHead(s)
  {
    hide ParseItem, TypeAt, HeadOk, HeadValue;
    NoHeadNoItem(s, 0, MAX_RECURSIONS);
    if HeadOk(s, 0) {
      TagOnlyAtTag(s, 0, MAX_RECURSIONS);
      if MajorAt(s, 0) == TAG {
        NoHeadNoItem(s, HeadEnd(s, 0), MAX_RECURSIONS);
      }
    }
  }

  /** A tag in front of half an array: accepted, although it is not well formed. */
  lemma TaggedHalfArrayAccepted()
    ensures AdvanceOutcome([0xC0, 0x82]) == Some(1) && WellFormedEnd([0xC0, 0x82]) == None
  {
    var s: seq<byte> := [0xC0, 0x82];
    assert HeadEnd(s, 0) == 1 && HeadEnd(s, 1) == 2 && TypeAt(s, 0) == TAG_TYPE;
    assert ParseItem(s, 2, MAX_RECURSIONS - 1).None?;
    assert ParseItems(s, 2, 2, MAX_RECURSIONS - 1).None?;
    assert ParseItem(s, 1, MAX_RECURSIONS).None?;
  }

  function Untagged(s: seq<byte>, c: Cursor): Option<Cursor>
    requires Ready(s, c)
    decreases if c.ptr <= |s| then |s| - c.ptr else 0
  {
    if c.ty != TAG_TYPE then Some(c)
    else
      var d := Step(s, c, 0);
      if d.None? then None
      else
        TagStepRest(s, c, 0);
        Untagged(s, d.value)
  }

  lemma {:induction false} UntaggedStep(s: seq<byte>, c: Cursor, depth: nat)
    requires Ready(s, c)
    ensures Untagged(s, c).Some? ==> Ready(s, Untagged(s, c).value)
    ensures ItemStep(s, c, depth) == if Untagged(s, c).None? then None else Step(s, Untagged(s, c).value, depth)
    decreases if c.ptr <= |s| then |s| - c.ptr else 0
  {
    hide Step, ItemStep, Next, ParseItem, HeadOk, TypeAt;
    if c.ty != TAG_TYPE {
      StepIsItemStep(s, c, depth);
    } else {
      TaggedStep(s, c, depth);
      TagStepRest(s, c, 0);
      if Step(s, c, 0).Some? {
        UntaggedStep(s, Step(s, c, 0).value, depth);
      }
    }
  }

  /** Skipping the tags first, advance accepts exactly what is well formed. */
  lemma SkipThenAdvance(s: seq<byte>)
    ensures var d := if Start(s).None? then None else Untagged(s, Start(s).value);
      (d.Some? ==> Ready(s, d.value))
      && WellFormedEnd(s) == (if d.None? || Step(s, d.value, MAX_RECURSIONS).None? then None
        else Some(Step(s, d.value, MAX_RECURSIONS).value.ptr))
  {
    hide Step, Next, ParseItem, HeadOk, TypeAt, Untagged;
    StartHas(s);
    if Start(s).Some? {
      UntaggedStep(s, Start(s).value, MAX_RECURSIONS);
    }
  }

  lemma StartHas(s: seq<byte>)
    ensures Start(s).None? ==> ParseItem(s, 0, MAX_RECURSIONS).None?
    ensures Start(s).Some? ==>
      var c := Start(s).value;
      Ready(s, c) && c.ptr == 0
      && (ItemStep(s, c, MAX_RECURSIONS).None? <==> ParseItem(s, 0, MAX_RECURSIONS).None?)
      && (ItemStep(s, c, MAX_RECURSIONS).Some? ==>
        ItemStep(s, c, MAX_RECURSIONS).value.ptr == ParseItem(s, 0, MAX_RECURSIONS).value.1)
  {
    hide ParseItem, TypeAt;
    NoHeadNoItem(s, 0, MAX_RECURSIONS);
  }

  // ---------- Steps of the walk ----------

  lemma ItemStepHas(s: seq<byte>, c: Cursor, depth: nat)
    requires Ready(s, c)
    ensures ItemStep(s, c, depth).Some? ==> ParseItem(s, c.ptr, depth).Some?
    ensures c.ty != TAG_TYPE ==> ItemStep(s, c, depth) == Step(s, c, depth)
    ensures c.ptr < |s|
  {
    hide ParseItem, Next, TypeAt;
    if c.ty != TAG_TYPE {
      StepIsItemStep(s, c, depth);
    }
    NoHeadNoItem(s, c.ptr, depth);
  }

  /** A tagged item is its tag and the item behind it. */
  lemma TaggedStep(s: seq<byte>, c: Cursor, depth: nat)
    requires Ready(s, c) && c.ty == TAG_TYPE
    ensures !c.unknown && HeadFits(s, c.ptr)
    ensures var d := Step(s, c, 0);
      if d.None? then ItemStep(s, c, depth).None?
      else
        Ready(s, d.value) && c.ptr < d.value.ptr && ItemStep(s, c, depth) == ItemStep(s, d.value, depth)
        && (ParseItem(s, d.value.ptr, depth).Some? ==>
          ParseItem(s, c.ptr, depth)
          == Some((Tagged(HeadValue(s, c.ptr), ParseItem(s, d.value.ptr, depth).value.0),
                   ParseItem(s, d.value.ptr, depth).value.1)))
  {
    hide ParseItem, TypeAt, HeadOk, HeadValue;
    TagOnlyAtTag(s, c.ptr, depth);
    TagKnown(s, c);
    NoHeadNoItem(s, HeadEnd(s, c.ptr), depth);
    if ParseItem(s, c.ptr, depth).Some? {
      var q := ParseItem(s, c.ptr, depth).value.1;
      var d := Step(s, c, 0);
      if d.Some? {
        NextForgetsMore(s, c.(ptr := q, ty := INTEGER_TYPE), d.value.(ptr := q, ty := INTEGER_TYPE));
      }
    }
  }

  lemma TagKnown(s: seq<byte>, c: Cursor)
    requires Ready(s, c) && c.ty == TAG_TYPE
    ensures !c.unknown
  {}

  lemma NextForgetsMore(s: seq<byte>, c: Cursor, d: Cursor)
    requires c.remaining > 0 && d == c.(unknown := d.unknown)
    ensures Next(s, c) == Next(s, d)
  {
    hide HeadOk, TypeAt;
  }

  /** Items already read in front of those to come. */
  function Before(items: seq<Item>, r: Option<(seq<Item>, nat)>): Option<(seq<Item>, nat)> {
    if r.None? then None else Some((items + r.value.0, r.value.1))
  }

  lemma TreeStarts(r: Option<(seq<Item>, nat)>)
    ensures Before([], r) == r
  {
    if r.Some? {
      assert [] + r.value.0 == r.value.0;
    }
  }

  lemma TreeGrows(items: seq<Item>, first: Item, r: Option<(seq<Item>, nat)>)
    ensures Before(items, if r.None? then None else Some(([first] + r.value.0, r.value.1)))
      == Before(items + [first], r)
  {
    if r.Some? {
      assert items + ([first] + r.value.0) == items + [first] + r.value.0;
    }
  }

  lemma TreeEnds(s: seq<byte>, c: Cursor, items: seq<Item>, depth: nat)
    requires c.remaining == 0
    ensures Before(items, Rest(s, c, depth)) == Some((items, c.ptr))
  {
    assert items + [] == items;
  }

  lemma BreakInside(s: seq<byte>, p: nat)
    ensures BreakAt(s, p) ==> p < |s|
  {}

  /** The content of a container, as it is from the inside. */
  function ContentTree(s: seq<byte>, c: Cursor, depth: nat): Option<(seq<Item>, nat)>
    requires Ready(s, c) && IsContainer(c) && depth > 0
  {
    if Enter(s, c).None? then None else Rest(s, Enter(s, c).value, depth - 1)
  }

  lemma ContainerTree(s: seq<byte>, c: Cursor, depth: nat)
    requires Ready(s, c) && IsContainer(c) && |s| < UINT32_MAX
    ensures depth == 0 ==> ItemStep(s, c, depth).None?
    ensures depth > 0 ==>
      var r := ContentTree(s, c, depth);
      ParseItem(s, c.ptr, depth) == Closed(c, r)
      && ItemStep(s, c, depth)
      == if r.None? then None else Next(s, c.(ptr := r.value.1 + if c.unknown then 1 else 0))
  {
    hide Rest, Enter, Next, ParseItem, HeadOk, TypeAt;
    EnterRest(s, c, depth);
    StepIsItemStep(s, c, depth);
  }
}
