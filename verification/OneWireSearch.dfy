/**
 The ROM search of the 1-Wire bus: a stateless bus and a few numbers of search
 state enumerate a hidden set of 64-bit codes.
 */
module OneWireSearch {
  import opened PackedBits
  import opened Crc8

  const ROM_BITS: nat := 64

  /** A ROM code: family code, serial number, CRC; bit 0 is the least significant bit of byte 0. */
  type Rom = r: seq<bv8> | |r| == 8 witness [0, 0, 0, 0, 0, 0, 0, 0]

  function RomBit(r: Rom, k: nat): bool
    requires k < ROM_BITS
  {
    Bit(r[k / 8], k % 8)
  }

  /** The first n bits are the same. */
  predicate Agree(a: Rom, b: Rom, n: nat)
    requires n <= ROM_BITS
  {
    forall k :: 0 <= k < n ==> RomBit(a, k) == RomBit(b, k)
  }

  lemma RomFromBits(a: Rom, b: Rom)
    requires Agree(a, b, ROM_BITS)
    ensures a == b
  {
    hide Bit;
    forall j | 0 <= j < 8
      ensures a[j] == b[j]
    {
      forall i | 0 <= i < 8
        ensures Bit(a[j], i) == Bit(b[j], i)
      {
        assert RomBit(a, 8 * j + i) == RomBit(b, 8 * j + i);
      }
      ByteFromBits(a[j], b[j]);
    }
  }

  // ---------- The bus ----------

  predicate AllSend(active: set<Rom>, k: nat, bit: bool)
    requires k < ROM_BITS
  {
    forall d :: d in active ==> RomBit(d, k) == bit
  }

  function Followers(active: set<Rom>, k: nat, bit: bool): set<Rom>
    requires k < ROM_BITS
  {
    set d | d in active && RomBit(d, k) == bit
  }

  /** The devices that have followed the first n bits of cur. */
  function Active(devices: set<Rom>, cur: Rom, n: nat): set<Rom>
    requires n <= ROM_BITS
  {
    set d | d in devices && Agree(d, cur, n)
  }

  /**
   A bus with a fixed set of devices.  During a search every device still
   active sends its next bit, then the complement; the line carries the AND.
   Then the master sends a direction and the devices that differ drop out.
   */
  class Bus {
    const devices: set<Rom>
    var active: set<Rom>
    var index: nat
    var complement: bool

    constructor (devices: set<Rom>)
      ensures this.devices == devices
    {
      this.devices := devices;
      active := {};
      index := 0;
      complement := false;
    }

    method Reset() returns (present: bool)
      modifies this
      ensures present == (devices != {})
      ensures active == devices && index == 0 && !complement
    {
      active, index, complement := devices, 0, false;
      present := devices != {};
    }

    method ReadBit() returns (bit: bool)
      requires index < ROM_BITS
      modifies this`complement
      ensures complement == !old(complement)
      ensures bit == AllSend(active, index, !old(complement))
    {
      bit := AllSend(active, index, !complement);
      complement := !complement;
    }

    method WriteBit(direction: bool)
      requires index < ROM_BITS && !complement
      modifies this
      ensures index == old(index) + 1 && !complement
      ensures active == Followers(old(active), old(index), direction)
    {
      active := Followers(active, index, direction);
      index := index + 1;
    }
  }

  class SearchState {
    const romCode: array<bv8>
    var lastDiscrepancy: int
    var lastFamilyDiscrepancy: int
    var lastDeviceFlag: bool

    constructor ()
      ensures fresh(romCode) && romCode.Length == 8
      ensures lastDiscrepancy == 0 && lastFamilyDiscrepancy == 0 && !lastDeviceFlag
    {
      romCode := new bv8[8];
      lastDiscrepancy := 0;
      lastFamilyDiscrepancy := 0;
      lastDeviceFlag := false;
    }

    ghost predicate Valid()
    {
      romCode.Length == 8
    }
  }

  // ---------- What one search does ----------

  /** Devices with 0 and devices with 1 are both active at bit k. */
  predicate Branches(active: set<Rom>, k: nat)
    requires k < ROM_BITS
  {
    !AllSend(active, k, false) && !AllSend(active, k, true)
  }

  /** The direction the search takes at bit k, coming from prev with discrepancy last. */
  predicate Choice(active: set<Rom>, prev: Rom, last: int, k: nat)
    requires k < ROM_BITS
  {
    if Branches(active, k) then if k + 1 < last then RomBit(prev, k) else k + 1 == last
    else AllSend(active, k, true)
  }

  /** The first n bits of cur are the directions taken. */
  ghost predicate Walks(devices: set<Rom>, cur: Rom, prev: Rom, last: int, n: nat)
    requires n <= ROM_BITS
  {
    forall k :: 0 <= k < n ==> RomBit(cur, k) == Choice(Active(devices, cur, k), prev, last, k)
  }

  /** The deepest of the first n branches of cur at which 0 was taken, counted from 1; 0 if there is none. */
  ghost function LastZero(devices: set<Rom>, cur: Rom, n: nat): (z: nat)
    requires n <= ROM_BITS
    ensures z <= n
  {
    if n == 0 then 0
    else if Branches(Active(devices, cur, n - 1), n - 1) && !RomBit(cur, n - 1) then n
    else LastZero(devices, cur, n - 1)
  }

  lemma ActiveDependsOnPrefix(devices: set<Rom>, a: Rom, b: Rom, k: nat)
    requires k <= ROM_BITS && Agree(a, b, k)
    ensures Active(devices, a, k) == Active(devices, b, k)
  {
    hide RomBit;
  }

  lemma {:induction false} WalkDependsOnPrefix(devices: set<Rom>, a: Rom, b: Rom, prev: Rom, last: int, n: nat)
    requires n <= ROM_BITS && Agree(a, b, n)
    ensures Walks(devices, a, prev, last, n) <==> Walks(devices, b, prev, last, n)
    ensures LastZero(devices, a, n) == LastZero(devices, b, n)
  {
    hide RomBit, Active, Choice, Branches;
    if n > 0 {
      WalkDependsOnPrefix(devices, a, b, prev, last, n - 1);
      ActiveDependsOnPrefix(devices, a, b, n - 1);
    }
  }

  lemma ActiveStep(devices: set<Rom>, cur: Rom, k: nat)
    requires k < ROM_BITS
    ensures Active(devices, cur, k + 1) == Followers(Active(devices, cur, k), k, RomBit(cur, k))
  {
    hide RomBit;
  }

  lemma SomeoneFollows(active: set<Rom>, prev: Rom, last: int, k: nat)
    requires k < ROM_BITS && active != {}
    ensures Followers(active, k, Choice(active, prev, last, k)) != {}
    ensures !(AllSend(active, k, true) && AllSend(active, k, false))
  {
    hide RomBit;
    var d :| d in active;
    if !AllSend(active, k, true) {
      var z :| z in active && RomBit(z, k) != true;
      assert z in Followers(active, k, false);
    }
    if !AllSend(active, k, false) {
      var o :| o in active && RomBit(o, k) != false;
      assert o in Followers(active, k, true);
    }
    assert d in Followers(active, k, RomBit(d, k));
  }

  /** next is cur with bit k set to the direction taken: the walk goes one step further. */
  lemma WalkStep(devices: set<Rom>, cur: Rom, next: Rom, prev: Rom, last: int, k: nat)
    requires k < ROM_BITS && Agree(cur, next, k)
    requires Walks(devices, cur, prev, last, k)
    requires RomBit(next, k) == Choice(Active(devices, cur, k), prev, last, k)
    requires Active(devices, cur, k) != {}
    ensures Walks(devices, next, prev, last, k + 1)
    ensures Active(devices, next, k + 1) == Followers(Active(devices, cur, k), k, RomBit(next, k))
    ensures Active(devices, next, k + 1) != {}
    ensures LastZero(devices, next, k + 1)
         == if Branches(Active(devices, cur, k), k) && !RomBit(next, k) then k + 1 else LastZero(devices, cur, k)
  {
    hide RomBit, Active, Choice, Branches, AllSend, Followers;
    ActiveDependsOnPrefix(devices, cur, next, k);
    WalkDependsOnPrefix(devices, cur, next, prev, last, k);
    ActiveStep(devices, next, k);
    SomeoneFollows(Active(devices, cur, k), prev, last, k);
  }

  // ---------- The search loop ----------

  function RomWithBit(r: Rom, k: nat, bit: bool): Rom
    requires k < ROM_BITS
  {
    r[k / 8 := WithBit(r[k / 8], k % 8, bit)]
  }

  lemma BitsOfRomWithBit(r: Rom, k: nat, bit: bool, j: nat)
    requires k < ROM_BITS && j < ROM_BITS
    ensures RomBit(RomWithBit(r, k, bit), j) == if j == k then bit else RomBit(r, j)
  {
    hide Bit, WithBit;
    if j / 8 == k / 8 {
      BitOfWithBit(r[k / 8], k % 8, bit, j % 8);
    }
  }

  /** The deepest branch with 0 inside the family byte, or the value before the search. */
  ghost function FamilyZero(devices: set<Rom>, rom: Rom, k: nat, before: int): int
    requires k <= ROM_BITS
  {
    var z := LastZero(devices, rom, if k < 8 then k else 8);
    if z > 0 then z else before
  }

  /** The numbers that the search loop carries from bit to bit. */
  datatype Progress = Progress(lastZero: int, family: int, crc8: bv8)

  /** The state of the search after k bits, coming from prev with discrepancy last. */
  ghost predicate Searching(devices: set<Rom>, active: set<Rom>, rom: Rom, prev: Rom, last: int, family: int,
                            k: nat, p: Progress)
  {
    k <= ROM_BITS && active == Active(devices, rom, k) && active != {}
    && Walks(devices, rom, prev, last, k) && p.lastZero == LastZero(devices, rom, k)
    && p.family == FamilyZero(devices, rom, k, family)
    && (forall j :: k <= j < ROM_BITS ==> RomBit(rom, j) == RomBit(prev, j))
    && p.crc8 == CrcOf(0, rom[..k / 8])
  }

  /** What one turn of the loop makes of the numbers it carries. */
  function NextProgress(p: Progress, active: set<Rom>, next: Rom, k: nat, direction: bool): Progress
    requires k < ROM_BITS
  {
    var zero := Branches(active, k) && !direction;
    Progress(if zero then k + 1 else p.lastZero, if zero && k + 1 < 9 then k + 1 else p.family,
      if k % 8 == 7 then CalcCrc(p.crc8, next[k / 8]) else p.crc8)
  }

  lemma SearchingStep(devices: set<Rom>, active: set<Rom>, rom: Rom, prev: Rom, last: int, family: int, k: nat,
                      p: Progress)
    requires k < ROM_BITS && Searching(devices, active, rom, prev, last, family, k, p)
    ensures var direction := Choice(active, prev, last, k);
      var next := RomWithBit(rom, k, direction);
      Searching(devices, Followers(active, k, direction), next, prev, last, family, k + 1,
        NextProgress(p, active, next, k, direction))
    ensures RomBit(rom, k) == RomBit(prev, k)
  {
    hide RomBit, Active, Choice, Branches, AllSend, Followers, Walks, LastZero, CalcCrc, RomWithBit;
    var direction := Choice(active, prev, last, k);
    var next := RomWithBit(rom, k, direction);
    forall j: nat | j < ROM_BITS
      ensures RomBit(next, j) == if j == k then direction else RomBit(rom, j)
    {
      BitsOfRomWithBit(rom, k, direction, j);
    }
    WalkStep(devices, rom, next, prev, last, k);
    if k >= 8 {
      WalkDependsOnPrefix(devices, rom, next, prev, last, 8);
    }
    OtherBytes(rom, k, direction);
    if k % 8 == 7 {
      assert next[..k / 8 + 1][..k / 8] == rom[..k / 8];
    }
  }

  lemma OtherBytes(r: Rom, k: nat, bit: bool)
    requires k < ROM_BITS
    ensures RomWithBit(r, k, bit)[..k / 8] == r[..k / 8]
    ensures RomWithBit(r, k, bit) == r[k / 8 := WithBit(r[k / 8], k % 8, bit)]
  {}

  lemma NextMask(k: nat)
    ensures if k % 8 == 7 then Mask(k % 8) << 1 == 0 else Mask(k % 8) << 1 == Mask((k + 1) % 8)
    ensures (k + 1) % 8 == 0 <==> k % 8 == 7
    ensures (k + 1) / 8 == if k % 8 == 7 then k / 8 + 1 else k / 8
    ensures Mask(k % 8) != 0 && Mask((k + 1) % 8) != 0 && Mask(0) == 1
  {}

  /** The direction the code computes from the two bits it has read is the choice. */
  lemma DirectionIsChoice(active: set<Rom>, prev: Rom, last: int, k: nat, idBit: bool, cmpIdBit: bool)
    requires k < ROM_BITS && active != {}
    requires idBit == AllSend(active, k, true) && cmpIdBit == AllSend(active, k, false)
    ensures !(idBit && cmpIdBit)
    ensures Branches(active, k) <==> idBit == cmpIdBit
    ensures Choice(active, prev, last, k)
         == if idBit != cmpIdBit then idBit else if k + 1 < last then RomBit(prev, k) else k + 1 == last
  {
    hide AllSend;
    SomeoneFollows(active, prev, last, k);
  }

  lemma MaskedBit(r: Rom, k: nat, mask: bv8)
    requires k < ROM_BITS && mask == Mask(k % 8)
    ensures RomBit(r, k) == HasMask(r[k / 8], mask)
  {
    hide Mask, HasMask, Bit;
    BitMask(r[k / 8], k % 8);
  }

  lemma SearchingHas(devices: set<Rom>, active: set<Rom>, rom: Rom, prev: Rom, last: int, family: int, k: nat,
                     p: Progress)
    requires Searching(devices, active, rom, prev, last, family, k, p)
    ensures k <= ROM_BITS && active != {}
    ensures k < ROM_BITS ==> RomBit(rom, k) == RomBit(prev, k)
  {}

  function SetOrClear(b: bv8, mask: bv8, value: bool, ghost i: nat): (r: bv8)
    requires i < 8 && mask == Mask(i)
    ensures r == WithBit(b, i, value)
  {
    WithBitMask(b, i, value);
    if value then b | mask else b & (mask ^ 0xFF)
  }

  /** Sets or clears the bit in the ROM byte with the mask. */
  method StoreBit(romCode: array<bv8>, romByteNumber: nat, romByteMask: bv8, searchDirection: bool, ghost k: nat)
    requires romCode.Length == 8 && k < ROM_BITS
    requires romByteNumber == k / 8 && romByteMask == Mask(k % 8)
    modifies romCode
    ensures romCode[..] == RomWithBit(old(romCode[..]), k, searchDirection)
  {
    hide Mask, WithBit, RomBit;
    romCode[romByteNumber] := SetOrClear(romCode[romByteNumber], romByteMask, searchDirection, k % 8);
  }

  /** The direction to take where the bits id and complement are as read. */
  method ChooseDirection(state: SearchState, idBit: bool, cmpIdBit: bool, idBitNumber: nat, romByteNumber: nat,
                         romByteMask: bv8, ghost active: set<Rom>, ghost prev: Rom)
    returns (searchDirection: bool)
    requires state.Valid() && 1 <= idBitNumber <= ROM_BITS && active != {}
    requires romByteNumber == (idBitNumber - 1) / 8 && romByteMask == Mask((idBitNumber - 1) % 8)
    requires idBit == AllSend(active, idBitNumber - 1, true) && cmpIdBit == AllSend(active, idBitNumber - 1, false)
    requires RomBit(state.romCode[..], idBitNumber - 1) == RomBit(prev, idBitNumber - 1)
    ensures searchDirection == Choice(active, prev, state.lastDiscrepancy, idBitNumber - 1)
  {
    hide RomBit, Choice, Branches, AllSend, Mask, RomWithBit;
    ghost var k := idBitNumber - 1;
    DirectionIsChoice(active, prev, state.lastDiscrepancy, k, idBit, cmpIdBit);
    MaskedBit(state.romCode[..], k, romByteMask);
    if idBit != cmpIdBit {
      searchDirection := idBit;
    } else if idBitNumber < state.lastDiscrepancy {
      searchDirection := state.romCode[romByteNumber] & romByteMask != 0;
    } else {
      searchDirection := idBitNumber == state.lastDiscrepancy;
    }
  }

  /** One turn of the search loop: two reads, the choice of a direction, the store, the write. */
  method SearchBit(bus: Bus, state: SearchState, idBitNumber: nat, romByteNumber: nat, romByteMask: bv8, lastZero: int,
                   ghost prev: Rom, ghost family: int, ghost crc8: bv8)
    returns (noDevices: bool, newLastZero: int)
    requires state.Valid() && 1 <= idBitNumber <= ROM_BITS
    requires romByteNumber == (idBitNumber - 1) / 8 && romByteMask == Mask((idBitNumber - 1) % 8)
    requires bus.index == idBitNumber - 1 && !bus.complement
    requires Searching(bus.devices, bus.active, state.romCode[..], prev, state.lastDiscrepancy, family, idBitNumber - 1,
      Progress(lastZero, state.lastFamilyDiscrepancy, crc8))
    modifies bus, state`lastFamilyDiscrepancy, state.romCode
    ensures !noDevices
    ensures bus.index == idBitNumber && !bus.complement
    ensures var crc := if (idBitNumber - 1) % 8 == 7 then CalcCrc(crc8, state.romCode[romByteNumber]) else crc8;
      Searching(bus.devices, bus.active, state.romCode[..], prev, state.lastDiscrepancy, family, idBitNumber,
        Progress(newLastZero, state.lastFamilyDiscrepancy, crc))
  {
    hide RomBit, Active, Choice, Branches, AllSend, Followers, Walks, LastZero, CalcCrc, RomWithBit, Mask, Searching;
    ghost var k, rom, active := idBitNumber - 1, state.romCode[..], bus.active;
    ghost var p := Progress(lastZero, state.lastFamilyDiscrepancy, crc8);
    SearchingStep(bus.devices, active, rom, prev, state.lastDiscrepancy, family, k, p);
    SearchingHas(bus.devices, active, rom, prev, state.lastDiscrepancy, family, k, p);
    newLastZero := lastZero;
    noDevices := false;
    var idBit := bus.ReadBit();
    var cmpIdBit := bus.ReadBit();
    DirectionIsChoice(active, prev, state.lastDiscrepancy, k, idBit, cmpIdBit);
    if idBit && cmpIdBit {
      noDevices := true;
      return;
    }
    var searchDirection :=
      ChooseDirection(state, idBit, cmpIdBit, idBitNumber, romByteNumber, romByteMask, active, prev);
    if idBit == cmpIdBit && !searchDirection {
      newLastZero := idBitNumber;
      if newLastZero < 9 {
        state.lastFamilyDiscrepancy := newLastZero;
      }
    }
    StoreBit(state.romCode, romByteNumber, romByteMask, searchDirection, k);
    bus.WriteBit(searchDirection);
  }

  // ---------- The whole search ----------

  /** The outcome of a walk over all bits: the code that answered, accepted or not. */
  ghost predicate Found(devices: set<Rom>, rom: Rom, prev: Rom, last: int)
  {
    rom in devices && Walks(devices, rom, prev, last, ROM_BITS)
  }

  predicate Acceptable(rom: Rom)
  {
    CrcOf(0, rom) == 0 && rom[0] != 0
  }

  lemma SearchStarts(devices: set<Rom>, rom: Rom, last: int, family: int)
    requires devices != {}
    ensures Searching(devices, devices, rom, rom, last, family, 0, Progress(0, family, 0))
  {
    hide RomBit;
    assert Active(devices, rom, 0) == devices;
  }

  lemma SearchEnds(devices: set<Rom>, active: set<Rom>, rom: Rom, prev: Rom, last: int, family: int, p: Progress)
    requires Searching(devices, active, rom, prev, last, family, ROM_BITS, p)
    ensures Found(devices, rom, prev, last)
    ensures p.lastZero == LastZero(devices, rom, ROM_BITS) && p.family == FamilyZero(devices, rom, ROM_BITS, family)
    ensures p.crc8 == CrcOf(0, rom)
  {
    hide RomBit;
    var d :| d in active;
    RomFromBits(d, rom);
    assert rom[..8] == rom;
  }

  /** The walk over all 64 bits. */
  method SearchLoop(bus: Bus, state: SearchState, ghost prev: Rom)
    returns (idBitNumber: nat, lastZero: int, crc8: bv8)
    requires state.Valid() && state.romCode[..] == prev
    requires bus.devices != {} && bus.active == bus.devices && bus.index == 0 && !bus.complement
    modifies bus, state`lastFamilyDiscrepancy, state.romCode
    ensures idBitNumber == 65
    ensures Found(bus.devices, state.romCode[..], prev, state.lastDiscrepancy)
    ensures lastZero == LastZero(bus.devices, state.romCode[..], ROM_BITS)
    ensures state.lastFamilyDiscrepancy
         == FamilyZero(bus.devices, state.romCode[..], ROM_BITS, old(state.lastFamilyDiscrepancy))
    ensures crc8 == CrcOf(0, state.romCode[..])
  {
    hide RomBit, CalcCrc, Mask, Searching, Walks, LastZero, CrcOf, FamilyZero;
    ghost var family := state.lastFamilyDiscrepancy;
    SearchStarts(bus.devices, prev, state.lastDiscrepancy, family);
    idBitNumber := 1;
    lastZero := 0;
    crc8 := 0;
    var romByteNumber, romByteMask: bv8 := 0, 1;
    NextMask(7);
    while romByteNumber < 8
      invariant 1 <= idBitNumber <= 65 && romByteNumber == (idBitNumber - 1) / 8
      invariant romByteMask == Mask((idBitNumber - 1) % 8)
      invariant bus.index == idBitNumber - 1 && !bus.complement
      invariant Searching(bus.devices, bus.active, state.romCode[..], prev, state.lastDiscrepancy, family,
                          idBitNumber - 1, Progress(lastZero, state.lastFamilyDiscrepancy, crc8))
      decreases 65 - idBitNumber
    {
      var noDevices;
      noDevices, lastZero :=
        SearchBit(bus, state, idBitNumber, romByteNumber, romByteMask, lastZero, prev, family, crc8);
      if noDevices {
        break;
      }
      NextMask(idBitNumber - 1);
      idBitNumber := idBitNumber + 1;
      romByteMask := romByteMask << 1;
      if romByteMask == 0 {
        crc8 := CalcCrc(crc8, state.romCode[romByteNumber]);
        romByteNumber := romByteNumber + 1;
        romByteMask := 1;
      }
    }
    SearchEnds(bus.devices, bus.active, state.romCode[..], prev, state.lastDiscrepancy, family,
      Progress(lastZero, state.lastFamilyDiscrepancy, crc8));
  }

  method Search(bus: Bus, state: SearchState) returns (isFound: bool)
    requires state.Valid()
    modifies bus, state, state.romCode
    ensures old(state.lastDeviceFlag) || bus.devices == {} ==> !isFound && state.romCode[..] == old(state.romCode[..])
    ensures !old(state.lastDeviceFlag) && bus.devices != {} ==>
      Found(bus.devices, state.romCode[..], old(state.romCode[..]), old(state.lastDiscrepancy))
      && isFound == Acceptable(state.romCode[..])
    ensures isFound ==>
      state.lastDiscrepancy == LastZero(bus.devices, state.romCode[..], ROM_BITS)
      && state.lastFamilyDiscrepancy
         == FamilyZero(bus.devices, state.romCode[..], ROM_BITS, old(state.lastFamilyDiscrepancy))
      && state.lastDeviceFlag == (state.lastDiscrepancy == 0)
    ensures !isFound ==> state.lastDiscrepancy == 0 && state.lastFamilyDiscrepancy == 0 && !state.lastDeviceFlag
  {
    hide RomBit, CalcCrc, Walks, LastZero, CrcOf, FamilyZero, Found;
    var searchResult := false;
    if !state.lastDeviceFlag {
      var isPresent := bus.Reset();
      if !isPresent {
        state.lastDiscrepancy := 0;
        state.lastDeviceFlag := false;
        state.lastFamilyDiscrepancy := 0;
        return false;
      }
      var idBitNumber, lastZero, crc8 := SearchLoop(bus, state, state.romCode[..]);
      if !(idBitNumber < 65 || crc8 != 0) {
        state.lastDiscrepancy := lastZero;
        if state.lastDiscrepancy == 0 {
          state.lastDeviceFlag := true;
        }
        searchResult := true;
      }
    }
    if !searchResult || state.romCode[0] == 0 {
      state.lastDiscrepancy := 0;
      state.lastDeviceFlag := false;
      state.lastFamilyDiscrepancy := 0;
      searchResult := false;
    }
    isFound := searchResult;
  }

  method SearchFirst(bus: Bus, state: SearchState) returns (foundDevice: bool)
    requires state.Valid()
    modifies bus, state, state.romCode
    ensures foundDevice ==>
      Found(bus.devices, state.romCode[..], state.romCode[..], 0) && Acceptable(state.romCode[..])
      && state.lastDiscrepancy == LastZero(bus.devices, state.romCode[..], ROM_BITS)
      && state.lastDeviceFlag == (state.lastDiscrepancy == 0)
    ensures !foundDevice && bus.devices != {} ==>
      Found(bus.devices, state.romCode[..], state.romCode[..], 0) && !Acceptable(state.romCode[..])
    ensures !foundDevice ==> state.lastDiscrepancy == 0 && !state.lastDeviceFlag
  {
    hide RomBit, LastZero, CrcOf, FamilyZero, Found, Walks;
    ghost var zeros: Rom := [0, 0, 0, 0, 0, 0, 0, 0];
    forall j | 0 <= j < 8 {
      state.romCode[j] := 0;
    }
    assert state.romCode[..] == zeros;
    state.lastDiscrepancy := 0;
    state.lastFamilyDiscrepancy := 0;
    state.lastDeviceFlag := false;
    foundDevice := Search(bus, state);
    if bus.devices != {} {
      FirstForgets(bus.devices, state.romCode[..], zeros);
    }
  }

  /** With no discrepancy to come from, the previous code does not matter. */
  lemma FirstForgets(devices: set<Rom>, rom: Rom, prev: Rom)
    requires Found(devices, rom, prev, 0)
    ensures Found(devices, rom, rom, 0)
  {
    hide RomBit, Branches, AllSend;
  }

  // ---------- The order in which codes are found ----------

  /** Lexicographic order of the bits, least significant bit of byte 0 first. */
  ghost predicate Less(a: Rom, b: Rom) {
    exists k: nat :: k < ROM_BITS && Differ(a, b, k)
  }

  predicate Differ(a: Rom, b: Rom, k: nat)
    requires k < ROM_BITS
  {
    Agree(a, b, k) && !RomBit(a, k) && RomBit(b, k)
  }

  /** Two different codes have a first bit at which they differ. */
  lemma {:induction false} Compare(a: Rom, b: Rom, n: nat)
    requires n <= ROM_BITS && Agree(a, b, n)
    ensures a == b || exists k: nat :: n <= k < ROM_BITS && (Differ(a, b, k) || Differ(b, a, k))
    decreases ROM_BITS - n
  {
    hide RomBit;
    if n == ROM_BITS {
      RomFromBits(a, b);
    } else if RomBit(a, n) == RomBit(b, n) {
      Compare(a, b, n + 1);
    } else {
      assert Differ(a, b, n) || Differ(b, a, n);
    }
  }

  lemma LessIsStrict(a: Rom, b: Rom)
    requires Less(a, b)
    ensures !Less(b, a) && a != b
  {
    hide RomBit;
    var i: nat :| i < ROM_BITS && Differ(a, b, i);
    forall k: nat | k < ROM_BITS
      ensures !Differ(b, a, k)
    {
    }
  }

  lemma LessIsTransitive(a: Rom, b: Rom, c: Rom)
    requires Less(a, b) && Less(b, c)
    ensures Less(a, c)
  {
    hide RomBit;
    var i: nat :| i < ROM_BITS && Differ(a, b, i);
    var j: nat :| j < ROM_BITS && Differ(b, c, j);
    assert Differ(a, c, if i < j then i else j);
  }

  /** Past the last discrepancy every branch takes 0, so no device there precedes the code found. */
  lemma {:induction false} PastLast(devices: set<Rom>, cur: Rom, prev: Rom, last: int, d: Rom, n: nat)
    requires Found(devices, cur, prev, last) && d in devices
    requires n <= ROM_BITS && last <= n && Agree(cur, d, n)
    ensures d == cur || Less(cur, d)
  {
    hide RomBit;
    Compare(cur, d, n);
    if d != cur {
      var k: nat :| n <= k < ROM_BITS && (Differ(cur, d, k) || Differ(d, cur, k));
      assert d in Active(devices, cur, k) && cur in Active(devices, cur, k);
    }
  }

  /** The first search finds the least code on the bus. */
  lemma FirstIsLeast(devices: set<Rom>, cur: Rom, prev: Rom, d: Rom)
    requires Found(devices, cur, prev, 0) && d in devices
    ensures d == cur || Less(cur, d)
  {
    PastLast(devices, cur, prev, 0, d, 0);
  }

  lemma {:induction false} LastZeroIsDeepest(devices: set<Rom>, cur: Rom, n: nat, k: nat)
    requires k < n <= ROM_BITS && Branches(Active(devices, cur, k), k) && !RomBit(cur, k)
    ensures k + 1 <= LastZero(devices, cur, n)
  {
    hide RomBit, Branches, Active;
    if k < n - 1 {
      LastZeroIsDeepest(devices, cur, n - 1, k);
    }
  }

  lemma {:induction false} LastZeroIsBranch(devices: set<Rom>, cur: Rom, n: nat)
    requires n <= ROM_BITS && LastZero(devices, cur, n) > 0
    ensures var k := LastZero(devices, cur, n) - 1;
      Branches(Active(devices, cur, k), k) && !RomBit(cur, k)
  {
    hide RomBit, Branches, Active;
    if !(Branches(Active(devices, cur, n - 1), n - 1) && !RomBit(cur, n - 1)) {
      LastZeroIsBranch(devices, cur, n - 1);
    }
  }

  /** Devices with both bits are active at bit k of rom, and rom has 0 there. */
  ghost predicate ZeroBranch(devices: set<Rom>, rom: Rom, k: nat)
    requires k < ROM_BITS
  {
    !RomBit(rom, k) && exists d :: d in devices && Agree(d, rom, k) && RomBit(d, k)
  }

  lemma ZeroBranchIs(devices: set<Rom>, rom: Rom, k: nat)
    requires rom in devices && k < ROM_BITS
    ensures ZeroBranch(devices, rom, k) <==> Branches(Active(devices, rom, k), k) && !RomBit(rom, k)
  {
    hide RomBit;
    assert rom in Active(devices, rom, k);
  }

  lemma {:induction false} LastZeroIs(devices: set<Rom>, rom: Rom, n: nat)
    requires rom in devices && n <= ROM_BITS
    ensures var z := LastZero(devices, rom, n);
      (z > 0 ==> ZeroBranch(devices, rom, z - 1))
      && forall k: nat :: z <= k < n ==> !ZeroBranch(devices, rom, k)
  {
    hide RomBit, Branches, Active, ZeroBranch;
    if n > 0 {
      LastZeroIs(devices, rom, n - 1);
      ZeroBranchIs(devices, rom, n - 1);
    }
  }

  /**
   What the two discrepancies mean: the deepest position, counted from 1, at
   which the code has 0 and another device that agrees so far has 1; for the
   family, among the first eight bits.
   */
  lemma DiscrepanciesAre(devices: set<Rom>, rom: Rom, before: int)
    requires rom in devices
    ensures var z := LastZero(devices, rom, ROM_BITS);
      z <= 64 && (z > 0 ==> ZeroBranch(devices, rom, z - 1))
      && forall k: nat :: z <= k < 64 ==> !ZeroBranch(devices, rom, k)
    ensures var z := FamilyZero(devices, rom, ROM_BITS, before);
      if forall k: nat :: k < 8 ==> !ZeroBranch(devices, rom, k) then z == before
      else
        1 <= z <= 8 && ZeroBranch(devices, rom, z - 1)
        && forall k: nat :: z <= k < 8 ==> !ZeroBranch(devices, rom, k)
  {
    hide RomBit, ZeroBranch, LastZero;
    LastZeroIs(devices, rom, ROM_BITS);
    LastZeroIs(devices, rom, 8);
  }

  /** A later code leaves the path of cur at a branch where cur took 0. */
  lemma LaterLeavesAtZero(devices: set<Rom>, cur: Rom, d: Rom, k: nat)
    requires cur in devices && d in devices && k < ROM_BITS && Differ(cur, d, k)
    ensures k + 1 <= LastZero(devices, cur, ROM_BITS)
  {
    hide RomBit, LastZero;
    assert d in Active(devices, cur, k) && cur in Active(devices, cur, k);
    LastZeroIsDeepest(devices, cur, ROM_BITS, k);
  }

  /** When no branch with 0 is left on the path, nothing comes after the code. */
  lemma NoneAfterLast(devices: set<Rom>, cur: Rom, d: Rom)
    requires cur in devices && d in devices && LastZero(devices, cur, ROM_BITS) == 0
    ensures !Less(cur, d)
  {
    hide RomBit, LastZero, Differ;
    if Less(cur, d) {
      var k: nat :| k < ROM_BITS && Differ(cur, d, k);
      LaterLeavesAtZero(devices, cur, d, k);
    }
  }

  /** Up to the last discrepancy the walk repeats the previous one. */
  lemma {:induction false} RepeatsPrevious(devices: set<Rom>, cur: Rom, prev: Rom, last: nat, n: nat)
    requires prev in devices && n < last <= ROM_BITS && Walks(devices, cur, prev, last, ROM_BITS)
    ensures Agree(cur, prev, n)
  {
    hide RomBit;
    if n > 0 {
      RepeatsPrevious(devices, cur, prev, last, n - 1);
      assert prev in Active(devices, cur, n - 1);
      assert RomBit(cur, n - 1) == Choice(Active(devices, cur, n - 1), prev, last, n - 1);
    }
  }

  /** The code found leaves the previous one at its last discrepancy, with 1 for 0. */
  lemma LeavesAtLast(devices: set<Rom>, cur: Rom, prev: Rom, last: nat)
    requires prev in devices && Found(devices, cur, prev, last) && last == LastZero(devices, prev, ROM_BITS) > 0
    ensures Differ(prev, cur, last - 1)
  {
    hide RomBit, LastZero, Branches, AllSend;
    RepeatsPrevious(devices, cur, prev, last, last - 1);
    LastZeroIsBranch(devices, prev, ROM_BITS);
    ActiveDependsOnPrefix(devices, cur, prev, last - 1);
    assert RomBit(cur, last - 1) == Choice(Active(devices, cur, last - 1), prev, last, last - 1);
  }

  /** The next search finds the immediate successor of the code found before. */
  lemma NextIsSuccessor(devices: set<Rom>, cur: Rom, prev: Rom, d: Rom)
    requires prev in devices && d in devices && LastZero(devices, prev, ROM_BITS) > 0
    requires Found(devices, cur, prev, LastZero(devices, prev, ROM_BITS))
    ensures Less(prev, cur)
    ensures Less(prev, d) ==> d == cur || Less(cur, d)
  {
    hide RomBit, LastZero, Walks;
    var last := LastZero(devices, prev, ROM_BITS);
    LeavesAtLast(devices, cur, prev, last);
    if Less(prev, d) {
      var k: nat :| k < ROM_BITS && Differ(prev, d, k);
      LaterLeavesAtZero(devices, prev, d, k);
      if k + 1 < last {
        assert Differ(cur, d, k);
      } else {
        PastLast(devices, cur, prev, last, d, last);
      }
    }
  }

  // ---------- Enumeration ----------

  ghost predicate AllAcceptable(devices: set<Rom>) {
    forall d :: d in devices ==> Acceptable(d)
  }

  ghost predicate Increasing(s: seq<Rom>) {
    forall i, j :: 0 <= i < j < |s| ==> Less(s[i], s[j])
  }

  /** The codes of the bus up to and including the last of s are exactly those in s, in order. */
  ghost predicate Enumerated(devices: set<Rom>, s: seq<Rom>) {
    s != [] && Increasing(s) && (forall i :: 0 <= i < |s| ==> s[i] in devices)
    && forall d :: d in devices ==> d in s || Less(s[|s| - 1], d)
  }

  lemma EnumeratedFirst(devices: set<Rom>, cur: Rom)
    requires Found(devices, cur, cur, 0)
    ensures Enumerated(devices, [cur])
  {
    hide Less, Walks;
    forall d | d in devices
      ensures d in [cur] || Less(cur, d)
    {
      FirstIsLeast(devices, cur, cur, d);
    }
  }

  lemma EnumeratedNext(devices: set<Rom>, s: seq<Rom>, cur: Rom)
    requires Enumerated(devices, s)
    requires LastZero(devices, s[|s| - 1], ROM_BITS) > 0
    requires Found(devices, cur, s[|s| - 1], LastZero(devices, s[|s| - 1], ROM_BITS))
    ensures Enumerated(devices, s + [cur])
  {
    hide Less, Walks, LastZero;
    var prev := s[|s| - 1];
    var t := s + [cur];
    NextIsSuccessor(devices, cur, prev, cur);
    forall i | 0 <= i < |s|
      ensures Less(s[i], cur)
    {
      if i < |s| - 1 {
        LessIsTransitive(s[i], prev, cur);
      }
    }
    forall d | d in devices
      ensures d in t || Less(cur, d)
    {
      if d in s {
        var i :| 0 <= i < |s| && s[i] == d;
        assert t[i] == d;
      } else {
        NextIsSuccessor(devices, cur, prev, d);
        assert t[|s|] == cur;
      }
    }
  }

  /** After the last code every device has been found. */
  lemma EnumeratedAll(devices: set<Rom>, s: seq<Rom>)
    requires Enumerated(devices, s) && LastZero(devices, s[|s| - 1], ROM_BITS) == 0
    ensures forall d :: d in devices <==> d in s
  {
    hide Less, LastZero;
    forall d | d in devices
      ensures d in s
    {
      NoneAfterLast(devices, s[|s| - 1], d);
    }
  }

  /** An increasing sequence repeats nothing: it has as many elements as the set it lists. */
  lemma {:induction false} IncreasingIsDistinct(s: seq<Rom>)
    requires Increasing(s)
    ensures |set x | x in s| == |s|
  {
    hide Less;
    if s != [] {
      var n := |s| - 1;
      IncreasingIsDistinct(s[..n]);
      assert (set x | x in s) == (set x | x in s[..n]) + {s[n]};
      if s[n] in s[..n] {
        var i :| 0 <= i < n && s[i] == s[n];
        LessIsStrict(s[i], s[n]);
      }
    }
  }

  lemma EnumeratedAtMost(devices: set<Rom>, s: seq<Rom>)
    requires Enumerated(devices, s)
    ensures |s| <= |devices|
    ensures (forall d :: d in devices ==> d in s) ==> |s| == |devices|
  {
    hide Less;
    IncreasingIsDistinct(s);
    var listed := set x | x in s;
    SubsetSize(listed, devices);
    if forall d :: d in devices ==> d in s {
      assert listed == devices;
    }
  }

  lemma {:induction false} SubsetSize<T>(a: set<T>, b: set<T>)
    requires a <= b
    ensures |a| <= |b|
  {
    if a != {} {
      var x :| x in a;
      SubsetSize(a - {x}, b - {x});
    }
  }

  ghost predicate Complete(devices: set<Rom>, s: seq<Rom>) {
    forall d :: d in devices ==> d in s
  }

  /** Everything before the device d, which is not acceptable, is in s. */
  ghost predicate StopsAt(devices: set<Rom>, s: seq<Rom>, d: Rom) {
    d in devices && !Acceptable(d) && forall e :: e in devices && Less(e, d) ==> e in s
  }

  lemma StopsBefore(devices: set<Rom>, s: seq<Rom>, d: Rom)
    requires Enumerated(devices, s + [d])
    ensures d in devices && forall e :: e in devices && Less(e, d) ==> e in s
  {
    hide Less;
    assert (s + [d])[|s|] == d;
    forall e | e in devices && Less(e, d)
      ensures e in s
    {
      LessIsStrict(e, d);
    }
  }

  /**
   Searches first and then next until nothing is found.  Codes are found in
   order and at most once, and the call after the last finds nothing.  Every
   device is found exactly when every device has CRC 0 and a non-zero family
   byte; otherwise the search stops before the first that does not.
   */
  method EnumerateDevices(bus: Bus, state: SearchState) returns (roms: seq<Rom>, calls: nat)
    requires state.Valid()
    modifies bus, state, state.romCode
    ensures Increasing(roms) && calls == |roms| + 1
    ensures forall d :: d in roms ==> d in bus.devices && Acceptable(d)
    ensures AllAcceptable(bus.devices) <==> forall d :: d in bus.devices ==> d in roms
    ensures AllAcceptable(bus.devices) ==> |roms| == |bus.devices|
    ensures !AllAcceptable(bus.devices) ==>
      exists d :: d in bus.devices && !Acceptable(d)
        && forall e :: e in bus.devices && Less(e, d) ==> e in roms
  {
    hide Less, LastZero, Walks, FamilyZero, RomBit, Acceptable;
    roms := [];
    var found := SearchFirst(bus, state);
    calls := 1;
    if found || bus.devices != {} {
      EnumeratedFirst(bus.devices, state.romCode[..]);
      StopsBefore(bus.devices, [], state.romCode[..]);
    }
    while found
      invariant state.Valid() && calls == |roms| + 1
      invariant found ==> Enumerated(bus.devices, roms + [state.romCode[..]])
      invariant found ==> state.lastDiscrepancy == LastZero(bus.devices, state.romCode[..], ROM_BITS)
      invariant found ==> state.lastDeviceFlag == (state.lastDiscrepancy == 0) && Acceptable(state.romCode[..])
      invariant forall i :: 0 <= i < |roms| ==> Acceptable(roms[i])
      invariant roms != [] ==> Enumerated(bus.devices, roms)
      invariant !found ==> Complete(bus.devices, roms) || StopsAt(bus.devices, roms, state.romCode[..])
      decreases if found then |bus.devices| + 1 - |roms| else 0
    {
      ghost var lastZero := state.lastDiscrepancy;
      roms := roms + [state.romCode[..]];
      EnumeratedAtMost(bus.devices, roms);
      if state.lastDiscrepancy == 0 {
        EnumeratedAll(bus.devices, roms);
      }
      found := Search(bus, state);
      calls := calls + 1;
      if lastZero > 0 {
        EnumeratedNext(bus.devices, roms, state.romCode[..]);
        StopsBefore(bus.devices, roms, state.romCode[..]);
      }
    }
    if roms != [] {
      EnumeratedAtMost(bus.devices, roms);
    }
  }

  // ---------- Which codes are accepted ----------

  lemma {:induction false} BitInOrder(data: seq<bv8>, k: nat)
    requires k < 8 * |data|
    ensures BitsInOrder(data)[k] == Bit(data[k / 8], k % 8)
    decreases |data|
  {
    hide Bit;
    var n := |data| - 1;
    if k < 8 * n {
      BitInOrder(data[..n], k);
    } else {
      CellAt(data[n], k - 8 * n);
      assert k / 8 == n && k % 8 == k - 8 * n;
    }
  }

  lemma CellAt(b: bv8, i: nat)
    requires i < 8
    ensures Cells(b)[i] == Bit(b, i)
  {
    hide Bit;
  }

  lemma ZeroCells(b: bv8)
    ensures b == 0 <==> forall i :: 0 <= i < 8 ==> !Cells(b)[i]
  {
    hide Bit;
    BitsOfNothing();
    if forall i :: 0 <= i < 8 ==> !Cells(b)[i] {
      forall i | 0 <= i < 8
        ensures Bit(b, i) == Bit(0, i)
      {
        CellAt(b, i);
      }
      ByteFromBits(b, 0);
    }
  }

  lemma BitsOfNothing()
    ensures forall i :: 0 <= i < 8 ==> !Bit(0, i)
  {
    forall i | 0 <= i < 8
      ensures !Bit(0, i)
    {
      BitMask(0, i);
    }
  }

  /**
   A code is accepted exactly when its 64 bits, in the order of the search, leave
   an empty shift register empty, and the first eight are not all 0.
   */
  lemma AcceptedExactly(rom: Rom, bits: seq<bool>, empty: Register)
    requires |bits| == 64 && forall k :: 0 <= k < 64 ==> bits[k] == RomBit(rom, k)
    requires empty == [false, false, false, false, false, false, false, false]
    ensures Acceptable(rom) <==> FeedAll(empty, bits) == empty && exists k :: 0 <= k < 8 && bits[k]
  {
    hide Bit, CrcOf, FeedAll, Cells, BitsInOrder;
    forall k | 0 <= k < 64
      ensures bits[k] == BitsInOrder(rom)[k]
    {
      BitInOrder(rom, k);
    }
    assert bits == BitsInOrder(rom);
    CrcIsRegister(0, rom);
    ZeroCells(0);
    assert Cells(0) == empty;
    ZeroCells(CrcOf(0, rom));
    assert Cells(CrcOf(0, rom)) == empty <==> CrcOf(0, rom) == 0;
    FirstByte(rom);
  }

  lemma FirstByte(rom: Rom)
    ensures rom[0] != 0 <==> exists k :: 0 <= k < 8 && RomBit(rom, k)
  {
    hide Bit;
    BitsOfNothing();
    if forall k :: 0 <= k < 8 ==> !RomBit(rom, k) {
      forall i | 0 <= i < 8
        ensures Bit(rom[0], i) == Bit(0, i)
      {
        assert !RomBit(rom, i);
      }
      ByteFromBits(rom[0], 0);
    } else {
      var k :| 0 <= k < 8 && RomBit(rom, k);
    }
  }

  // ---------- Verification of one code ----------

  /** Two codes with CRC 0 that agree up to the last bit are the same. */
  lemma LastBitDetermined(a: Rom, b: Rom)
    requires CrcOf(0, a) == 0 && CrcOf(0, b) == 0 && Agree(a, b, 56)
    ensures a == b
  {
    hide RomBit, CrcOf, Bit;
    forall j | 0 <= j < 7
      ensures a[j] == b[j]
    {
      forall i | 0 <= i < 8
        ensures Bit(a[j], i) == Bit(b[j], i)
      {
        SameBit(a, b, 8 * j + i);
      }
      ByteFromBits(a[j], b[j]);
    }
    assert a == a[..7] + [a[7]] && b == a[..7] + [b[7]];
    LastByteDetermined(a[..7], a[7], b[7]);
  }

  lemma SameBit(a: Rom, b: Rom, k: nat)
    requires k < ROM_BITS && RomBit(a, k) == RomBit(b, k)
    ensures Bit(a[k / 8], k % 8) == Bit(b[k / 8], k % 8)
  {}

  /**
   Another device differs from the code only at the last bit, where a search with
   discrepancy 64 takes the other's 1.
   */
  ghost predicate Shadowed(devices: set<Rom>, rom: Rom) {
    !RomBit(rom, 63) && exists d :: d in devices && d != rom && Agree(d, rom, 63)
  }

  /** A walk that comes from a code of the bus with discrepancy 64 finds that code again, unless another shadows it. */
  lemma SearchFindsItself(devices: set<Rom>, cur: Rom, rom: Rom)
    requires rom in devices && Found(devices, cur, rom, ROM_BITS)
    ensures cur == rom <==> !Shadowed(devices, rom)
  {
    hide RomBit;
    RepeatsPrevious(devices, cur, rom, ROM_BITS, 63);
    var active := Active(devices, cur, 63);
    assert RomBit(cur, 63) == Choice(active, rom, ROM_BITS, 63);
    assert rom in active && cur in active;
    if RomBit(cur, 63) == RomBit(rom, 63) {
      RomFromBits(cur, rom);
    }
    if exists d :: d in devices && d != rom && Agree(d, rom, 63) {
      var d :| d in devices && d != rom && Agree(d, rom, 63);
      if RomBit(d, 63) == RomBit(rom, 63) {
        RomFromBits(d, rom);
      }
      assert d in active;
    }
  }

  /** Devices whose codes all have CRC 0 do not shadow each other. */
  lemma NoneIsShadowed(devices: set<Rom>, rom: Rom)
    requires AllAcceptable(devices) && rom in devices
    ensures Acceptable(rom) && !Shadowed(devices, rom)
  {
    hide RomBit, CrcOf;
    forall d | d in devices && Agree(d, rom, 63)
      ensures d == rom
    {
      LastBitDetermined(d, rom);
    }
  }

  /**
   Tells whether a code is present: one of the devices, with CRC 0 and a
   non-zero family byte, and not shadowed by another.  On a bus where all
   devices have such codes that is exactly whether it is one of them.
   */
  method VerifyRom(bus: Bus, romCode: Rom) returns (isPresent: bool)
    modifies bus
    ensures isPresent <==> romCode in bus.devices && Acceptable(romCode) && !Shadowed(bus.devices, romCode)
    ensures AllAcceptable(bus.devices) ==> (isPresent <==> romCode in bus.devices)
  {
    hide RomBit, CrcOf, Walks, LastZero, FamilyZero, Acceptable, Shadowed;
    var state := new SearchState();
    forall j | 0 <= j < 8 {
      state.romCode[j] := romCode[j];
    }
    assert state.romCode[..] == romCode;
    state.lastDiscrepancy := 64;
    var isFound := Search(bus, state);
    ghost var cur := state.romCode[..];
    if romCode in bus.devices {
      SearchFindsItself(bus.devices, cur, romCode);
      if AllAcceptable(bus.devices) {
        NoneIsShadowed(bus.devices, romCode);
      }
    }
    isPresent := false;
    if isFound {
      isPresent := true;
      var i := 0;
      while i < 8 && isPresent
        invariant 0 <= i <= 8
        invariant isPresent <==> state.romCode[..i] == romCode[..i]
      {
        isPresent := romCode[i] == state.romCode[i];
        i := i + 1;
      }
      assert romCode[..8] == romCode && state.romCode[..8] == state.romCode[..];
    }
  }
}
