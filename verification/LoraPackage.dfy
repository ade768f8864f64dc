/**
 The frames of the tower network: header, sensor readings, payload and sum,
 packed into and unpacked from a fixed buffer.
 */
module LoraPackage {
  import opened Bytes

  const HEADER_SIZE: nat := 6
  const SUM_SIZE: nat := 2
  const BUFFER_SIZE: nat := 256

  /** Packages and payloads of this size or more are ignored, as empty ones are. */
  const SIZE_LIMIT: nat := 1000

  datatype Sensors = Sensors(temperature: int, airHumidity: int, soilHumidity: int, windSpeed: int, rain: int,
                             battery1: int, battery2: int)

  const NO_SENSORS := Sensors(0, 0, 0, 0, 0, 0, 0)

  datatype Frame = Frame(destiny: int, sender: int, isText: byte, isInfo: byte, keepAlive: byte, original: int,
                         sensors: Sensors, payload: seq<byte>)

  /** The sensor readings travel only in frames that are not text. */
  function SensorsSize(isText: byte): nat {
    if isText != 0 then 0 else 14
  }

  /** A frame with a payload of this size fits in a buffer. */
  predicate Storable(isText: byte, size: nat) {
    HEADER_SIZE + SensorsSize(isText) + size + SUM_SIZE <= BUFFER_SIZE
  }

  // ---------- The bytes of a frame ----------

  /** The low 16 bits of a two's complement number, low byte first. */
  function Low16(x: int): (r: seq<byte>)
    ensures |r| == 2
  {
    [x % 256, x / 256 % 256]
  }

  function Read16(s: seq<byte>, at: nat): int
    requires at + 2 <= |s|
  {
    var low: int, high: int := s[at], s[at + 1];
    high * 256 + low
  }

  lemma Read16OfLow16(s: seq<byte>, at: nat, x: int)
    requires at + 2 <= |s| && s[at] == Low16(x)[0] && s[at + 1] == Low16(x)[1]
    ensures Read16(s, at) == x % 65536
  {
    LowHigh(x);
  }

  lemma LowHigh(x: int)
    ensures x / 256 % 256 * 256 + x % 256 == x % 65536
  {
    var q, r := x / 65536, x % 65536;
    assert x == (256 * q + r / 256) * 256 + r % 256;
    assert x / 256 == 256 * q + r / 256;
  }

  function HeaderBytes(f: Frame): (r: seq<byte>)
    ensures |r| == HEADER_SIZE
  {
    [f.destiny % 256, f.sender % 256, f.isText, f.isInfo, f.keepAlive, f.original % 256]
  }

  function SensorBytes(s: Sensors): (r: seq<byte>)
    ensures |r| == 14
  {
    Low16(s.temperature) + Low16(s.airHumidity) + Low16(s.soilHumidity) + Low16(s.windSpeed) + Low16(s.rain)
    + Low16(s.battery1) + Low16(s.battery2)
  }

  function Body(f: Frame): (r: seq<byte>)
    ensures |r| == HEADER_SIZE + SensorsSize(f.isText) + |f.payload|
  {
    HeaderBytes(f) + (if f.isText != 0 then [] else SensorBytes(f.sensors)) + f.payload
  }

  function Total(s: seq<byte>): nat {
    if s == [] then 0 else Total(s[..|s| - 1]) + s[|s| - 1]
  }

  function SumOf(s: seq<byte>): nat {
    Total(s) % 65536
  }

  function Encode(f: Frame): (r: seq<byte>)
    ensures |r| == HEADER_SIZE + SensorsSize(f.isText) + |f.payload| + SUM_SIZE
  {
    Body(f) + Low16(SumOf(Body(f)))
  }

  /** Long enough for the header, the sum and, in a frame that is not text, the readings. */
  predicate WellSized(s: seq<byte>) {
    HEADER_SIZE + SUM_SIZE <= |s| && HEADER_SIZE + SensorsSize(s[2]) + SUM_SIZE <= |s|
  }

  function ReadSensors(s: seq<byte>): Sensors
    requires 20 <= |s|
  {
    Sensors(Read16(s, 6), Read16(s, 8), Read16(s, 10), Read16(s, 12), Read16(s, 14), Read16(s, 16), Read16(s, 18))
  }

  /** A text frame leaves the readings of the receiving package as they were. */
  function Decode(s: seq<byte>, before: Sensors): Frame
    requires WellSized(s)
  {
    Frame(s[0], s[1], s[2], s[3], s[4], s[5], if s[2] != 0 then before else ReadSensors(s),
      s[HEADER_SIZE + SensorsSize(s[2])..|s| - SUM_SIZE])
  }

  /** The check a tower makes before it accepts a frame. */
  predicate SumHolds(s: seq<byte>)
    requires |s| >= SUM_SIZE
  {
    Read16(s, |s| - SUM_SIZE) == SumOf(s[..|s| - SUM_SIZE])
  }

  function Wire16(s: Sensors): Sensors {
    Sensors(s.temperature % 65536, s.airHumidity % 65536, s.soilHumidity % 65536, s.windSpeed % 65536, s.rain % 65536,
      s.battery1 % 65536, s.battery2 % 65536)
  }

  /** What is left of a frame once it has travelled: numbers of towers modulo 256, readings modulo 65536. */
  function Wire(f: Frame, before: Sensors): Frame {
    Frame(f.destiny % 256, f.sender % 256, f.isText, f.isInfo, f.keepAlive, f.original % 256,
      if f.isText != 0 then before else Wire16(f.sensors), f.payload)
  }

  lemma SensorByteAt(x: Sensors)
    ensures var b := SensorBytes(x);
      b[0..2] == Low16(x.temperature) && b[2..4] == Low16(x.airHumidity) && b[4..6] == Low16(x.soilHumidity)
      && b[6..8] == Low16(x.windSpeed) && b[8..10] == Low16(x.rain) && b[10..12] == Low16(x.battery1)
      && b[12..14] == Low16(x.battery2)
  {
    hide Low16;
    var b := SensorBytes(x);
    var weather := Low16(x.temperature) + Low16(x.airHumidity) + Low16(x.soilHumidity) + Low16(x.windSpeed);
    assert b == weather + (Low16(x.rain) + Low16(x.battery1) + Low16(x.battery2));
    assert b[..8] == weather && b[8..] == Low16(x.rain) + Low16(x.battery1) + Low16(x.battery2);
  }

  /** One reading in a frame: the two bytes at its place. */
  lemma ReadingAt(s: seq<byte>, b: seq<byte>, i: nat, x: int)
    requires |b| == 14 && 20 <= |s| && s[6..20] == b && i + 2 <= 14 && b[i..i + 2] == Low16(x)
    ensures Read16(s, 6 + i) == x % 65536
  {
    assert s[6 + i] == s[6..20][i] == b[i..i + 2][0];
    assert s[6 + i + 1] == s[6..20][i + 1] == b[i..i + 2][1];
    Read16OfLow16(s, 6 + i, x);
  }

  lemma SensorsReadBack(s: seq<byte>, x: Sensors)
    requires 20 <= |s| && s[6..20] == SensorBytes(x)
    ensures ReadSensors(s) == Wire16(x)
  {
    hide Low16, Read16, SensorBytes;
    var b := SensorBytes(x);
    SensorByteAt(x);
    ReadingAt(s, b, 0, x.temperature);
    ReadingAt(s, b, 2, x.airHumidity);
    ReadingAt(s, b, 4, x.soilHumidity);
    ReadingAt(s, b, 6, x.windSpeed);
    ReadingAt(s, b, 8, x.rain);
    ReadingAt(s, b, 10, x.battery1);
    ReadingAt(s, b, 12, x.battery2);
  }

  /** Unpacking undoes packing, and the packed frame passes the sum check. */
  lemma FrameReadsBack(f: Frame, before: Sensors)
    ensures WellSized(Encode(f)) && Decode(Encode(f), before) == Wire(f, before)
    ensures SumHolds(Encode(f))
  {
    hide SensorBytes, ReadSensors, SumOf, Low16, Read16;
    var s, n := Encode(f), HEADER_SIZE + SensorsSize(f.isText);
    assert s[..6] == HeaderBytes(f);
    assert s[0] == s[..6][0] && s[1] == s[..6][1] && s[2] == s[..6][2];
    assert s[3] == s[..6][3] && s[4] == s[..6][4] && s[5] == s[..6][5];
    if f.isText == 0 {
      assert s[6..20] == SensorBytes(f.sensors);
      SensorsReadBack(s, f.sensors);
    }
    assert s[n..|s| - SUM_SIZE] == f.payload;
    assert s[..|s| - SUM_SIZE] == Body(f);
    assert s[|s| - SUM_SIZE..] == Low16(SumOf(Body(f)));
    assert s[|s| - SUM_SIZE] == s[|s| - SUM_SIZE..][0] && s[|s| - 1] == s[|s| - SUM_SIZE..][1];
    Read16OfLow16(s, |s| - SUM_SIZE, SumOf(Body(f)));
    SumIsSmall(Body(f));
  }

  lemma SumIsSmall(s: seq<byte>)
    ensures SumOf(s) % 65536 == SumOf(s)
  {
  }

  // ---------- The sum check finds any one changed byte ----------

  lemma {:induction false} TotalWithChange(s: seq<byte>, k: nat, v: byte)
    requires k < |s|
    ensures Total(s[k := v]) == Total(s) - s[k] + v
  {
    var n := |s| - 1;
    if k < n {
      assert s[k := v][..n] == s[..n][k := v];
      TotalWithChange(s[..n], k, v);
    } else {
      assert s[k := v][..n] == s[..n];
    }
  }

  lemma SumTellsApart(x: int, y: int)
    requires x % 65536 == y % 65536 && -65536 < x - y < 65536
    ensures x == y
  {}

  /** A frame that passes the check passes it after a change of one byte only if nothing changed. */
  lemma OneByteChangeFails(s: seq<byte>, k: nat, v: byte)
    requires SUM_SIZE <= |s| && SumHolds(s) && k < |s|
    ensures SumHolds(s[k := v]) <==> v == s[k]
  {
    var n, t := |s| - SUM_SIZE, s[k := v];
    if k < n {
      assert t[..n] == s[..n][k := v];
      TotalWithChange(s[..n], k, v);
      if SumHolds(t) {
        SumTellsApart(Total(s[..n]), Total(t[..n]));
      }
    } else {
      assert t[..n] == s[..n];
    }
    if v == s[k] {
      assert t == s;
    }
  }

  // ---------- Relaying ----------

  /** A relay writes its own number as the sender and, where it has one, its own second battery reading. */
  function Relay(f: Frame, tower: int, battery: int): Frame {
    var g := if f.isText == 0 && battery != 0 then f.(sensors := f.sensors.(battery2 := battery)) else f;
    g.(sender := tower)
  }

  datatype Hop = Hop(tower: int, battery: int)

  /** The frame as bytes after the hops: each relay unpacks, relays and packs again. */
  function Relayed(s: seq<byte>, hops: seq<Hop>): seq<byte>
    requires WellSized(s)
    decreases |hops|
  {
    if hops == [] then s
    else
      var f := Decode(s, NO_SENSORS);
      FrameReadsBack(Relay(f, hops[0].tower, hops[0].battery), NO_SENSORS);
      Relayed(Encode(Relay(f, hops[0].tower, hops[0].battery)), hops[1..])
  }

  /** The last second-battery reading that is not zero, or the one the frame set out with. */
  function LastBattery(first: int, hops: seq<Hop>): int
    decreases |hops|
  {
    if hops == [] then first
    else LastBattery(if hops[0].battery != 0 then hops[0].battery else first, hops[1..])
  }

  /** The frame that set out as f, after the hops. */
  function AfterHops(f: Frame, hops: seq<Hop>): Frame {
    var g := if hops == [] then f else f.(sender := hops[|hops| - 1].tower);
    if f.isText != 0 then g else g.(sensors := f.sensors.(battery2 := LastBattery(f.sensors.battery2, hops)))
  }

  lemma LastBatteryWire(x: int, y: int, hops: seq<Hop>)
    requires x % 65536 == y % 65536
    ensures LastBattery(x, hops) % 65536 == LastBattery(y, hops) % 65536
    decreases |hops|
  {}

  /**
   Over any number of relays the destination, the original sender, the type
   flags, the payload and all readings but the second battery arrive as sent,
   and every frame on the way passes the sum check.
   */
  lemma {:induction false} RelayingKeepsFrame(f: Frame, hops: seq<Hop>)
    ensures WellSized(Encode(f)) && WellSized(Relayed(Encode(f), hops)) && SumHolds(Relayed(Encode(f), hops))
    ensures Decode(Relayed(Encode(f), hops), NO_SENSORS) == Wire(AfterHops(f, hops), NO_SENSORS)
    decreases |hops|
  {
    hide Encode, SumHolds, Decode;
    FrameReadsBack(f, NO_SENSORS);
    if hops != [] {
      var g := Relay(Wire(f, NO_SENSORS), hops[0].tower, hops[0].battery);
      RelayingKeepsFrame(g, hops[1..]);
      if f.isText == 0 {
        var battery := if hops[0].battery != 0 then hops[0].battery else f.sensors.battery2;
        LastBatteryWire(g.sensors.battery2, battery, hops[1..]);
      }
    }
  }

  // ---------- The package object ----------

  /** The bytes with a part replaced. */
  function Patched(s: seq<byte>, at: nat, part: seq<byte>): (r: seq<byte>)
    requires at + |part| <= |s|
    ensures |r| == |s|
  {
    s[..at] + part + s[at + |part|..]
  }

  lemma PatchedTwice(s: seq<byte>, at: nat, a: seq<byte>, b: seq<byte>)
    requires at + |a| + |b| <= |s|
    ensures Patched(Patched(s, at, a), at + |a|, b) == Patched(s, at, a + b)
  {
    var t := Patched(s, at, a);
    assert t[..at + |a|] == s[..at] + a;
    assert t[at + |a| + |b|..] == s[at + |a| + |b|..];
  }

  lemma SliceOfPrefix(s: seq<byte>, n: nat, a: nat, b: nat)
    requires a <= b <= n <= |s|
    ensures s[..n][a..b] == s[a..b]
  {}

  lemma PatchedPrefix(s: seq<byte>, part: seq<byte>)
    requires |part| <= |s|
    ensures Patched(s, 0, part)[..|part|] == part && Patched(s, 0, part)[|part|..] == s[|part|..]
  {}

  /** One package: its fields, its payload and the frame they are packed into. */
  class LoraPackage {
    const payload: array<byte>
    const package: array<byte>
    var payloadSize: int
    var packageSize: int
    var destinyNumber: int
    var senderNumber: int
    var originalNumber: int
    var sum: int
    var sensors: Sensors
    var isText: byte
    var isInfo: byte
    var keepAlive: byte

    constructor ()
      ensures Valid() && fresh(payload) && fresh(package)
      ensures isText == 0 && keepAlive == 0
    {
      payload, package := new byte[BUFFER_SIZE], new byte[BUFFER_SIZE];
      payloadSize, packageSize := 0, 0;
      destinyNumber, senderNumber, originalNumber, sum := 0, 0, 0, 0;
      sensors := NO_SENSORS;
      isText, isInfo, keepAlive := 0, 0, 0;
    }

    ghost predicate Valid()
      reads this
    {
      payload.Length == BUFFER_SIZE && package.Length == BUFFER_SIZE && payload != package
      && 0 <= payloadSize <= BUFFER_SIZE && 0 <= packageSize <= BUFFER_SIZE
    }

    /** The frame that the fields describe. */
    ghost function Contents(): Frame
      requires Valid()
      reads this, payload
    {
      Frame(destinyNumber, senderNumber, isText, isInfo, keepAlive, originalNumber, sensors, payload[..payloadSize])
    }

    /** The packed frame fits in the buffer. */
    ghost predicate Fits(size: int)
      reads this
    {
      0 <= size && Storable(isText, size)
    }

    method CalculateSum()
      requires Valid()
      modifies this`sum
      ensures sum == if packageSize < SUM_SIZE then 0 else SumOf(package[..packageSize - SUM_SIZE])
    {
      var partial: int := 0;
      var i := 0;
      while i < packageSize - 2
        invariant 0 <= i && (i == 0 || i <= packageSize - 2)
        invariant partial == Total(package[..i])
      {
        assert package[..i + 1][..i] == package[..i];
        partial := partial + package[i];
        i := i + 1;
      }
      sum := partial % 65536;
    }

    /** Copies the low 16 bits of a number, low byte first. */
    method Store16(at: nat, x: int)
      requires Valid() && at + 2 <= BUFFER_SIZE
      modifies package
      ensures package[..] == Patched(old(package[..]), at, Low16(x))
    {
      package[at] := x % 256;
      package[at + 1] := x / 256 % 256;
    }

    method StoreHeader()
      requires Valid()
      modifies package
      ensures package[..] == Patched(old(package[..]), 0, HeaderBytes(Contents()))
    {
      package[0] := destinyNumber % 256;
      package[1] := senderNumber % 256;
      package[2] := isText;
      package[3] := isInfo;
      package[4] := keepAlive;
      package[5] := originalNumber % 256;
    }

    method StoreSensors()
      requires Valid()
      modifies package
      ensures package[..] == Patched(old(package[..]), HEADER_SIZE, SensorBytes(sensors))
    {
      hide Low16, Patched;
      ghost var s, x := package[..], sensors;
      ghost var b := Low16(x.temperature);
      Store16(HEADER_SIZE, sensors.temperature);
      PatchedTwice(s, HEADER_SIZE, b, Low16(x.airHumidity));
      b := b + Low16(x.airHumidity);
      Store16(HEADER_SIZE + 2, sensors.airHumidity);
      PatchedTwice(s, HEADER_SIZE, b, Low16(x.soilHumidity));
      b := b + Low16(x.soilHumidity);
      Store16(HEADER_SIZE + 4, sensors.soilHumidity);
      PatchedTwice(s, HEADER_SIZE, b, Low16(x.windSpeed));
      b := b + Low16(x.windSpeed);
      Store16(HEADER_SIZE + 6, sensors.windSpeed);
      PatchedTwice(s, HEADER_SIZE, b, Low16(x.rain));
      b := b + Low16(x.rain);
      Store16(HEADER_SIZE + 8, sensors.rain);
      PatchedTwice(s, HEADER_SIZE, b, Low16(x.battery1));
      b := b + Low16(x.battery1);
      Store16(HEADER_SIZE + 10, sensors.battery1);
      PatchedTwice(s, HEADER_SIZE, b, Low16(x.battery2));
      Store16(HEADER_SIZE + 12, sensors.battery2);
    }

    method CopyPayload(at: nat)
      requires Valid() && at + payloadSize <= BUFFER_SIZE
      modifies package
      ensures package[..] == Patched(old(package[..]), at, payload[..payloadSize])
    {
      ghost var s := package[..];
      var i := 0;
      while i < payloadSize
        invariant 0 <= i <= payloadSize
        invariant package[..] == Patched(s, at, payload[..i])
      {
        PatchedTwice(s, at, payload[..i], [payload[i]]);
        assert payload[..i] + [payload[i]] == payload[..i + 1];
        package[at + i] := payload[i];
        i := i + 1;
      }
    }

    /** Packs the fields: header, readings unless the frame is text, payload, sum. */
    method Encapsulate()
      requires Valid() && Fits(payloadSize)
      modifies this`packageSize, this`sum, package
      ensures Valid() && Contents() == old(Contents())
      ensures package[..packageSize] == Encode(Contents())
      ensures sum == SumOf(Body(Contents()))
    {
      hide Low16, HeaderBytes, SensorBytes, SumOf, Patched;
      ghost var s, f := package[..], Contents();
      ghost var h, r := HeaderBytes(f), if isText != 0 then [] else SensorBytes(sensors);
      var sensorsSize := if isText != 0 then 0 else 14;
      packageSize := payloadSize + HEADER_SIZE + sensorsSize + SUM_SIZE;
      StoreHeader();
      if isText == 0 {
        StoreSensors();
        PatchedTwice(s, 0, h, r);
      }
      assert h + [] == h;
      CopyPayload(HEADER_SIZE + sensorsSize);
      PatchedTwice(s, 0, h + r, f.payload);
      PatchedPrefix(s, Body(f));
      CalculateSum();
      Store16(packageSize - SUM_SIZE, sum);
      PatchedTwice(s, 0, Body(f), Low16(sum));
      PatchedPrefix(s, Encode(f));
    }

    method LoadSensors()
      requires Valid() && 20 <= packageSize
      modifies this`sensors
      ensures sensors == ReadSensors(package[..packageSize])
    {
      hide Read16, Load16;
      LoadIsRead(6);
      LoadIsRead(8);
      LoadIsRead(10);
      LoadIsRead(12);
      LoadIsRead(14);
      LoadIsRead(16);
      LoadIsRead(18);
      sensors := Sensors(Load16(6), Load16(8), Load16(10), Load16(12), Load16(14), Load16(16), Load16(18));
    }

    method ReadPayload(at: nat)
      requires Valid() && at + payloadSize <= BUFFER_SIZE
      modifies payload
      ensures payload[..payloadSize] == package[at..at + payloadSize]
      ensures payload[payloadSize..] == old(payload[..])[payloadSize..]
    {
      forall i | 0 <= i < payloadSize {
        payload[i] := package[at + i];
      }
    }

    /** Unpacks the fields from the packed frame. */
    method Decapsulate()
      requires Valid() && WellSized(package[..packageSize])
      modifies this, payload
      ensures Valid() && packageSize == old(packageSize)
      ensures Contents() == Decode(package[..packageSize], old(sensors))
      ensures sum == Read16(package[..packageSize], packageSize - SUM_SIZE)
      ensures payload[payloadSize..] == old(payload[..])[payloadSize..]
    {
      hide Read16, Load16, ReadSensors;
      ghost var s := package[..packageSize];
      LoadHeader();
      var sensorsSize := if isText != 0 then 0 else 14;
      payloadSize := packageSize - HEADER_SIZE - sensorsSize - SUM_SIZE;
      if isText == 0 {
        LoadSensors();
      }
      ghost var at := HEADER_SIZE + sensorsSize;
      SliceOfPrefix(package[..], packageSize, at, at + payloadSize);
      ReadPayload(HEADER_SIZE + sensorsSize);
      LoadIsRead(packageSize - SUM_SIZE);
      sum := Load16(packageSize - SUM_SIZE);
    }

    method LoadHeader()
      requires Valid() && 6 <= packageSize
      modifies this`destinyNumber, this`senderNumber, this`isText, this`isInfo, this`keepAlive, this`originalNumber
      ensures var s := package[..packageSize];
        destinyNumber == s[0] && senderNumber == s[1] && isText == s[2] && isInfo == s[3] && keepAlive == s[4]
        && originalNumber == s[5]
    {
      destinyNumber := package[0];
      senderNumber := package[1];
      isText := package[2];
      isInfo := package[3];
      keepAlive := package[4];
      originalNumber := package[5];
    }

    function Load16(at: nat): int
      requires at + 2 <= package.Length
      reads package
    {
      var low: int, high: int := package[at], package[at + 1];
      high * 256 + low
    }

    lemma LoadIsRead(at: nat)
      requires Valid() && at + 2 <= packageSize
      ensures Load16(at) == Read16(package[..packageSize], at)
    {}

    /** Takes over a received frame; other sizes are ignored and leave the package as it was. */
    method SetPackage(pck: array<byte>, size: nat)
      requires Valid() && size <= pck.Length && pck != package && pck != payload
      requires 0 < size < SIZE_LIMIT ==> size <= BUFFER_SIZE && WellSized(pck[..size])
      modifies this, payload, package
      ensures Valid()
      ensures 0 < size < SIZE_LIMIT ==>
        Contents() == Decode(pck[..size], old(sensors)) && package[..packageSize] == pck[..size]
      ensures 0 < size < SIZE_LIMIT ==> sum == Read16(pck[..size], size - SUM_SIZE)
      ensures !(0 < size < SIZE_LIMIT) ==>
        Contents() == old(Contents()) && packageSize == old(packageSize) && package[..] == old(package[..])
    {
      hide Decode, Read16;
      if size < SIZE_LIMIT && size > 0 {
        var i := 0;
        while i < size
          invariant 0 <= i <= size && package[..i] == pck[..i] && Valid()
          invariant sensors == old(sensors)
        {
          package[i] := pck[i];
          i := i + 1;
        }
        packageSize := size;
        Decapsulate();
      }
    }

    /** Fills in a new package and packs it; other sizes are ignored. */
    method SetPayload(pay: array<byte>, size: nat, destiny: int, sender: int, ka: byte, info: byte, txt: byte,
                      s: Sensors)
      requires Valid() && size <= pay.Length && pay != package && pay != payload
      requires 0 < size < SIZE_LIMIT ==> Storable(txt, size)
      modifies this, payload, package
      ensures Valid()
      ensures 0 < size < SIZE_LIMIT ==> Contents() == Frame(destiny, sender, txt, info, ka, sender, s, pay[..size])
      ensures 0 < size < SIZE_LIMIT ==> package[..packageSize] == Encode(Contents())
      ensures !(0 < size < SIZE_LIMIT) ==>
        Contents() == old(Contents()) && packageSize == old(packageSize) && package[..] == old(package[..])
    {
      if size < SIZE_LIMIT && size > 0 {
        var i := 0;
        while i < size
          invariant 0 <= i <= size && payload[..i] == pay[..i] && Valid()
        {
          payload[i] := pay[i];
          i := i + 1;
        }
        payloadSize := size;
        destinyNumber, senderNumber, originalNumber := destiny, sender, sender;
        isText, isInfo, keepAlive := txt, info, ka;
        sensors := s;
        Encapsulate();
      }
    }

    method SetSenderNumber(sender: int)
      requires Valid() && Fits(payloadSize)
      modifies this`senderNumber, this`packageSize, this`sum, package
      ensures Valid() && Contents() == old(Contents()).(sender := sender)
      ensures package[..packageSize] == Encode(Contents())
    {
      senderNumber := sender;
      Encapsulate();
    }

    method SetBattery2(battery: int)
      requires Valid() && Fits(payloadSize)
      modifies this`sensors, this`packageSize, this`sum, package
      ensures Valid() && Contents() == old(Contents()).(sensors := old(sensors).(battery2 := battery))
      ensures package[..packageSize] == Encode(Contents())
    {
      sensors := sensors.(battery2 := battery);
      Encapsulate();
    }

    /** What a tower does with an accepted frame: the sum check, then the rewriting that Relay describes. */
    method AcceptAndRelay(pck: array<byte>, size: nat, tower: int, battery: int) returns (accepted: bool)
      requires Valid() && 0 < size <= pck.Length && size <= BUFFER_SIZE && pck != package && pck != payload
      requires WellSized(pck[..size])
      modifies this, payload, package
      ensures Valid() && accepted == SumHolds(pck[..size])
      ensures accepted ==> package[..packageSize] == Encode(Relay(Decode(pck[..size], old(sensors)), tower, battery))
    {
      hide Encode, Read16, SumOf;
      SetPackage(pck, size);
      assert |Contents().payload| == payloadSize;
      assert payloadSize == size - HEADER_SIZE - SensorsSize(isText) - SUM_SIZE;
      var receivedSum := sum;
      CalculateSum();
      assert package[..packageSize - SUM_SIZE] == pck[..size][..size - SUM_SIZE];
      accepted := receivedSum == sum;
      if accepted {
        if isText == 0 && battery != 0 {
          SetBattery2(battery);
        }
        SetSenderNumber(tower);
      }
    }
  }
}
