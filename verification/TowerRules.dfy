/** The rules of a tower in plain terms: directions, the bytes of the answers, what it takes and when it retries. */
module TowerRules {
  import opened Bytes
  import opened LoraPackage
  import opened Wrappers
  import opened LoraManager

  // ---------- Directions ----------

  /**
   Directions as signs.  The sender is a neighbour if its distance is 1 or -1;
   a product of distances tells whether sender and destination are on the same side.
   */
  lemma Directions(t: Tower, f: Frame)
    ensures var (s, d) := (f.sender - t.number, f.destiny - t.number);
      (FromBehind(t, f) <==> s * s == 1 && s * d <= 0)
      && (FromAhead(t, f) <==> s * s == 1 && s * d >= 0)
      && (FromStrictlyAhead(t, f) <==> s * s == 1 && s * d > 0)
      && (PassesBy(t, f) <==> t.sender && s > 0 && d <= 0)
  {
    var s := f.sender - t.number;
    SquareOne(s);
  }

  lemma SquareOne(s: int)
    ensures s * s == 1 <==> s == 1 || s == -1
  {
    if s > 1 {
      assert s * s > 1;
    } else if s < -1 {
      assert s * s > 1;
    }
  }

  // ---------- Answers ----------

  /** The bytes of an answer: the header, the text with its NUL, and the sum. */
  lemma AnswerBytes(destiny: byte, tower: byte)
    ensures Encode(OnAir(Answer(OK_TEXT, destiny, tower)))
         == [destiny, tower, 1, 0, 0, tower, 'O' as int, 'K' as int, 0] + Low16(destiny + tower + tower + 155)
    ensures Encode(OnAir(Answer(RETURN_TEXT, destiny, tower)))
         == [destiny, tower, 1, 0, 0, tower, 'R' as int, 0] + Low16(destiny + tower + tower + 83)
  {
    hide Total, Low16;
    OkTotal(destiny, tower);
    ReturnTotal(destiny, tower);
    var ok, back := OnAir(Answer(OK_TEXT, destiny, tower)), OnAir(Answer(RETURN_TEXT, destiny, tower));
    assert Body(ok) == [destiny, tower, 1, 0, 0, tower, 79, 75, 0];
    assert Body(back) == [destiny, tower, 1, 0, 0, tower, 82, 0];
  }

  lemma TotalSnoc(s: seq<byte>, front: seq<byte>)
    requires |s| == |front| + 1 && front <= s
    ensures Total(s) == Total(front) + s[|front|]
  {
    assert s[..|s| - 1] == front;
  }

  lemma HeaderTotal(destiny: byte, tower: byte)
    ensures Total([destiny, tower, 1, 0, 0, tower]) == destiny + tower + tower + 1
  {
    hide Total;
    NothingTotal();
    TotalSnoc([destiny], []);
    TotalSnoc([destiny, tower], [destiny]);
    TotalSnoc([destiny, tower, 1], [destiny, tower]);
    TotalSnoc([destiny, tower, 1, 0], [destiny, tower, 1]);
    TotalSnoc([destiny, tower, 1, 0, 0], [destiny, tower, 1, 0]);
    TotalSnoc([destiny, tower, 1, 0, 0, tower], [destiny, tower, 1, 0, 0]);
  }

  lemma NothingTotal()
    ensures Total([]) == 0
  {}

  lemma OkTotal(destiny: byte, tower: byte)
    ensures Total([destiny, tower, 1, 0, 0, tower, 79, 75, 0]) == destiny + tower + tower + 155
  {
    hide Total;
    HeaderTotal(destiny, tower);
    TotalSnoc([destiny, tower, 1, 0, 0, tower, 79], [destiny, tower, 1, 0, 0, tower]);
    TotalSnoc([destiny, tower, 1, 0, 0, tower, 79, 75], [destiny, tower, 1, 0, 0, tower, 79]);
    TotalSnoc([destiny, tower, 1, 0, 0, tower, 79, 75, 0], [destiny, tower, 1, 0, 0, tower, 79, 75]);
  }

  lemma ReturnTotal(destiny: byte, tower: byte)
    ensures Total([destiny, tower, 1, 0, 0, tower, 82, 0]) == destiny + tower + tower + 83
  {
    hide Total;
    HeaderTotal(destiny, tower);
    TotalSnoc([destiny, tower, 1, 0, 0, tower, 82], [destiny, tower, 1, 0, 0, tower]);
    TotalSnoc([destiny, tower, 1, 0, 0, tower, 82, 0], [destiny, tower, 1, 0, 0, tower, 82]);
  }

  /** The bytes of any frame: six of header, the readings low byte first unless it is text, the payload. */
  lemma FrameLayout(f: Frame, k: nat)
    requires k < |f.payload|
    ensures Encode(f)[..6] == [f.destiny % 256, f.sender % 256, f.isText, f.isInfo, f.keepAlive, f.original % 256]
    ensures f.isText != 0 ==> |Encode(f)| == 8 + |f.payload| && Encode(f)[6 + k] == f.payload[k]
    ensures f.isText == 0 ==> |Encode(f)| == 22 + |f.payload| && Encode(f)[20 + k] == f.payload[k]
  {
    hide Low16;
  }

  /** The readings of a data frame with some at the ends of their ranges; a negative one in two's complement. */
  lemma ReadingBytes()
    ensures SensorBytes(Sensors(-2, 60, 300, 5, 0, 4100, 65535))
         == [0xfe, 0xff, 60, 0, 0x2c, 0x01, 5, 0, 0, 0, 0x04, 0x10, 0xff, 0xff]
  {}

  lemma SumBytes(f: Frame)
    ensures var s := Encode(f);
      |s| >= 8 && s[|s| - 2] == Total(s[..|s| - 2]) % 256 && s[|s| - 1] == Total(s[..|s| - 2]) / 256 % 256
  {
    hide Total;
    var s := Encode(f);
    assert s[..|s| - 2] == Body(f);
    SumDigits(Total(Body(f)));
  }

  lemma SumDigits(n: nat)
    ensures n % 65536 % 256 == n % 256 && n % 65536 / 256 % 256 == n / 256 % 256
  {
    var q := n / 65536;
    assert n == q * 65536 + n % 65536;
    assert n / 256 == q * 256 + n % 65536 / 256;
  }

  /** The payloads that pass for an answer: its text or a part of its front, the empty payload included. */
  lemma AnswersRecognised(payload: seq<byte>)
    ensures Matches(OK_TEXT, payload) <==> payload in {[], [79], [79, 75], [79, 75, 0]}
    ensures Matches(RETURN_TEXT, payload) <==> payload in {[], [82], [82, 0]}
  {
    assert OK_TEXT[..0] == [] && OK_TEXT[..1] == [79] && OK_TEXT[..2] == [79, 75] && OK_TEXT[..3] == OK_TEXT;
    assert RETURN_TEXT[..0] == [] && RETURN_TEXT[..1] == [82] && RETURN_TEXT[..2] == RETURN_TEXT;
    assert Matches(OK_TEXT, payload) ==> payload == OK_TEXT[..|payload|];
    assert Matches(RETURN_TEXT, payload) ==> payload == RETURN_TEXT[..|payload|];
  }

  /** The stale payload buffer, byte by byte. */
  lemma OverlaidAt(buffer: seq<byte>, payload: seq<byte>, k: nat)
    ensures |Overlaid(buffer, payload)| == if |buffer| <= |payload| then |payload| else |buffer|
    ensures k < |payload| ==> Overlaid(buffer, payload)[k] == payload[k]
    ensures |payload| <= k < |buffer| ==> Overlaid(buffer, payload)[k] == buffer[k]
  {}

  // ---------- What a turn does ----------

  /** The tower takes part: neither asleep nor out of time. */
  predicate Acts(t: Tower, global: bool) {
    t.state != Asleep && (global ==> t.state == Receive_Payload)
  }

  /** A frame is sent in the three sending states, and only there. */
  lemma SentExactly(t: Tower, global: bool, elapsed: bool, arrived: Option<Frame>)
    ensures var sent := Turn(t, global, elapsed, arrived).1.sent;
      (sent.Some? <==> Acts(t, global) && t.state in {Send_Payload, Send_Confirm_Primary, Send_Return})
      && (sent.Some? && t.state == Send_Payload ==> sent.value == OnAir(t.actual))
      && (sent.Some? && t.state == Send_Confirm_Primary ==> sent.value.payload == [79, 75, 0])
      && (sent.Some? && t.state == Send_Return ==> sent.value.payload == [82, 0])
      && (sent.Some? && t.state != Send_Payload ==>
        sent.value.destiny == t.actual.destiny % 256 && sent.value.sender == t.number % 256)
  {
    hide ReceivePayload, ReceiveConfirmPrimary, ReceiveReturn, ReceiveReturnConfirm;
  }

  /** A package is consumed by its destination alone, when it confirms it; success is the originator's report. */
  lemma ConsumedExactly(t: Tower, global: bool, elapsed: bool, arrived: Option<Frame>)
    ensures var e := Turn(t, global, elapsed, arrived).1;
      e.consumed == (if Acts(t, global) && t.state == Send_Confirm_Primary && t.actual.destiny == t.number
        then Some(t.actual) else None)
      && (e.success <==> Acts(t, global) && t.state == Receive_Return_Confirm && t.sender)
  {
    hide ReceivePayload, ReceiveConfirmPrimary, ReceiveReturn, ReceiveReturnConfirm;
  }

  /** The global timeout ends a session for every tower that takes part in one, and for no other. */
  lemma OutOfTime(t: Tower, elapsed: bool, arrived: Option<Frame>)
    ensures var (u, e) := Turn(t, true, elapsed, arrived);
      (t.state !in {Receive_Payload, Asleep} ==>
        u.state == Asleep && !u.transmitting && !u.sender && u.actual == t.actual && e == NOTHING)
      && (t.state == Receive_Payload ==> (u, e) == Turn(t, false, elapsed, arrived))
  {
    hide ReceivePayload;
  }

  /** A turn never changes the number or the battery, nor what was heard when nothing arrives. */
  lemma TurnKeeps(t: Tower, global: bool, elapsed: bool, arrived: Option<Frame>)
    ensures var u := Turn(t, global, elapsed, arrived).0;
      u.number == t.number && u.battery == t.battery
      && (t.state != Receive_Payload || arrived.None? ==> u.actual == t.actual)
      && (arrived.None? ==> u.received == t.received)
      && (u.sender ==> t.sender)
      && (u.transmitting && !t.transmitting ==> t.state == Receive_Payload && u.state == Send_Confirm_Primary)
  {}

  /**
   Which package a waiting tower takes: one with information, from the
   neighbour on the other side than its destination, while no session is under way.
   */
  lemma TakenExactly(t: Tower, global: bool, elapsed: bool, f: Frame)
    requires t.state == Receive_Payload
    ensures var u := Turn(t, global, elapsed, Some(f)).0;
      var (s, d) := (f.sender - t.number, f.destiny - t.number);
      if !t.transmitting && f.isInfo != 0 && s * s == 1 && s * d <= 0 && !(t.sender && s > 0)
      then u.state == Send_Confirm_Primary && u.transmitting && u.actual.sender == t.number
        && u.actual.destiny == f.destiny && u.actual.payload == f.payload && u.actual.original == f.original
        && u.actual.isText == f.isText
      else u.state == Receive_Payload && u.transmitting == t.transmitting
  {
    Directions(t, f);
    SquareOne(f.sender - t.number);
  }

  /** The readings of a relayed package: its own, but the battery of the repeater where it has one. */
  lemma RelayedReadings(t: Tower, global: bool, elapsed: bool, f: Frame)
    requires t.state == Receive_Payload && f.isText == 0
    ensures var u := Turn(t, global, elapsed, Some(f)).0;
      u.actual.sensors
      == if u.state == Send_Confirm_Primary && t.battery != 0 then f.sensors.(battery2 := t.battery) else f.sensors
  {}

  /** A tower that hears no answer in time sends again what it sent last. */
  lemma SendsAgain(t: Tower)
    requires t.state == Receive_Confirm_Primary || (t.state == Receive_Return_Confirm && !t.sender)
    ensures var (u, e) := Turn(t, false, true, None);
      e == NOTHING && var (v, again) := Turn(u, false, false, None);
        v == t && again.sent == Some(OnAir(
          if t.state == Receive_Confirm_Primary then t.actual else Answer(RETURN_TEXT, t.actual.destiny, t.number)))
  {}

  /** A tower whose local timeout has not passed waits; one that waits for the return wave waits without it. */
  lemma Waits(t: Tower, elapsed: bool)
    requires t.state in {Receive_Payload, Receive_Return}
      || (!elapsed && t.state in {Receive_Confirm_Primary, Receive_Return_Confirm} && !t.sender)
    ensures Turn(t, false, elapsed, None) == (t, NOTHING)
  {}

  /** What the answer of the neighbour ahead means to a tower that waits for its confirmation. */
  lemma Confirmed(t: Tower, elapsed: bool, f: Frame)
    requires t.state == Receive_Confirm_Primary
    ensures var u := Turn(t, false, elapsed, Some(f)).0;
      var (s, d) := (f.sender - t.number, f.destiny - t.number);
      u.state == (
        if s * s != 1 || s * d <= 0 || (t.sender && s > 0 && d <= 0) then Receive_Confirm_Primary
        else if f.payload in {[], [79], [79, 75], [79, 75, 0]} || t.actual.payload <= u.received then Receive_Return
        else if f.payload in {[82], [82, 0]} then Send_Return
        else Receive_Confirm_Primary)
      && u.received == Overlaid(t.received, f.payload)
  {
    Directions(t, f);
    AnswersRecognised(f.payload);
  }

  /** The return wave: passed on by a tower that waits for it, the end for one that has sent it. */
  lemma ReturnHeard(t: Tower, elapsed: bool, f: Frame)
    requires t.state == Receive_Return || (t.state == Receive_Return_Confirm && !t.sender)
    ensures var u := Turn(t, false, elapsed, Some(f)).0;
      var (s, d) := (f.sender - t.number, f.destiny - t.number);
      var hears := s * s == 1 && f.payload in {[], [82], [82, 0]} && !(t.sender && s > 0 && d <= 0);
      (t.state == Receive_Return ==>
        u.state == if hears && s * d >= 0 then Send_Return else Receive_Return)
      && (t.state == Receive_Return_Confirm ==>
        u.state == (if hears && s * d <= 0 then Asleep else Receive_Return_Confirm)
        && (u.state == Asleep ==> !u.transmitting && !u.sender))
      && u.received == Overlaid(t.received, f.payload)
  {
    Directions(t, f);
    AnswersRecognised(f.payload);
  }
}
