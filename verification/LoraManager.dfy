/**
 The manager of one tower: what one turn of its loop does, outside Bluetooth
 mode (keep-alive off, in the tower and in every frame).
 */
module LoraManager {
  import opened Bytes
  import opened LoraPackage
  import opened Wrappers

  datatype State = Send_Payload | Send_Confirm_Primary | Send_Return | Receive_Payload | Receive_Confirm_Primary
    | Receive_Return | Receive_Return_Confirm | Asleep

  datatype Tower = Tower(number: int, state: State, transmitting: bool, sender: bool, actual: Frame,
                         received: seq<byte>, battery: int)

  /** What the outside sees of a turn: a frame sent, a package consumed, success reported. */
  datatype Effect = Effect(sent: Option<Frame>, consumed: Option<Frame>, success: bool)

  const NOTHING := Effect(None, None, false)

  const OK_TEXT: seq<byte> := [79, 75, 0]
  const RETURN_TEXT: seq<byte> := [82, 0]

  /** A comparison of the text with the payload over the length of the payload. */
  predicate Matches(text: seq<byte>, payload: seq<byte>) {
    payload <= text
  }

  function Answer(text: seq<byte>, destiny: int, tower: int): Frame {
    Frame(destiny, tower, 1, 0, 0, tower, NO_SENSORS, text)
  }

  /** A frame as others receive it. */
  function OnAir(f: Frame): Frame {
    Wire(f, NO_SENSORS)
  }

  /** Unpacking a frame over an older package; a text frame carries no readings. */
  function Unpacked(f: Frame, before: Frame): Frame {
    if f.isText != 0 then f.(sensors := before.sensors) else f
  }

  /** The payload buffer after a frame was unpacked into it: a shorter payload leaves the rest as it was. */
  function Overlaid(buffer: seq<byte>, payload: seq<byte>): seq<byte> {
    payload + (if |payload| <= |buffer| then buffer[|payload|..] else [])
  }

  /** A frame from further away than the originator, on its way back, is not for the originator. */
  predicate PassesBy(t: Tower, f: Frame) {
    t.sender && f.sender > t.number && f.destiny <= t.number
  }

  /** From the neighbour on the side away from the destination. */
  predicate FromBehind(t: Tower, f: Frame) {
    (f.destiny <= t.number && f.sender == t.number + 1) || (f.destiny >= t.number && f.sender == t.number - 1)
  }

  /** From the neighbour on the side of the destination; the destination itself accepts both sides. */
  predicate FromAhead(t: Tower, f: Frame) {
    (f.destiny <= t.number && f.sender == t.number - 1) || (f.destiny >= t.number && f.sender == t.number + 1)
  }

  /** From the neighbour on the side of the destination, which is another tower. */
  predicate FromStrictlyAhead(t: Tower, f: Frame) {
    (f.destiny < t.number && f.sender == t.number - 1) || (f.destiny > t.number && f.sender == t.number + 1)
  }

  function ReceivePayload(t: Tower, f: Frame): Tower {
    var g := Unpacked(f, t.actual);
    if t.transmitting || PassesBy(t, g) || !FromBehind(t, g) || g.isInfo == 0 then t.(actual := g)
    else t.(actual := Relay(g, t.number, t.battery), state := Send_Confirm_Primary, transmitting := true)
  }

  function ReceiveConfirmPrimary(t: Tower, f: Frame): Tower {
    var u := t.(received := Overlaid(t.received, f.payload));
    if PassesBy(t, f) || !FromStrictlyAhead(t, f) then u
    else if t.actual.payload <= u.received || Matches(OK_TEXT, f.payload) then u.(state := Receive_Return)
    else if Matches(RETURN_TEXT, f.payload) then u.(state := Send_Return)
    else u
  }

  function ReceiveReturn(t: Tower, f: Frame): Tower {
    var u := t.(received := Overlaid(t.received, f.payload));
    if !PassesBy(t, f) && FromAhead(t, f) && Matches(RETURN_TEXT, f.payload) then u.(state := Send_Return) else u
  }

  function ReceiveReturnConfirm(t: Tower, f: Frame): Tower {
    var u := t.(received := Overlaid(t.received, f.payload));
    if !PassesBy(t, f) && FromBehind(t, f) && Matches(RETURN_TEXT, f.payload) then Slept(u) else u
  }

  /** Deep sleep: the tower takes no further part. */
  function Slept(t: Tower): Tower {
    t.(state := Asleep, transmitting := false, sender := false)
  }

  /**
   One turn: the global timeout has passed or not, the local one has or not,
   and a frame has arrived or not.
   */
  function Turn(t: Tower, global: bool, elapsed: bool, arrived: Option<Frame>): (Tower, Effect) {
    if t.state == Asleep then (t, NOTHING)
    else if global && t.state != Receive_Payload then (Slept(t), NOTHING)
    else
      match t.state
      case Send_Payload =>
        (t.(state := Receive_Confirm_Primary), NOTHING.(sent := Some(OnAir(t.actual))))
      case Send_Confirm_Primary =>
        var ok := Some(OnAir(Answer(OK_TEXT, t.actual.destiny, t.number)));
        if t.actual.destiny == t.number then (t.(state := Send_Return), Effect(ok, Some(t.actual), false))
        else (t.(state := Send_Payload), NOTHING.(sent := ok))
      case Send_Return =>
        (t.(state := Receive_Return_Confirm),
          NOTHING.(sent := Some(OnAir(Answer(RETURN_TEXT, t.actual.destiny, t.number)))))
      case Receive_Payload =>
        (if arrived.Some? then ReceivePayload(t, arrived.value) else t, NOTHING)
      case Receive_Confirm_Primary =>
        (if arrived.Some? then ReceiveConfirmPrimary(t, arrived.value)
         else if elapsed then t.(state := Send_Payload) else t, NOTHING)
      case Receive_Return =>
        (if arrived.Some? then ReceiveReturn(t, arrived.value) else t, NOTHING)
      case Receive_Return_Confirm =>
        if t.sender then (Slept(t), NOTHING.(success := true))
        else
          (if arrived.Some? then ReceiveReturnConfirm(t, arrived.value)
           else if elapsed then t.(state := Send_Return) else t, NOTHING)
  }

  class LoraManager {
    const number: int
    var state: State
    var transmitting: bool
    var sender: bool
    var actual: Frame
    var received: seq<byte>
    var battery: int
    var outbox: Option<Frame>
    var consumed: Option<Frame>
    var success: bool

    constructor (number: int, package: Frame, received: seq<byte>, battery: int)
      ensures View() == Tower(number, Receive_Payload, false, false, package, received, battery)
      ensures Seen() == NOTHING
    {
      this.number := number;
      state, transmitting, sender := Receive_Payload, false, false;
      actual := package;
      this.received := received;
      this.battery := battery;
      outbox, consumed, success := None, None, false;
    }

    ghost function View(): Tower
      reads this
    {
      Tower(number, state, transmitting, sender, actual, received, battery)
    }

    ghost function Seen(): Effect
      reads this
    {
      Effect(outbox, consumed, success)
    }

    /**
     Starts a session: this tower is the originator.  The source waits until no
     other session is under way; an empty payload, or one of 1000 bytes or
     more, leaves the old package.
     */
    method SendPackage(payload: seq<byte>, destiny: int, txt: byte, readings: Sensors)
      requires !transmitting
      requires 0 < |payload| < SIZE_LIMIT ==> Storable(txt, |payload|)
      modifies this
      ensures View() == old(View()).(state := Send_Payload, transmitting := true, sender := true,
        actual := if 0 < |payload| < SIZE_LIMIT then Frame(destiny, number, txt, 1, 0, number, readings, payload)
          else old(actual))
      ensures Seen() == old(Seen())
    {
      if 0 < |payload| < SIZE_LIMIT {
        actual := Frame(destiny, number, txt, 1, 0, number, readings, payload);
      }
      sender := true;
      transmitting := true;
      state := Send_Payload;
    }

    method Sleep()
      modifies this
      ensures View() == Slept(old(View())) && Seen() == old(Seen())
    {
      transmitting := false;
      sender := false;
      state := Asleep;
    }

    method ReceivePackage(f: Frame)
      modifies this`actual
      ensures actual == Unpacked(f, old(actual))
    {
      actual := if f.isText != 0 then f.(sensors := actual.sensors) else f;
    }

    method DoReceivePayload(f: Frame)
      requires state == Receive_Payload
      modifies this
      ensures View() == ReceivePayload(old(View()), f) && Seen() == old(Seen())
    {
      ReceivePackage(f);
      if transmitting || (sender && actual.sender > number && actual.destiny <= number) {
      } else if (actual.destiny <= number && actual.sender == number + 1)
             || (actual.destiny >= number && actual.sender == number - 1) {
        if actual.isInfo != 0 {
          if actual.isText == 0 && battery != 0 {
            actual := actual.(sensors := actual.sensors.(battery2 := battery));
          }
          state := Send_Confirm_Primary;
          actual := actual.(sender := number);
          transmitting := true;
        }
      }
    }

    method DoReceiveConfirmPrimary(f: Frame)
      requires state == Receive_Confirm_Primary
      modifies this
      ensures View() == ReceiveConfirmPrimary(old(View()), f) && Seen() == old(Seen())
    {
      received := Overlaid(received, f.payload);
      if sender && f.sender > number && f.destiny <= number {
      } else if (f.destiny < number && f.sender == number - 1) || (f.destiny > number && f.sender == number + 1) {
        if actual.payload <= received || Matches(OK_TEXT, f.payload) {
          state := Receive_Return;
        } else if Matches(RETURN_TEXT, f.payload) {
          state := Send_Return;
        }
      }
    }

    method DoReceiveReturn(f: Frame)
      requires state == Receive_Return
      modifies this
      ensures View() == ReceiveReturn(old(View()), f) && Seen() == old(Seen())
    {
      received := Overlaid(received, f.payload);
      if sender && f.sender > number && f.destiny <= number {
      } else if (f.destiny <= number && f.sender == number - 1) || (f.destiny >= number && f.sender == number + 1) {
        if Matches(RETURN_TEXT, f.payload) {
          state := Send_Return;
        }
      }
    }

    method DoReceiveReturnConfirm(f: Frame)
      requires state == Receive_Return_Confirm
      modifies this
      ensures View() == ReceiveReturnConfirm(old(View()), f) && Seen() == old(Seen())
    {
      received := Overlaid(received, f.payload);
      if sender && f.sender > number && f.destiny <= number {
      } else if (f.destiny <= number && f.sender == number + 1) || (f.destiny >= number && f.sender == number - 1) {
        if Matches(RETURN_TEXT, f.payload) {
          Sleep();
        }
      }
    }

    method SendConfirmPrimary()
      requires state == Send_Confirm_Primary
      modifies this
      ensures View() == Turn(old(View()), false, false, None).0
      ensures Seen() == Turn(old(View()), false, false, None).1.(success := old(success),
        consumed := if actual.destiny == number then Some(old(actual)) else old(consumed))
    {
      outbox := Some(OnAir(Answer(OK_TEXT, actual.destiny, number)));
      if actual.destiny == number {
        state := Send_Return;
        consumed := Some(actual);
      } else {
        state := Send_Payload;
      }
    }

    /** One pass of the main loop. */
    method Exec(global: bool, elapsed: bool, arrived: Option<Frame>)
      modifies this
      ensures (View(), Seen()) == Turn(old(View()), global, elapsed, arrived)
    {
      outbox, consumed, success := None, None, false;
      if global && state != Receive_Payload && state != Asleep {
        Sleep();
        return;
      }
      match state
      case Send_Payload =>
        outbox := Some(OnAir(actual));
        state := Receive_Confirm_Primary;
      case Send_Confirm_Primary =>
        SendConfirmPrimary();
      case Send_Return =>
        outbox := Some(OnAir(Answer(RETURN_TEXT, actual.destiny, number)));
        state := Receive_Return_Confirm;
      case Receive_Payload =>
        if arrived.Some? {
          DoReceivePayload(arrived.value);
        }
      case Receive_Confirm_Primary =>
        if arrived.Some? {
          DoReceiveConfirmPrimary(arrived.value);
        } else if elapsed {
          state := Send_Payload;
        }
      case Receive_Return =>
        if arrived.Some? {
          DoReceiveReturn(arrived.value);
        }
      case Receive_Return_Confirm =>
        if sender {
          success := true;
          Sleep();
          return;
        }
        if arrived.Some? {
          DoReceiveReturnConfirm(arrived.value);
        } else if elapsed {
          state := Send_Return;
        }
      case Asleep =>
    }
  }
}
