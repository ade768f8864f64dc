/**
 One session of the tower network: a chain of towers, a package that travels
 from its originator to its destination, and a channel that loses, duplicates
 and delays frames.
 */
module RelaySession {
  import opened LoraPackage
  import opened Wrappers
  import opened LoraManager

  /** The session: towers 0..towers, their battery readings, and the package as the originator fills it in. */
  datatype Config = Config(batteries: seq<nat>, package: Frame) {

    /** Tower numbers travel in one byte, and the frame fits in the buffers. */
    predicate Valid() {
      |batteries| <= 256 && 0 <= Origin() < |batteries| && 0 <= Destination() < |batteries| && Origin() != Destination()
      && package.original == package.sender && package.isInfo != 0 && package.keepAlive == 0 && package.payload != []
      && Storable(package.isText, |package.payload|)
    }

    function Origin(): int {
      package.sender
    }

    function Destination(): int {
      package.destiny
    }

    /** The number of hops. */
    function Distance(): nat {
      if Destination() >= Origin() then Destination() - Origin() else Origin() - Destination()
    }

    /** The tower after i hops. */
    function At(i: int): int {
      if Destination() >= Origin() then Origin() + i else Origin() - i
    }

    function HopOf(k: int): int {
      if Destination() >= Origin() then k - Origin() else Origin() - k
    }

    predicate OnPath(k: int) {
      0 <= HopOf(k) <= Distance()
    }

    /** The package as the tower after i hops sends it. */
    function Data(i: nat): Frame
      requires Valid() && i <= Distance()
    {
      if i == 0 then OnAir(package) else OnAir(Relay(Data(i - 1), At(i), batteries[At(i)]))
    }

    function Ok(i: nat): Frame {
      OnAir(Answer(OK_TEXT, Destination(), At(i)))
    }

    function Return(i: nat): Frame {
      OnAir(Answer(RETURN_TEXT, Destination(), At(i)))
    }

    /** The payload reads like the answer of the return wave. */
    predicate LooksLikeReturn() {
      Matches(RETURN_TEXT, package.payload)
    }
  }

  /** The towers, the frames in the air, and what has happened so far. */
  datatype System = System(towers: seq<Tower>, air: set<Frame>, sent: set<Frame>, accepted: set<int>,
                           consumed: seq<(int, Frame)>, success: bool)

  datatype Action = Step(tower: nat, global: bool, elapsed: bool, arrived: Option<Frame>) | Lose(frame: Frame)

  /** Every tower but the originator waits for a package. */
  predicate Initial(c: Config, s: System)
    requires c.Valid()
  {
    |s.towers| == |c.batteries|
    && (forall k :: 0 <= k < |s.towers| ==> s.towers[k].number == k && s.towers[k].battery == c.batteries[k])
    && (forall k :: 0 <= k < |s.towers| && k != c.Origin() ==>
      s.towers[k].state == Receive_Payload && !s.towers[k].transmitting && !s.towers[k].sender)
    && s.towers[c.Origin()].state == Send_Payload && s.towers[c.Origin()].transmitting && s.towers[c.Origin()].sender
    && s.towers[c.Origin()].actual == c.package
    && s.air == {} && s.sent == {} && s.accepted == {c.Origin()} && s.consumed == [] && !s.success
  }

  predicate Enabled(s: System, a: Action) {
    match a
    case Step(k, _, _, arrived) => k < |s.towers| && (arrived.Some? ==> arrived.value in s.air)
    case Lose(_) => true
  }

  function SetOf(f: Option<Frame>): set<Frame> {
    if f.Some? then {f.value} else {}
  }

  /** A tower takes a turn, hearing nothing or any frame in the air; or a frame is lost. */
  function Next(s: System, a: Action): System
    requires Enabled(s, a)
  {
    match a
    case Step(k, global, elapsed, arrived) =>
      var (t, e) := Turn(s.towers[k], global, elapsed, arrived);
      System(s.towers[k := t], s.air + SetOf(e.sent), s.sent + SetOf(e.sent),
        if s.towers[k].state == Receive_Payload && t.state != Receive_Payload then s.accepted + {k} else s.accepted,
        if e.consumed.Some? then s.consumed + [(k as int, e.consumed.value)] else s.consumed,
        s.success || e.success)
    case Lose(f) => s.(air := s.air - {f})
  }

  ghost predicate Run(s: System, actions: seq<Action>, t: System)
    decreases |actions|
  {
    if actions == [] then s == t
    else Enabled(s, actions[0]) && Run(Next(s, actions[0]), actions[1..], t)
  }

  predicate Untimed(a: Action) {
    a.Step? ==> !a.global
  }

  ghost predicate Reachable(c: Config, t: System)
    requires c.Valid()
  {
    exists s, actions :: Initial(c, s) && Run(s, actions, t)
  }

  /** Reachable without a global timeout. */
  ghost predicate ReachableUntimed(c: Config, t: System)
    requires c.Valid()
  {
    exists s, actions :: Initial(c, s) && Run(s, actions, t) && forall i :: 0 <= i < |actions| ==> Untimed(actions[i])
  }

  // ---------- What a tower can hear ----------

  lemma {:induction false} DataHas(c: Config, i: nat)
    requires c.Valid() && i <= c.Distance()
    ensures var f := c.Data(i);
      f.destiny == c.Destination() && f.sender == c.At(i) && f.isText == c.package.isText
      && f.isInfo == c.package.isInfo && f.keepAlive == 0 && f.original == c.Origin() && f.payload == c.package.payload
  {
    if i > 0 {
      DataHas(c, i - 1);
    }
  }

  /** A frame sent by the tower after j hops, as the tower after i hops judges where it comes from. */
  lemma Hears(c: Config, i: nat, j: nat, t: Tower, f: Frame)
    requires c.Valid() && i <= c.Distance() && j <= c.Distance()
    requires t.number == c.At(i) && (t.sender ==> i == 0) && f.destiny == c.Destination() && f.sender == c.At(j)
    ensures !PassesBy(t, f)
    ensures FromBehind(t, f) <==> i == j + 1
    ensures FromStrictlyAhead(t, f) <==> j == i + 1
    ensures i < c.Distance() ==> (FromAhead(t, f) <==> j == i + 1)
  {}

  /** f is one of the frames of the session, sent by a tower that has accepted the package. */
  predicate Known(c: Config, s: System, f: Frame)
    requires c.Valid()
  {
    c.OnPath(f.sender) && f.sender in s.accepted
    && var j := c.HopOf(f.sender);
    (f == c.Data(j) && j < c.Distance()) || (f == c.Ok(j) && j > 0) || f == c.Return(j)
  }

  lemma KnownHas(c: Config, s: System, f: Frame)
    requires c.Valid() && Known(c, s, f)
    ensures var j := c.HopOf(f.sender);
      0 <= j <= c.Distance() && f.sender == c.At(j) && f.sender in s.accepted && f.destiny == c.Destination()
      && (f.isInfo != 0 ==> f == c.Data(j) && j < c.Distance())
      && (Matches(RETURN_TEXT, f.payload) ==>
        f == c.Return(j) || (f == c.Data(j) && j < c.Distance() && c.LooksLikeReturn()))
      && (f.isInfo != 0 ==> f.payload == c.package.payload)
  {
    DataHas(c, c.HopOf(f.sender));
  }

  // ---------- The invariant ----------

  /** The tower after i hops holds the package. */
  predicate Holds(c: Config, t: Tower, i: nat)
    requires c.Valid() && i <= c.Distance()
  {
    t.state != Receive_Payload && OnAir(t.actual) == c.Data(i)
    && t.actual.destiny == c.Destination() && t.actual.payload == c.package.payload
  }

  /** The tower after i hops, in a session in which some towers have accepted the package and some frames were sent. */
  predicate HopInv(c: Config, t: Tower, i: nat, accepted: set<int>, sent: set<Frame>)
    requires c.Valid() && i <= c.Distance()
  {
    t.number == c.At(i) && t.battery == c.batteries[c.At(i)]
    && (t.sender ==> i == 0) && (i == 0 && t.state != Asleep ==> t.sender)
    && (t.number !in accepted ==> i > 0 && t.state == Receive_Payload && !t.transmitting)
    && (t.number in accepted ==> Holds(c, t, i) && (i > 0 ==> c.At(i - 1) in accepted))
    && (t.state == Send_Payload || t.state == Receive_Confirm_Primary || t.state == Receive_Return ==> i < c.Distance())
    && (t.state == Send_Confirm_Primary ==> i > 0)
    && (t.state == Receive_Return ==> c.At(i + 1) in accepted)
    && (t.state == Receive_Return_Confirm ==> c.Return(i) in sent)
  }

  predicate OffPathInv(c: Config, s: System, k: nat)
    requires c.Valid() && |s.towers| == |c.batteries| && k < |s.towers|
  {
    var t := s.towers[k];
    t.number == k && t.state == Receive_Payload && !t.transmitting && !t.sender && k !in s.accepted
  }

  /** The destination, what was consumed, and whether the destination has answered. */
  predicate ConsumedInv(c: Config, state: State, consumed: seq<(int, Frame)>, answered: bool)
    requires c.Valid()
  {
    (consumed == [] && state != Send_Return && state != Receive_Return_Confirm && !answered)
    || (|consumed| == 1 && consumed[0].0 == c.Destination() && OnAir(consumed[0].1) == c.Data(c.Distance())
        && state != Receive_Payload && state != Send_Confirm_Primary)
  }

  ghost predicate Inv(c: Config, s: System)
    requires c.Valid()
  {
    |s.towers| == |c.batteries|
    && (forall i :: 0 <= i <= c.Distance() ==> HopInv(c, s.towers[c.At(i)], i, s.accepted, s.sent))
    && (forall k :: 0 <= k < |s.towers| && !c.OnPath(k) ==> OffPathInv(c, s, k))
    && (forall k :: k in s.accepted ==> c.OnPath(k))
    && (forall f :: f in s.sent ==> Known(c, s, f)) && s.air <= s.sent
    && ConsumedInv(c, s.towers[c.Destination()].state, s.consumed, c.Return(c.Distance()) in s.sent)
    && (s.success ==> c.Return(0) in s.sent && s.towers[c.Origin()].state == Asleep)
  }

  /** The frame that the tower after i hops accepts becomes the one it sends on. */
  lemma AcceptedData(c: Config, i: nat, before: Frame)
    requires c.Valid() && 0 < i <= c.Distance()
    ensures var g := Relay(Unpacked(c.Data(i - 1), before), c.At(i), c.batteries[c.At(i)]);
      OnAir(g) == c.Data(i) && g.destiny == c.Destination() && g.payload == c.package.payload
  {
    hide Wire16;
    DataHas(c, i - 1);
  }

  /** The invariant of one tower on the path. */
  lemma HopAt(c: Config, s: System, i: nat)
    requires c.Valid() && Inv(c, s) && i <= c.Distance()
    ensures |s.towers| == |c.batteries| && HopInv(c, s.towers[c.At(i)], i, s.accepted, s.sent) && s.air <= s.sent
  {}

  /** What a frame known in the session does to the tower after i hops. */
  lemma HeardFrame(c: Config, s: System, i: nat, f: Frame)
    requires c.Valid() && Inv(c, s) && i <= c.Distance() && f in s.air
    ensures var t, j := s.towers[c.At(i)], c.HopOf(f.sender);
      0 <= j <= c.Distance() && f.sender == c.At(j) && f.sender in s.accepted
      && !PassesBy(t, f) && !PassesBy(t, Unpacked(f, t.actual))
      && (FromBehind(t, f) <==> i == j + 1) && (FromBehind(t, Unpacked(f, t.actual)) <==> i == j + 1)
      && Unpacked(f, t.actual).isInfo == f.isInfo
      && (FromStrictlyAhead(t, f) <==> j == i + 1)
      && (i < c.Distance() ==> (FromAhead(t, f) <==> j == i + 1))
      && (f.isInfo != 0 ==> f == c.Data(j) && j < c.Distance())
      && (Matches(RETURN_TEXT, f.payload) ==>
        f == c.Return(j) || (f == c.Data(j) && j < c.Distance() && c.LooksLikeReturn()))
      && (f.isInfo != 0 ==> f.payload == c.package.payload)
  {
    hide Matches, Config.Data, Config.Return, Config.Ok, OnAir, FromBehind, FromStrictlyAhead, FromAhead, PassesBy;
    KnownHas(c, s, f);
    var t := s.towers[c.At(i)];
    assert HopInv(c, t, i, s.accepted, s.sent);
    Hears(c, i, c.HopOf(f.sender), t, f);
    Hears(c, i, c.HopOf(f.sender), t, Unpacked(f, t.actual));
  }

  /** The towers that have accepted the package after a turn of tower k. */
  function AcceptedAfter(accepted: set<int>, k: int, before: Tower, after: Tower): set<int> {
    if before.state == Receive_Payload && after.state != Receive_Payload then accepted + {k} else accepted
  }

  lemma HearingPayload(c: Config, s: System, i: nat, f: Frame)
    requires c.Valid() && Inv(c, s) && i <= c.Distance() && f in s.air && s.towers[c.At(i)].state == Receive_Payload
    ensures var t := s.towers[c.At(i)];
      var u := ReceivePayload(t, f);
      HopInv(c, u, i, AcceptedAfter(s.accepted, c.At(i), t, u), s.sent)
  {
    hide Inv, Matches, Config.Data, Config.Ok, OnAir, FromBehind, FromStrictlyAhead, FromAhead, PassesBy, Relay,
      Unpacked, Overlaid, Known, ConsumedInv, OffPathInv;
    HopAt(c, s, i);
    var t := s.towers[c.At(i)];
    HeardFrame(c, s, i, f);
    AcceptedData(c, i, t.actual);
  }

  lemma HearingConfirm(c: Config, s: System, i: nat, f: Frame)
    requires c.Valid() && Inv(c, s) && i <= c.Distance() && f in s.air
    requires s.towers[c.At(i)].state == Receive_Confirm_Primary
    ensures HopInv(c, ReceiveConfirmPrimary(s.towers[c.At(i)], f), i, s.accepted, s.sent)
  {
    hide Inv, Matches, Config.Data, Config.Ok, OnAir, FromBehind, FromStrictlyAhead, FromAhead, PassesBy, Relay,
      Unpacked, Overlaid, Known, ConsumedInv, OffPathInv;
    HopAt(c, s, i);
    HeardFrame(c, s, i, f);
  }

  lemma HearingReturn(c: Config, s: System, i: nat, f: Frame)
    requires c.Valid() && Inv(c, s) && i <= c.Distance() && f in s.air
    requires s.towers[c.At(i)].state == Receive_Return || s.towers[c.At(i)].state == Receive_Return_Confirm
    ensures HopInv(c, ReceiveReturn(s.towers[c.At(i)], f), i, s.accepted, s.sent)
    ensures !s.towers[c.At(i)].sender ==> HopInv(c, ReceiveReturnConfirm(s.towers[c.At(i)], f), i, s.accepted, s.sent)
  {
    hide Inv, Matches, Config.Data, Config.Ok, OnAir, FromBehind, FromStrictlyAhead, FromAhead, PassesBy, Relay,
      Unpacked, Overlaid, Known, ConsumedInv, OffPathInv;
    HopAt(c, s, i);
  }

  /** The states in which a tower listens. */
  predicate Listens(t: Tower) {
    t.state == Receive_Payload || t.state == Receive_Confirm_Primary || t.state == Receive_Return
    || (t.state == Receive_Return_Confirm && !t.sender)
  }

  lemma HearingKeepsHop(c: Config, s: System, i: nat, f: Frame)
    requires c.Valid() && Inv(c, s) && i <= c.Distance() && f in s.air && Listens(s.towers[c.At(i)])
    ensures var t := s.towers[c.At(i)];
      var (u, e) := Turn(t, false, false, Some(f));
      e == NOTHING && HopInv(c, u, i, AcceptedAfter(s.accepted, c.At(i), t, u), s.sent)
  {
    hide Config.Data, Config.Ok, Config.Return, OnAir, ReceivePayload, ReceiveConfirmPrimary, ReceiveReturn,
      ReceiveReturnConfirm, Known, ConsumedInv, OffPathInv, HopInv;
    var t := s.towers[c.At(i)];
    if t.state == Receive_Payload {
      HearingPayload(c, s, i, f);
    } else if t.state == Receive_Confirm_Primary {
      HearingConfirm(c, s, i, f);
      StaysListening(t, f);
    } else {
      HearingReturn(c, s, i, f);
      StaysListening(t, f);
    }
  }

  lemma StaysListening(t: Tower, f: Frame)
    requires t.state != Receive_Payload
    ensures ReceiveConfirmPrimary(t, f).state != Receive_Payload
    ensures ReceiveReturn(t, f).state != Receive_Payload && ReceiveReturnConfirm(t, f).state != Receive_Payload
  {}

  lemma SilentKeepsHop(c: Config, t: Tower, i: nat, accepted: set<int>, sent: set<Frame>, global: bool, elapsed: bool)
    requires c.Valid() && i <= c.Distance() && HopInv(c, t, i, accepted, sent)
    ensures var (u, e) := Turn(t, global, elapsed, None);
      HopInv(c, u, i, accepted, sent + SetOf(e.sent)) && (u.state == Receive_Payload <==> t.state == Receive_Payload)
  {
    hide Config.Data, Config.Ok, OnAir;
  }

  lemma TurnKeepsHop(c: Config, s: System, i: nat, global: bool, elapsed: bool, arrived: Option<Frame>)
    requires c.Valid() && Inv(c, s) && i <= c.Distance() && (arrived.Some? ==> arrived.value in s.air)
    ensures var t := s.towers[c.At(i)];
      var (u, e) := Turn(t, global, elapsed, arrived);
      HopInv(c, u, i, AcceptedAfter(s.accepted, c.At(i), t, u), s.sent + SetOf(e.sent))
  {
    hide Config.Data, Config.Ok, Config.Return, OnAir, Known, ConsumedInv, OffPathInv, HopInv, Turn;
    var t := s.towers[c.At(i)];
    if arrived.Some? && Listens(t) && (!global || t.state == Receive_Payload) {
      HearingKeepsHop(c, s, i, arrived.value);
      OnlyHearing(t, global, elapsed, arrived.value);
      assert s.sent + SetOf(NOTHING.sent) == s.sent;
    } else {
      SilentKeepsHop(c, t, i, s.accepted, s.sent, global, elapsed);
      NotHearing(t, global, elapsed, arrived);
    }
  }

  /** A tower that hears a frame looks at no local timeout. */
  lemma OnlyHearing(t: Tower, global: bool, elapsed: bool, f: Frame)
    requires Listens(t) && (!global || t.state == Receive_Payload)
    ensures Turn(t, global, elapsed, Some(f)) == Turn(t, false, false, Some(f))
  {
    hide ReceivePayload, ReceiveConfirmPrimary, ReceiveReturn, ReceiveReturnConfirm;
  }

  lemma NotHearing(t: Tower, global: bool, elapsed: bool, arrived: Option<Frame>)
    requires arrived.None? || !Listens(t) || (global && t.state != Receive_Payload)
    ensures Turn(t, global, elapsed, arrived) == Turn(t, global, elapsed, None)
  {
    hide ReceivePayload, ReceiveConfirmPrimary, ReceiveReturn, ReceiveReturnConfirm;
  }

  /** The ways from state to state. */
  lemma TurnMoves(t: Tower, global: bool, elapsed: bool, arrived: Option<Frame>)
    ensures var u := Turn(t, global, elapsed, arrived).0;
      (u.state == Send_Return ==> t.state != Send_Payload && t.state != Receive_Payload && t.state != Asleep)
      && (u.state == Receive_Return_Confirm ==> t.state == Receive_Return_Confirm || t.state == Send_Return)
      && (u.state == Receive_Payload ==> t.state == Receive_Payload)
      && (u.state == Send_Confirm_Primary ==> t.state == Receive_Payload || t.state == Send_Confirm_Primary)
      && (t.state == Asleep ==> u.state == Asleep)
  {
    hide FromBehind, FromStrictlyAhead, FromAhead, PassesBy, Relay, Unpacked, Overlaid, Matches, OnAir;
  }

  /** What a tower on the path sends and consumes. */
  lemma TurnEffect(c: Config, s: System, i: nat, global: bool, elapsed: bool, arrived: Option<Frame>)
    requires c.Valid() && Inv(c, s) && i <= c.Distance()
    ensures var t := s.towers[c.At(i)];
      var (u, e) := Turn(t, global, elapsed, arrived);
      (e.sent == None
       || (e.sent == Some(c.Data(i)) && t.state == Send_Payload && i < c.Distance())
       || (e.sent == Some(c.Ok(i)) && t.state == Send_Confirm_Primary && i > 0)
       || (e.sent == Some(c.Return(i)) && t.state == Send_Return && u.state == Receive_Return_Confirm))
      && (e.sent != None ==> t.number in s.accepted)
      && (e.consumed != None <==> t.state == Send_Confirm_Primary && u.state == Send_Return)
      && (e.consumed != None ==> e.consumed == Some(t.actual) && i == c.Distance())
      && (e.success ==> i == 0 && t.state == Receive_Return_Confirm && u.state == Asleep)
  {
    hide Inv, Matches, Config.Data, OnAir, FromBehind, FromStrictlyAhead, FromAhead, PassesBy, Relay,
      Unpacked, Overlaid, Known, ConsumedInv, OffPathInv, ReceivePayload, ReceiveConfirmPrimary, ReceiveReturn,
      ReceiveReturnConfirm;
    HopAt(c, s, i);
    var t := s.towers[c.At(i)];
  }

  /** A tower off the path takes no part. */
  lemma OffPathTurn(c: Config, s: System, k: nat, global: bool, elapsed: bool, arrived: Option<Frame>)
    requires c.Valid() && Inv(c, s) && k < |s.towers| && !c.OnPath(k) && (arrived.Some? ==> arrived.value in s.air)
    ensures var (u, e) := Turn(s.towers[k], global, elapsed, arrived);
      e == NOTHING && u.number == k && u.state == Receive_Payload && !u.transmitting && !u.sender
  {
    hide Config.Data, Config.Ok, OnAir, Relay, Known, ConsumedInv;
    assert OffPathInv(c, s, k);
    if arrived.Some? {
      KnownHas(c, s, arrived.value);
    }
  }

  /** A tower that does not take the turn. */
  lemma OtherHop(c: Config, t: Tower, j: nat, accepted: set<int>, sent: set<Frame>, k: int, more: set<int>,
                 f: set<Frame>)
    requires c.Valid() && j <= c.Distance() && HopInv(c, t, j, accepted, sent)
    requires k != c.At(j) && (more == accepted || more == accepted + {k})
    ensures HopInv(c, t, j, more, sent + f)
  {
    hide Config.Data, Config.Return, Holds;
  }

  lemma ConsumedStep(c: Config, s: System, i: nat, global: bool, elapsed: bool, arrived: Option<Frame>)
    requires c.Valid() && Inv(c, s) && i <= c.Distance() && (arrived.Some? ==> arrived.value in s.air)
    ensures var s' := Next(s, Step(c.At(i), global, elapsed, arrived));
      ConsumedInv(c, s'.towers[c.Destination()].state, s'.consumed, c.Return(c.Distance()) in s'.sent)
  {
    hide Config.Data, Config.Ok, Config.Return, Turn, OnAir, Known, OffPathInv, ConsumedInv;
    var (u, e) := Turn(s.towers[c.At(i)], global, elapsed, arrived);
    TurnEffect(c, s, i, global, elapsed, arrived);
    TurnMoves(s.towers[c.At(i)], global, elapsed, arrived);
    AnswersDiffer(c, i, c.Distance());
    if i == c.Distance() {
      ConsumedAtDestination(c, s, global, elapsed, arrived);
    }
  }

  lemma ConsumedAtDestination(c: Config, s: System, global: bool, elapsed: bool, arrived: Option<Frame>)
    requires c.Valid() && Inv(c, s)
    ensures var t := s.towers[c.Destination()];
      var (u, e) := Turn(t, global, elapsed, arrived);
      ConsumedInv(c, u.state,
        if e.consumed.Some? then s.consumed + [(c.Destination(), e.consumed.value)] else s.consumed,
        c.Return(c.Distance()) in s.sent || e.sent == Some(c.Return(c.Distance())))
  {
    hide Config.Data, Config.Ok, Config.Return, Turn, OnAir, Known, OffPathInv;
    var n := c.Distance();
    assert c.At(n) == c.Destination();
    TurnEffect(c, s, n, global, elapsed, arrived);
    TurnMoves(s.towers[c.At(n)], global, elapsed, arrived);
    AnswersDiffer(c, n, n);
    assert HopInv(c, s.towers[c.At(n)], n, s.accepted, s.sent);
  }

  /** An R frame is no DATA or OK frame, and tells who sent it. */
  lemma AnswersDiffer(c: Config, i: nat, j: nat)
    requires c.Valid() && i <= c.Distance() && j <= c.Distance()
    ensures c.Return(j) != c.Data(i) && c.Return(j) != c.Ok(i)
    ensures c.Return(j) == c.Return(i) <==> i == j
  {
    hide Config.Data, Config.Ok, Config.Return;
    DataHas(c, i);
    AnswerHas(c, i);
    AnswerHas(c, j);
    AnswersTell(c, i);
    AnswersTell(c, j);
  }

  lemma AnswersTell(c: Config, i: nat)
    requires c.Valid() && i <= c.Distance()
    ensures c.Ok(i).isInfo == 0 && c.Return(i).isInfo == 0 && c.Ok(i).payload == OK_TEXT
      && c.Return(i).payload == RETURN_TEXT
  {}

  lemma OnPathStep(c: Config, s: System, i: nat, global: bool, elapsed: bool, arrived: Option<Frame>)
    requires c.Valid() && Inv(c, s) && i <= c.Distance() && (arrived.Some? ==> arrived.value in s.air)
    ensures Inv(c, Next(s, Step(c.At(i), global, elapsed, arrived)))
  {
    hide Config.Data, Config.Ok, Config.Return, Turn, OnAir, Known, HopInv, ConsumedInv, OffPathInv;
    var k := c.At(i);
    var s' := Next(s, Step(k, global, elapsed, arrived));
    var (u, e) := Turn(s.towers[k], global, elapsed, arrived);
    TurnKeepsHop(c, s, i, global, elapsed, arrived);
    ConsumedStep(c, s, i, global, elapsed, arrived);
    forall j: nat | j <= c.Distance()
      ensures HopInv(c, s'.towers[c.At(j)], j, s'.accepted, s'.sent)
    {
      if j != i {
        OtherHop(c, s.towers[c.At(j)], j, s.accepted, s.sent, k, s'.accepted, SetOf(e.sent));
      }
    }
    forall q: nat | q < |s.towers| && !c.OnPath(q)
      ensures OffPathInv(c, s', q)
    {
      OffPathKept(c, s, s', q, k);
    }
    SentStep(c, s, i, global, elapsed, arrived);
  }

  lemma OffPathKept(c: Config, s: System, s': System, q: nat, k: int)
    requires c.Valid() && |s.towers| == |s'.towers| == |c.batteries| && q < |s.towers| && OffPathInv(c, s, q)
    requires s'.towers[q] == s.towers[q] && q != k && (s'.accepted == s.accepted || s'.accepted == s.accepted + {k})
    ensures OffPathInv(c, s', q)
  {}

  lemma SentStep(c: Config, s: System, i: nat, global: bool, elapsed: bool, arrived: Option<Frame>)
    requires c.Valid() && Inv(c, s) && i <= c.Distance() && (arrived.Some? ==> arrived.value in s.air)
    ensures var s' := Next(s, Step(c.At(i), global, elapsed, arrived));
      (forall f :: f in s'.sent ==> Known(c, s', f)) && s'.air <= s'.sent
      && (s'.success ==> c.Return(0) in s'.sent && s'.towers[c.Origin()].state == Asleep)
  {
    hide Config.Data, Config.Ok, Config.Return, Turn, OnAir, ConsumedInv, OffPathInv, Known;
    var s' := Next(s, Step(c.At(i), global, elapsed, arrived));
    TurnEffect(c, s, i, global, elapsed, arrived);
    TurnMoves(s.towers[c.At(i)], global, elapsed, arrived);
    assert HopInv(c, s.towers[c.At(i)], i, s.accepted, s.sent);
    forall f | f in s'.sent
      ensures Known(c, s', f)
    {
      if f in s.sent {
        KnownKept(c, s, s', f);
      } else {
        OwnFrameKnown(c, s', i, f);
      }
    }
  }

  lemma OwnFrameKnown(c: Config, s: System, i: nat, f: Frame)
    requires c.Valid() && i <= c.Distance() && c.At(i) in s.accepted
    requires (f == c.Data(i) && i < c.Distance()) || (f == c.Ok(i) && i > 0) || f == c.Return(i)
    ensures Known(c, s, f)
  {
    hide Config.Data;
    DataHas(c, i);
    AnswerHas(c, i);
  }

  lemma AnswerHas(c: Config, i: nat)
    requires c.Valid() && i <= c.Distance()
    ensures c.Ok(i).sender == c.At(i) && c.Return(i).sender == c.At(i)
    ensures c.Ok(i).destiny == c.Destination() && c.Return(i).destiny == c.Destination()
    ensures Matches(OK_TEXT, c.Ok(i).payload) && Matches(RETURN_TEXT, c.Return(i).payload)
  {}

  lemma OffPathStep(c: Config, s: System, k: nat, global: bool, elapsed: bool, arrived: Option<Frame>)
    requires c.Valid() && Inv(c, s) && k < |s.towers| && !c.OnPath(k) && (arrived.Some? ==> arrived.value in s.air)
    ensures Inv(c, Next(s, Step(k, global, elapsed, arrived)))
    ensures var s' := Next(s, Step(k, global, elapsed, arrived));
      s' == s.(towers := s'.towers) && forall i :: 0 <= i <= c.Distance() ==> s'.towers[c.At(i)] == s.towers[c.At(i)]
  {
    hide Config.Data, Config.Ok, Config.Return, Turn, OnAir, HopInv, Known;
    var s' := Next(s, Step(k, global, elapsed, arrived));
    OffPathTurn(c, s, k, global, elapsed, arrived);
    assert OffPathInv(c, s, k);
    assert c.Destination() == c.At(c.Distance());
    assert s'.sent == s.sent && s'.air == s.air;
    forall f | f in s'.sent
      ensures Known(c, s', f)
    {
      KnownKept(c, s, s', f);
    }
  }

  lemma KnownKept(c: Config, s: System, s': System, f: Frame)
    requires c.Valid() && Known(c, s, f) && s.accepted <= s'.accepted
    ensures Known(c, s', f)
  {}

  lemma InvStep(c: Config, s: System, a: Action)
    requires c.Valid() && Inv(c, s) && Enabled(s, a)
    ensures Inv(c, Next(s, a))
  {
    hide Config.Data, Config.Ok, Config.Return, Turn, OnAir, Known, HopInv, OffPathInv;
    match a
    case Step(k, global, elapsed, arrived) =>
      if c.OnPath(k) {
        OnPathStep(c, s, c.HopOf(k), global, elapsed, arrived);
      } else {
        OffPathStep(c, s, k, global, elapsed, arrived);
      }
    case Lose(f) =>
      var s' := Next(s, a);
      forall g | g in s'.sent
        ensures Known(c, s', g)
      {
        KnownKept(c, s, s', g);
      }
      forall q: nat | q < |s.towers| && !c.OnPath(q)
        ensures OffPathInv(c, s', q)
      {
        OffPathKept(c, s, s', q, -1);
      }
  }

  lemma InvInitially(c: Config, s: System)
    requires c.Valid() && Initial(c, s)
    ensures Inv(c, s)
  {
    hide OnAir;
    assert c.HopOf(c.Origin()) == 0 && c.At(0) == c.Origin();
    forall i: nat | i <= c.Distance()
      ensures HopInv(c, s.towers[c.At(i)], i, s.accepted, s.sent)
    {
    }
  }

  // ---------- The return wave ----------

  /** DATA on its way is never taken for the return wave. */
  predicate Sound(c: Config) {
    c.LooksLikeReturn() ==> c.Distance() < 2
  }

  /** The tower after i hops answers only what the tower after it has answered. */
  predicate ReturnHop(c: Config, s: System, i: nat)
    requires c.Valid() && |s.towers| == |c.batteries| && i <= c.Distance()
  {
    c.Return(i) in s.sent || s.towers[c.At(i)].state == Send_Return ==> i == c.Distance() || c.Return(i + 1) in s.sent
  }

  ghost predicate ReturnInv(c: Config, s: System)
    requires c.Valid()
  {
    |s.towers| == |c.batteries| && forall i :: 0 <= i <= c.Distance() ==> ReturnHop(c, s, i)
  }

  /** DATA that comes back is recognised as an echo. */
  lemma EchoIsNoAnswer(t: Tower, f: Frame)
    requires t.actual.payload == f.payload
    ensures t.actual.payload <= Overlaid(t.received, f.payload)
  {}

  lemma AnswersConfirm(c: Config, s: System, i: nat, f: Frame)
    requires c.Valid() && Inv(c, s) && i <= c.Distance() && f in s.air
    requires s.towers[c.At(i)].state == Receive_Confirm_Primary
    ensures ReceiveConfirmPrimary(s.towers[c.At(i)], f).state == Send_Return ==> c.Return(i + 1) in s.sent
  {
    hide Inv, Config.Data, Config.Ok, Config.Return, OnAir, FromBehind, FromStrictlyAhead, FromAhead, PassesBy, Relay,
      Unpacked, Known, ConsumedInv, OffPathInv, Matches, Overlaid;
    HopAt(c, s, i);
    var t := s.towers[c.At(i)];
    HeardFrame(c, s, i, f);
    DataHas(c, c.HopOf(f.sender));
    if f == c.Data(c.HopOf(f.sender)) {
      EchoIsNoAnswer(t, f);
    }
  }

  lemma AnswersReturn(c: Config, s: System, i: nat, f: Frame)
    requires c.Valid() && Inv(c, s) && i <= c.Distance() && f in s.air && Sound(c)
    requires s.towers[c.At(i)].state == Receive_Return
    ensures ReceiveReturn(s.towers[c.At(i)], f).state == Send_Return ==> c.Return(i + 1) in s.sent
  {
    hide Inv, Config.Data, Config.Ok, Config.Return, OnAir, FromBehind, FromStrictlyAhead, FromAhead, PassesBy, Relay,
      Unpacked, Known, ConsumedInv, OffPathInv, Matches, Overlaid;
    HopAt(c, s, i);
    HeardFrame(c, s, i, f);
  }

  /** A tower that starts to answer has heard the answer of the tower after it. */
  lemma StartsToAnswer(c: Config, s: System, i: nat, global: bool, elapsed: bool, arrived: Option<Frame>)
    requires c.Valid() && Inv(c, s) && i < c.Distance() && (arrived.Some? ==> arrived.value in s.air)
    requires Sound(c)
    ensures var t := s.towers[c.At(i)];
      Turn(t, global, elapsed, arrived).0.state == Send_Return && t.state != Send_Return
      && t.state != Receive_Return_Confirm
      ==> c.Return(i + 1) in s.sent
  {
    hide Inv, Config.Data, Config.Ok, Config.Return, OnAir, Known, ConsumedInv, OffPathInv, ReceiveConfirmPrimary,
      ReceiveReturn;
    HopAt(c, s, i);
    var t := s.towers[c.At(i)];
    if arrived.Some? {
      if t.state == Receive_Confirm_Primary {
        AnswersConfirm(c, s, i, arrived.value);
      } else if t.state == Receive_Return {
        AnswersReturn(c, s, i, arrived.value);
      }
    }
  }

  lemma ReturnStep(c: Config, s: System, a: Action)
    requires c.Valid() && Inv(c, s) && ReturnInv(c, s) && Sound(c) && Enabled(s, a)
    ensures ReturnInv(c, Next(s, a))
  {
    hide Config.Data, Config.Ok, Config.Return, Turn, OnAir, Known, ConsumedInv, OffPathInv, HopInv;
    if a.Step? && c.OnPath(a.tower) {
      forall j: nat | j <= c.Distance()
        ensures ReturnHop(c, Next(s, a), j)
      {
        ReturnStepAt(c, s, c.HopOf(a.tower), a.global, a.elapsed, a.arrived, j);
      }
    } else {
      if a.Step? {
        OffPathStep(c, s, a.tower, a.global, a.elapsed, a.arrived);
      }
      forall j: nat | j <= c.Distance()
        ensures ReturnHop(c, Next(s, a), j)
      {
        assert ReturnHop(c, s, j);
      }
    }
  }

  lemma ReturnStepAt(c: Config, s: System, i: nat, global: bool, elapsed: bool, arrived: Option<Frame>, j: nat)
    requires c.Valid() && Inv(c, s) && ReturnInv(c, s) && Sound(c) && (arrived.Some? ==> arrived.value in s.air)
    requires i <= c.Distance() && j <= c.Distance()
    ensures ReturnHop(c, Next(s, Step(c.At(i), global, elapsed, arrived)), j)
  {
    hide Inv, Config.Data, Config.Ok, Config.Return, Turn, OnAir, Known, ConsumedInv, OffPathInv;
    HopAt(c, s, i);
    var s' := Next(s, Step(c.At(i), global, elapsed, arrived));
    var t := s.towers[c.At(i)];
    assert ReturnHop(c, s, j);
    TurnEffect(c, s, i, global, elapsed, arrived);
    TurnMoves(s.towers[c.At(i)], global, elapsed, arrived);
    AnswersDiffer(c, i, j);
    if i == j && i < c.Distance() {
      StartsToAnswer(c, s, i, global, elapsed, arrived);
    }
  }

  // ---------- Safety over whole runs ----------

  lemma {:induction false} RunKeepsInv(c: Config, s: System, actions: seq<Action>, t: System)
    requires c.Valid() && Inv(c, s) && Run(s, actions, t)
    ensures Inv(c, t)
    ensures Sound(c) && ReturnInv(c, s) ==> ReturnInv(c, t)
    decreases |actions|
  {
    hide Inv, ReturnInv, Next, Enabled, Sound;
    if actions != [] {
      InvStep(c, s, actions[0]);
      if Sound(c) && ReturnInv(c, s) {
        ReturnStep(c, s, actions[0]);
      }
      RunKeepsInv(c, Next(s, actions[0]), actions[1..], t);
    }
  }

  lemma ReachableHas(c: Config, t: System)
    requires c.Valid() && Reachable(c, t)
    ensures Inv(c, t) && (Sound(c) ==> ReturnInv(c, t))
  {
    hide Inv, Run, Sound;
    var s, actions :| Initial(c, s) && Run(s, actions, t);
    InvInitially(c, s);
    RunKeepsInv(c, s, actions, t);
  }

  /** The package as it left the last of the first i relays. */
  function Hops(c: Config, i: nat): seq<Hop>
    requires c.Valid() && i <= c.Distance()
  {
    if i == 0 then [] else Hops(c, i - 1) + [Hop(c.At(i), c.batteries[c.At(i)])]
  }

  lemma {:induction false} LastBatteryOfMore(first: int, hops: seq<Hop>, h: Hop)
    ensures LastBattery(first, hops + [h]) == if h.battery != 0 then h.battery else LastBattery(first, hops)
    decreases |hops|
  {
    if hops != [] {
      assert (hops + [h])[1..] == hops[1..] + [h];
      LastBatteryOfMore(if hops[0].battery != 0 then hops[0].battery else first, hops[1..], h);
    }
  }

  lemma RelayAddsHop(f: Frame, hops: seq<Hop>, h: Hop)
    ensures Relay(AfterHops(f, hops), h.tower, h.battery) == AfterHops(f, hops + [h])
  {
    hide LastBattery;
    LastBatteryOfMore(f.sensors.battery2, hops, h);
  }

  lemma NoHops(f: Frame)
    ensures AfterHops(f, []) == f
  {}

  lemma RelayOnAir(f: Frame, tower: int, battery: int)
    ensures OnAir(Relay(OnAir(f), tower, battery)) == OnAir(Relay(f, tower, battery))
  {}

  lemma {:induction false} DataIsAfterHops(c: Config, i: nat)
    requires c.Valid() && i <= c.Distance()
    ensures c.Data(i) == OnAir(AfterHops(c.package, Hops(c, i)))
  {
    hide OnAir, Relay, LastBattery, AfterHops;
    NoHops(c.package);
    if i > 0 {
      DataIsAfterHops(c, i - 1);
      RelayOnAir(AfterHops(c.package, Hops(c, i - 1)), c.At(i), c.batteries[c.At(i)]);
      RelayAddsHop(c.package, Hops(c, i - 1), Hop(c.At(i), c.batteries[c.At(i)]));
    }
  }

  /**
   In every run the destination, and no other tower, consumes at most one
   package: the one sent, as the relays on the path passed it on.
   */
  lemma ConsumedAtMostOnce(c: Config, s: System)
    requires c.Valid() && Reachable(c, s)
    ensures |s.consumed| <= 1
    ensures s.consumed != [] ==>
      var (k, f) := s.consumed[0];
      k == c.Destination() && OnAir(f) == OnAir(AfterHops(c.package, Hops(c, c.Distance())))
      && f.payload == c.package.payload && f.original % 256 == c.Origin()
  {
    hide Run, HopInv, OffPathInv, Known;
    ReachableHas(c, s);
    DataIsAfterHops(c, c.Distance());
    DataHas(c, c.Distance());
  }

  lemma KnownFrame(c: Config, s: System, f: Frame)
    requires c.Valid() && Inv(c, s) && f in s.sent
    ensures Storable(f.isText, |f.payload|) && exists g :: f == OnAir(g)
  {
    hide HopInv, OffPathInv, OnAir, ConsumedInv;
    assert Known(c, s, f);
    var i := c.HopOf(f.sender);
    DataHas(c, i);
    AnswersAreShort(c, i);
    if f == c.Data(i) && i > 0 {
      assert f == OnAir(Relay(c.Data(i - 1), c.At(i), c.batteries[c.At(i)]));
    }
  }

  lemma AnswersAreShort(c: Config, i: nat)
    requires c.Valid() && i <= c.Distance()
    ensures |c.Ok(i).payload| <= 3 && |c.Return(i).payload| <= 3 && c.Ok(i).isText == c.Return(i).isText == 1
  {}

  lemma OnAirStays(g: Frame, before: Sensors)
    ensures Wire(OnAir(g), before) == Unpacked(OnAir(g), OnAir(g).(sensors := before))
  {}

  /** In every run each frame sent fits in the buffers, and its bytes say what was sent. */
  lemma FramesTravelAsBytes(c: Config, s: System, f: Frame, before: Sensors)
    requires c.Valid() && Reachable(c, s) && f in s.sent
    ensures Storable(f.isText, |f.payload|)
    ensures WellSized(Encode(f)) && SumHolds(Encode(f))
      && Decode(Encode(f), before) == Unpacked(f, f.(sensors := before))
  {
    hide Inv, OnAir, Wire, Encode, Decode, SumHolds, Reachable;
    ReachableHas(c, s);
    KnownFrame(c, s, f);
    FrameReadsBack(f, before);
    var g :| f == OnAir(g);
    OnAirStays(g, before);
  }

  /** The towers that accepted the package are a contiguous run from the originator. */
  lemma {:induction false} AcceptedRun(c: Config, s: System, i: nat, j: nat)
    requires c.Valid() && Reachable(c, s) && i <= j <= c.Distance() && c.At(j) in s.accepted
    ensures c.At(i) in s.accepted
    decreases j - i
  {
    hide Reachable, Known, ConsumedInv, OffPathInv, Holds, Config.Data, Config.Return;
    ReachableHas(c, s);
    if i < j {
      assert HopInv(c, s.towers[c.At(j)], j, s.accepted, s.sent);
      AcceptedRun(c, s, i, j - 1);
    }
  }

  /** The towers that answered are a contiguous run to the destination. */
  ghost predicate AnswersContiguous(c: Config, s: System)
    requires c.Valid()
  {
    forall i, j :: 0 <= i <= j <= c.Distance() && c.Return(i) in s.sent ==> c.Return(j) in s.sent
  }

  lemma {:induction false} AnsweredRun(c: Config, s: System, i: nat, j: nat)
    requires c.Valid() && ReturnInv(c, s) && i <= j <= c.Distance() && c.Return(i) in s.sent
    ensures c.Return(j) in s.sent
    decreases j - i
  {
    hide Config.Return;
    if i < j {
      assert ReturnHop(c, s, i);
      AnsweredRun(c, s, i + 1, j);
    }
  }

  /** What a reported success means. */
  predicate SuccessIsTrue(s: System) {
    s.success ==> s.consumed != []
  }

  lemma SoundIsSafe(c: Config, s: System)
    requires c.Valid() && Sound(c) && Reachable(c, s)
    ensures SuccessIsTrue(s) && AnswersContiguous(c, s)
  {
    hide Reachable, HopInv, Known, OffPathInv, Sound, Config.Return;
    ReachableHas(c, s);
    forall i, j | 0 <= i <= j <= c.Distance() && c.Return(i) in s.sent
      ensures c.Return(j) in s.sent
    {
      AnsweredRun(c, s, i, j);
    }
  }

  // ---------- Runs step by step ----------

  /** Some run without a global timeout leads from s to t. */
  ghost predicate Leads(s: System, t: System) {
    exists actions :: Run(s, actions, t) && forall i :: 0 <= i < |actions| ==> Untimed(actions[i])
  }

  lemma {:induction false} RunConcat(s: System, a: seq<Action>, t: System, b: seq<Action>, u: System)
    requires Run(s, a, t) && Run(t, b, u)
    ensures Run(s, a + b, u)
    decreases |a|
  {
    hide Next, Enabled;
    if a == [] {
      assert a + b == b;
    } else {
      assert (a + b)[1..] == a[1..] + b;
      RunConcat(Next(s, a[0]), a[1..], t, b, u);
    }
  }

  lemma LeadsOn(s: System, t: System, u: System)
    requires Leads(s, t) && Leads(t, u)
    ensures Leads(s, u)
  {
    hide Run;
    var a :| Run(s, a, t) && forall i :: 0 <= i < |a| ==> Untimed(a[i]);
    var b :| Run(t, b, u) && forall i :: 0 <= i < |b| ==> Untimed(b[i]);
    RunConcat(s, a, t, b, u);
  }

  lemma LeadsNowhere(s: System)
    ensures Leads(s, s)
  {
    assert Run(s, [], s);
  }

  lemma LeadsByOne(s: System, a: Action)
    requires Enabled(s, a) && Untimed(a)
    ensures Leads(s, Next(s, a))
  {
    hide Next, Enabled;
    assert [a][1..] == [];
    assert Run(Next(s, a), [], Next(s, a));
    assert Run(s, [a], Next(s, a));
  }

  lemma ReachableOn(c: Config, s: System, t: System)
    requires c.Valid() && ReachableUntimed(c, s) && Leads(s, t)
    ensures ReachableUntimed(c, t)
  {
    hide Run, Initial;
    var s0, a :| Initial(c, s0) && Run(s0, a, s) && forall i :: 0 <= i < |a| ==> Untimed(a[i]);
    var b :| Run(s, b, t) && forall i :: 0 <= i < |b| ==> Untimed(b[i]);
    RunConcat(s0, a, s, b, t);
  }

  /** The system after a turn of the tower after i hops. */
  function TurnOf(c: Config, s: System, i: nat, elapsed: bool, arrived: Option<Frame>): System
    requires c.Valid() && |s.towers| == |c.batteries| && i <= c.Distance() && (arrived.Some? ==> arrived.value in s.air)
  {
    Next(s, Step(c.At(i), false, elapsed, arrived))
  }

  /** t is s after a turn of the tower after i hops. */
  ghost predicate Turned(c: Config, s: System, t: System, i: nat)
    requires c.Valid() && |s.towers| == |c.batteries| && i <= c.Distance()
  {
    |t.towers| == |c.batteries| && Inv(c, t) && Leads(s, t)
    && s.accepted <= t.accepted && s.sent <= t.sent && s.air <= t.air && (s.success ==> t.success)
    && forall j :: 0 <= j <= c.Distance() && j != i ==> t.towers[c.At(j)] == s.towers[c.At(j)]
  }

  lemma TurnLeads(c: Config, s: System, i: nat, elapsed: bool, arrived: Option<Frame>)
    requires c.Valid() && Inv(c, s) && i <= c.Distance() && (arrived.Some? ==> arrived.value in s.air)
    ensures Turned(c, s, TurnOf(c, s, i, elapsed, arrived), i)
  {
    hide HopInv, OffPathInv, Known, ConsumedInv, Turn;
    InvStep(c, s, Step(c.At(i), false, elapsed, arrived));
    LeadsByOne(s, Step(c.At(i), false, elapsed, arrived));
  }

  /** A tower about to send the package sends it. */
  lemma SendsData(c: Config, s: System, i: nat) returns (t: System)
    requires c.Valid() && Inv(c, s) && i <= c.Distance() && s.towers[c.At(i)].state == Send_Payload
    ensures Turned(c, s, t, i) && t.towers[c.At(i)] == s.towers[c.At(i)].(state := Receive_Confirm_Primary)
    ensures c.Data(i) in t.air && t.accepted == s.accepted && t.consumed == s.consumed
  {
    hide OnAir, Config.Data, OffPathInv, Known, ConsumedInv;
    assert HopInv(c, s.towers[c.At(i)], i, s.accepted, s.sent);
    t := TurnOf(c, s, i, false, None);
    TurnLeads(c, s, i, false, None);
  }

  lemma AcceptingTurn(c: Config, s: System, i: nat)
    requires c.Valid() && Inv(c, s) && 0 < i <= c.Distance() && c.At(i) !in s.accepted && c.Data(i - 1) in s.air
    ensures var t := s.towers[c.At(i)];
      var (u, e) := Turn(t, false, false, Some(c.Data(i - 1)));
      t.state == Receive_Payload && u.state == Send_Confirm_Primary && e == NOTHING
  {
    hide Inv, Config.Data, Config.Return, Config.Ok, OnAir, OffPathInv, Known, ConsumedInv, FromBehind,
      FromStrictlyAhead, FromAhead, PassesBy, Overlaid, Matches, Relay, Unpacked, Holds;
    HopAt(c, s, i);
    var t := s.towers[c.At(i)];
    HeardFrame(c, s, i, c.Data(i - 1));
    DataHas(c, i - 1);
  }

  /** A tower that waits for the package accepts it from the tower before. */
  lemma Accepts(c: Config, s: System, i: nat) returns (t: System)
    requires c.Valid() && Inv(c, s) && 0 < i <= c.Distance() && c.At(i) !in s.accepted && c.Data(i - 1) in s.air
    ensures Turned(c, s, t, i) && t.towers[c.At(i)].state == Send_Confirm_Primary
    ensures t.accepted == s.accepted + {c.At(i)} && t.sent == s.sent && t.consumed == s.consumed
  {
    hide Config.Data, Turn, HopInv, OffPathInv, Known, ConsumedInv, Leads;
    var f := c.Data(i - 1);
    AcceptingTurn(c, s, i);
    t := TurnOf(c, s, i, false, Some(f));
    TurnLeads(c, s, i, false, Some(f));
  }

  /** A tower that has accepted the package confirms; the destination consumes it and turns to answering. */
  lemma Confirms(c: Config, s: System, i: nat) returns (t: System)
    requires c.Valid() && Inv(c, s) && i <= c.Distance() && s.towers[c.At(i)].state == Send_Confirm_Primary
    ensures Turned(c, s, t, i)
    ensures t.towers[c.At(i)]
         == s.towers[c.At(i)].(state := if i == c.Distance() then Send_Return else Send_Payload)
    ensures c.Ok(i) in t.air && t.accepted == s.accepted && (i < c.Distance() ==> t.consumed == s.consumed)
  {
    hide OnAir, Config.Data, OffPathInv, Known, ConsumedInv;
    assert HopInv(c, s.towers[c.At(i)], i, s.accepted, s.sent);
    t := TurnOf(c, s, i, false, None);
    TurnLeads(c, s, i, false, None);
  }

  /** A tower about to answer answers. */
  lemma Answers(c: Config, s: System, i: nat) returns (t: System)
    requires c.Valid() && Inv(c, s) && i <= c.Distance() && s.towers[c.At(i)].state == Send_Return
    ensures Turned(c, s, t, i) && t.towers[c.At(i)] == s.towers[c.At(i)].(state := Receive_Return_Confirm)
    ensures c.Return(i) in t.air && c.Return(i) in t.sent && t.accepted == s.accepted && t.consumed == s.consumed
  {
    hide OnAir, Config.Data, OffPathInv, Known, ConsumedInv;
    assert HopInv(c, s.towers[c.At(i)], i, s.accepted, s.sent);
    t := TurnOf(c, s, i, false, None);
    TurnLeads(c, s, i, false, None);
  }

  /** After the local timeout a tower repeats what it sent. */
  lemma Retries(c: Config, s: System, i: nat) returns (t: System)
    requires c.Valid() && Inv(c, s) && i <= c.Distance()
      && !(i == 0 && s.towers[c.At(i)].state == Receive_Return_Confirm)
    requires s.towers[c.At(i)].state == Receive_Confirm_Primary || s.towers[c.At(i)].state == Receive_Return_Confirm
    ensures Turned(c, s, t, i)
    ensures t.towers[c.At(i)] == s.towers[c.At(i)].(
      state := if s.towers[c.At(i)].state == Receive_Confirm_Primary then Send_Payload else Send_Return)
    ensures t.accepted == s.accepted && t.sent == s.sent && t.air == s.air
  {
    hide Inv, Turn, Leads, Config.Data;
    HopAt(c, s, i);
    RetryTurn(s.towers[c.At(i)]);
    t := TurnOf(c, s, i, true, None);
    TurnLeads(c, s, i, true, None);
  }

  lemma RetryTurn(t: Tower)
    ensures t.state == Receive_Confirm_Primary ==> Turn(t, false, true, None) == (t.(state := Send_Payload), NOTHING)
    ensures t.state == Receive_Return_Confirm && !t.sender ==>
      Turn(t, false, true, None) == (t.(state := Send_Return), NOTHING)
  {}

  lemma OkTurn(c: Config, s: System, i: nat)
    requires c.Valid() && Inv(c, s) && i < c.Distance() && s.towers[c.At(i)].state == Receive_Confirm_Primary
    requires c.Ok(i + 1) in s.air
    ensures var (u, e) := Turn(s.towers[c.At(i)], false, false, Some(c.Ok(i + 1)));
      u.state == Receive_Return && e == NOTHING
  {
    hide Inv, Config.Return, Config.Ok, Turn;
    HopAt(c, s, i);
    AnswerHas(c, i + 1);
    HeardFrame(c, s, i, c.Ok(i + 1));
    HearsConfirmation(s.towers[c.At(i)], c.Ok(i + 1));
  }

  lemma HearsConfirmation(t: Tower, f: Frame)
    requires t.state == Receive_Confirm_Primary && !PassesBy(t, f) && FromStrictlyAhead(t, f)
      && Matches(OK_TEXT, f.payload)
    ensures var (u, e) := Turn(t, false, false, Some(f));
      u.state == Receive_Return && e == NOTHING
  {
    hide PassesBy, FromStrictlyAhead, Overlaid, Matches;
  }

  /** A tower that waits for a confirmation hears it. */
  lemma HearsOk(c: Config, s: System, i: nat) returns (t: System)
    requires c.Valid() && Inv(c, s) && i < c.Distance() && s.towers[c.At(i)].state == Receive_Confirm_Primary
    requires c.Ok(i + 1) in s.air
    ensures Turned(c, s, t, i) && t.towers[c.At(i)].state == Receive_Return
    ensures t.accepted == s.accepted && t.sent == s.sent && t.consumed == s.consumed
  {
    hide Config.Ok, Turn, HopInv, OffPathInv, Known, ConsumedInv, Leads;
    OkTurn(c, s, i);
    t := TurnOf(c, s, i, false, Some(c.Ok(i + 1)));
    TurnLeads(c, s, i, false, Some(c.Ok(i + 1)));
  }

  lemma HearsAnswer(t: Tower, f: Frame)
    requires !PassesBy(t, f) && FromStrictlyAhead(t, f) && FromAhead(t, f) && Matches(RETURN_TEXT, f.payload)
    ensures var (u, e) := Turn(t, false, false, Some(f));
      (t.state == Receive_Return ==> u.state == Send_Return && e == NOTHING)
      && (t.state == Receive_Confirm_Primary ==> (u.state == Receive_Return || u.state == Send_Return) && e == NOTHING)
  {
    hide PassesBy, FromStrictlyAhead, FromAhead, FromBehind, Overlaid, Matches;
  }

  /** A tower that waits for the return wave hears a frame that reads like it from the tower after it. */
  lemma HearsReturn(c: Config, s: System, i: nat, f: Frame) returns (t: System)
    requires c.Valid() && Inv(c, s) && i < c.Distance() && s.towers[c.At(i)].state == Receive_Return
    requires f in s.air && f.sender == c.At(i + 1) && Matches(RETURN_TEXT, f.payload)
    ensures Turned(c, s, t, i) && t.towers[c.At(i)].state == Send_Return
    ensures t.accepted == s.accepted && t.sent == s.sent && t.consumed == s.consumed
  {
    hide Inv, Turn, HopInv, Leads, Config.Data;
    HopAt(c, s, i);
    HeardFrame(c, s, i, f);
    HearsAnswer(s.towers[c.At(i)], f);
    t := TurnOf(c, s, i, false, Some(f));
    TurnLeads(c, s, i, false, Some(f));
  }

  /** A tower that waits for a confirmation takes an answer for it, or for the return wave. */
  lemma HearsReturnEarly(c: Config, s: System, i: nat, f: Frame) returns (t: System)
    requires c.Valid() && Inv(c, s) && i < c.Distance() && s.towers[c.At(i)].state == Receive_Confirm_Primary
    requires f in s.air && f.sender == c.At(i + 1) && Matches(RETURN_TEXT, f.payload)
    ensures Turned(c, s, t, i)
    ensures t.towers[c.At(i)].state == Receive_Return || t.towers[c.At(i)].state == Send_Return
  {
    hide Inv, Turn, HopInv, Leads, Config.Data;
    HopAt(c, s, i);
    HeardFrame(c, s, i, f);
    HearsAnswer(s.towers[c.At(i)], f);
    t := TurnOf(c, s, i, false, Some(f));
    TurnLeads(c, s, i, false, Some(f));
  }

  /** The originator reports success. */
  lemma Succeeds(c: Config, s: System) returns (t: System)
    requires c.Valid() && Inv(c, s) && s.towers[c.At(0)].state == Receive_Return_Confirm
    ensures Turned(c, s, t, 0) && t.success && t.consumed == s.consumed
  {
    hide OnAir, Config.Data, OffPathInv, Known, ConsumedInv;
    assert HopInv(c, s.towers[c.At(0)], 0, s.accepted, s.sent);
    t := TurnOf(c, s, 0, false, None);
    TurnLeads(c, s, 0, false, None);
  }

  // ---------- When the payload reads like the return wave ----------

  function FirstSystem(c: Config): System
    requires c.Valid()
  {
    var o := c.Origin();
    System(seq(|c.batteries|, k requires 0 <= k < |c.batteries| =>
        Tower(k, if k == o then Send_Payload else Receive_Payload, k == o, k == o, c.package, [], c.batteries[k])),
      {}, {}, {o}, [], false)
  }

  lemma FirstIsInitial(c: Config)
    requires c.Valid()
    ensures Initial(c, FirstSystem(c)) && ReachableUntimed(c, FirstSystem(c)) && Inv(c, FirstSystem(c))
  {
    hide Inv;
    var s := FirstSystem(c);
    assert Initial(c, s);
    assert Run(s, [], s);
    InvInitially(c, s);
  }

  /** The package moves one hop: the next tower confirms it and is heard. */
  lemma OneHop(c: Config, s: System) returns (t: System)
    requires c.Valid() && Inv(c, s) && s.towers[c.At(0)].state == Send_Payload && s.accepted == {c.Origin()}
    ensures Inv(c, t) && Leads(s, t)
    ensures t.towers[c.At(0)].state == Receive_Confirm_Primary && c.Data(0) in t.air && c.Ok(1) in t.air
    ensures t.towers[c.At(1)].state == if c.Distance() == 1 then Send_Return else Send_Payload
    ensures c.Distance() > 1 ==> t.consumed == s.consumed
    ensures forall j :: 2 <= j <= c.Distance() ==> c.At(j) !in t.accepted
  {
    hide Leads, Inv, Config.Data, Config.Ok;
    var s1 := SendsData(c, s, 0);
    var s2 := Accepts(c, s1, 1);
    t := Confirms(c, s2, 1);
    LeadsOn(s, s1, s2);
    LeadsOn(s, s2, t);
  }

  /**
   A payload that reads like the return wave, over two hops or more: the
   originator takes the DATA of its neighbour for the answer.
   */
  lemma FalseSuccess(c: Config) returns (t: System)
    requires c.Valid() && c.LooksLikeReturn() && c.Distance() >= 2
    ensures ReachableUntimed(c, t) && t.success && t.consumed == []
    ensures c.Return(0) in t.sent && c.Return(c.Distance()) !in t.sent
  {
    hide Leads, Run, HopInv, OffPathInv, Known, Config.Data, Config.Ok, Config.Return, Initial, Matches, OnAir;
    var s := FirstSystem(c);
    FirstIsInitial(c);
    var s1 := OneHop(c, s);
    var s2 := SendsData(c, s1, 1);
    var s3 := HearsOk(c, s2, 0);
    DataHas(c, 1);
    var s4 := HearsReturn(c, s3, 0, c.Data(1));
    var s5 := Answers(c, s4, 0);
    t := Succeeds(c, s5);
    LeadsOn(s, s1, s2);
    LeadsOn(s, s2, s3);
    LeadsOn(s, s3, s4);
    LeadsOn(s, s4, s5);
    LeadsOn(s, s5, t);
    ReachableOn(c, s, t);
  }

  lemma UntimedIsReachable(c: Config, s: System)
    requires c.Valid() && ReachableUntimed(c, s)
    ensures Reachable(c, s)
  {
    hide Run, Initial;
  }

  /** A reported success means that the destination has consumed the package, exactly when Sound holds. */
  lemma SuccessIsTrueExactly(c: Config)
    requires c.Valid()
    ensures (forall s :: Reachable(c, s) ==> SuccessIsTrue(s)) <==> Sound(c)
    ensures (forall s :: Reachable(c, s) ==> AnswersContiguous(c, s)) <==> Sound(c)
  {
    hide Reachable, ReachableUntimed, Config.Return, Matches;
    if Sound(c) {
      forall s | Reachable(c, s)
        ensures SuccessIsTrue(s) && AnswersContiguous(c, s)
      {
        SoundIsSafe(c, s);
      }
    } else {
      var t := FalseSuccess(c);
      UntimedIsReachable(c, t);
    }
  }

  // ---------- Liveness ----------

  /** From every state reached without a global timeout some run, without one, ends in success. */
  ghost predicate Live(c: Config)
    requires c.Valid()
  {
    forall s :: ReachableUntimed(c, s) ==> CanSucceed(s)
  }

  ghost predicate CanSucceed(s: System) {
    exists t :: Leads(s, t) && t.success
  }

  /** The neighbour of the originator sleeps and none of its frames are left, but the originator still waits for one. */
  ghost predicate Stuck(c: Config, s: System)
    requires c.Valid()
  {
    Inv(c, s) && (s.towers[c.At(0)].state == Send_Payload || s.towers[c.At(0)].state == Receive_Confirm_Primary)
    && s.towers[c.At(1)].state == Asleep && forall f :: f in s.air ==> f.sender != c.At(1)
  }

  lemma StuckTurn(c: Config, s: System, i: nat, elapsed: bool, arrived: Option<Frame>)
    requires c.Valid() && Stuck(c, s) && i <= c.Distance() && (arrived.Some? ==> arrived.value in s.air)
    ensures var (u, e) := Turn(s.towers[c.At(i)], false, elapsed, arrived);
      (i == 0 ==> u.state == Send_Payload || u.state == Receive_Confirm_Primary)
      && (i == 1 ==> u.state == Asleep && e == NOTHING)
      && (i != 1 && e.sent.Some? ==> e.sent.value.sender != c.At(1))
  {
    hide Config.Data, Config.Return, Config.Ok, OnAir, OffPathInv, Known, ConsumedInv, FromBehind, FromStrictlyAhead,
      FromAhead, PassesBy, Overlaid, Matches;
    TurnEffect(c, s, i, false, elapsed, arrived);
    TurnMoves(s.towers[c.At(i)], false, elapsed, arrived);
    DataHas(c, i);
    AnswerHas(c, i);
    if arrived.Some? {
      HeardFrame(c, s, i, arrived.value);
    }
  }

  lemma StuckStep(c: Config, s: System, a: Action)
    requires c.Valid() && Stuck(c, s) && Enabled(s, a) && Untimed(a)
    ensures Stuck(c, Next(s, a))
  {
    hide Turn, HopInv, OffPathInv, Known, ConsumedInv;
    InvStep(c, s, a);
    match a
    case Step(k, global, elapsed, arrived) =>
      if c.OnPath(k) {
        StuckTurn(c, s, c.HopOf(k), elapsed, arrived);
      } else {
        OffPathStep(c, s, k, global, elapsed, arrived);
      }
    case Lose(f) =>
  }

  lemma {:induction false} StuckForGood(c: Config, s: System, actions: seq<Action>, t: System)
    requires c.Valid() && Stuck(c, s) && Run(s, actions, t) && forall i :: 0 <= i < |actions| ==> Untimed(actions[i])
    ensures !t.success
    decreases |actions|
  {
    hide HopInv, OffPathInv, Known, ConsumedInv, Next, Enabled, Untimed;
    if actions != [] {
      StuckStep(c, s, actions[0]);
      StuckForGood(c, Next(s, actions[0]), actions[1..], t);
    }
  }

  /** A tower that has answered hears a frame that reads like the return wave from the tower before, and sleeps. */
  lemma FallsAsleep(c: Config, s: System, i: nat, f: Frame) returns (t: System)
    requires c.Valid() && Inv(c, s) && 0 < i <= c.Distance() && s.towers[c.At(i)].state == Receive_Return_Confirm
    requires f in s.air && f.sender == c.At(i - 1) && Matches(RETURN_TEXT, f.payload)
    ensures Turned(c, s, t, i) && t.towers[c.At(i)].state == Asleep
  {
    hide Config.Data, Config.Return, Config.Ok, OnAir, OffPathInv, Known, ConsumedInv, FromBehind, FromStrictlyAhead,
      FromAhead, PassesBy, Overlaid, Matches;
    assert HopInv(c, s.towers[c.At(i)], i, s.accepted, s.sent);
    HeardFrame(c, s, i, f);
    t := TurnOf(c, s, i, false, Some(f));
    TurnLeads(c, s, i, false, Some(f));
  }

  /** All frames of one tower are lost. */
  lemma {:induction false} Silence(c: Config, s: System, k: int) returns (t: System)
    requires c.Valid() && Inv(c, s)
    ensures Inv(c, t) && Leads(s, t) && t.towers == s.towers && forall f :: f in t.air ==> f.sender != k
    decreases |s.air|
  {
    hide HopInv, OffPathInv, Known, ConsumedInv, Leads;
    if f :| f in s.air && f.sender == k {
      InvStep(c, s, Lose(f));
      LeadsByOne(s, Lose(f));
      t := Silence(c, Next(s, Lose(f)), k);
      LeadsOn(s, Next(s, Lose(f)), t);
    } else {
      t := s;
      LeadsNowhere(s);
    }
  }

  /** The neighbour of the originator has answered although the originator has heard nothing. */
  lemma NeighbourAnswers(c: Config, s: System) returns (t: System)
    requires c.Valid() && Inv(c, s) && c.LooksLikeReturn() && c.Distance() >= 2
    requires s.towers[c.At(0)].state == Receive_Confirm_Primary && c.Data(0) in s.air
    requires s.towers[c.At(1)].state == Send_Payload && c.At(2) !in s.accepted
    ensures Inv(c, t) && Leads(s, t) && t.towers[c.At(0)].state == Receive_Confirm_Primary && c.Data(0) in t.air
    ensures t.towers[c.At(1)].state == Send_Return
  {
    hide Leads, Inv, Config.Data, Config.Ok, Config.Return, Matches;
    var s1 := SendsData(c, s, 1);
    var s2 := Accepts(c, s1, 2);
    var s3 := Confirms(c, s2, 2);
    var s4 := HearsOk(c, s3, 1);
    LeadsOn(s, s1, s2);
    LeadsOn(s, s2, s3);
    LeadsOn(s, s3, s4);
    if c.Distance() == 2 {
      var s5 := Answers(c, s4, 2);
      AnswerHas(c, 2);
      t := HearsReturn(c, s5, 1, c.Return(2));
      LeadsOn(s, s4, s5);
      LeadsOn(s, s5, t);
    } else {
      var s5 := SendsData(c, s4, 2);
      DataHas(c, 2);
      t := HearsReturn(c, s5, 1, c.Data(2));
      LeadsOn(s, s4, s5);
      LeadsOn(s, s5, t);
    }
  }

  /** A payload that reads like the return wave: the neighbour sleeps before the originator has heard it. */
  lemma GetsStuck(c: Config) returns (t: System)
    requires c.Valid() && c.LooksLikeReturn()
    ensures ReachableUntimed(c, t) && Stuck(c, t)
  {
    hide Leads, Run, Inv, Config.Data, Config.Ok, Config.Return, Initial, Matches, OnAir;
    var s := FirstSystem(c);
    FirstIsInitial(c);
    var s1 := OneHop(c, s);
    var s2 := s1;
    if c.Distance() >= 2 {
      s2 := NeighbourAnswers(c, s1);
      LeadsOn(s, s1, s2);
    }
    var s3 := Answers(c, s2, 1);
    DataHas(c, 0);
    var s4 := FallsAsleep(c, s3, 1, c.Data(0));
    t := Silence(c, s4, c.At(1));
    LeadsOn(s, s2, s3);
    LeadsOn(s, s3, s4);
    LeadsOn(s, s4, t);
    ReachableOn(c, s, t);
  }

  /** Without global timeouts: a tower sleeps only once the tower before it has answered. */
  predicate LiveHop(c: Config, s: System, i: nat)
    requires c.Valid() && |s.towers| == |c.batteries| && i <= c.Distance()
  {
    var state := s.towers[c.At(i)].state;
    (state == Asleep ==> if i == 0 then s.success else c.Return(i - 1) in s.sent)
    && (c.Return(i) in s.sent ==> state == Send_Return || state == Receive_Return_Confirm || state == Asleep)
  }

  ghost predicate LiveInv(c: Config, s: System)
    requires c.Valid()
  {
    Inv(c, s) && ReturnInv(c, s) && forall i :: 0 <= i <= c.Distance() ==> LiveHop(c, s, i)
  }

  lemma SleepsOnAnswer(c: Config, s: System, i: nat, f: Frame)
    requires c.Valid() && Inv(c, s) && i <= c.Distance() && f in s.air && !c.LooksLikeReturn()
    requires s.towers[c.At(i)].state == Receive_Return_Confirm
    ensures ReceiveReturnConfirm(s.towers[c.At(i)], f).state == Asleep ==> i > 0 && c.Return(i - 1) in s.sent
  {
    hide Config.Data, Config.Return, Config.Ok, OnAir, OffPathInv, Known, ConsumedInv, FromBehind, FromStrictlyAhead,
      FromAhead, PassesBy, Overlaid, Matches;
    HeardFrame(c, s, i, f);
  }

  lemma OnlyThereAsleep(t: Tower, f: Frame)
    requires t.state != Asleep
    ensures ReceivePayload(t, f).state != Asleep && ReceiveConfirmPrimary(t, f).state != Asleep
    ensures ReceiveReturn(t, f).state != Asleep
  {
    hide FromBehind, FromStrictlyAhead, FromAhead, PassesBy, Overlaid, Matches, Relay, Unpacked;
  }

  lemma FallingAsleep(c: Config, s: System, i: nat, elapsed: bool, arrived: Option<Frame>)
    requires c.Valid() && Inv(c, s) && i <= c.Distance() && (arrived.Some? ==> arrived.value in s.air)
    requires !c.LooksLikeReturn()
    ensures var t := s.towers[c.At(i)];
      var (u, e) := Turn(t, false, elapsed, arrived);
      u.state == Asleep && t.state != Asleep ==> if i == 0 then e.success else c.Return(i - 1) in s.sent
  {
    hide Config.Data, Config.Return, Config.Ok, OnAir, OffPathInv, Known, ConsumedInv, ReceivePayload,
      ReceiveConfirmPrimary, ReceiveReturn, ReceiveReturnConfirm;
    var t := s.towers[c.At(i)];
    assert HopInv(c, t, i, s.accepted, s.sent);
    if arrived.Some? && t.state != Asleep {
      OnlyThereAsleep(t, arrived.value);
      if t.state == Receive_Return_Confirm {
        SleepsOnAnswer(c, s, i, arrived.value);
      }
    }
  }

  /** A tower that has answered stays so. */
  lemma StaysAnswered(c: Config, s: System, i: nat, elapsed: bool, arrived: Option<Frame>)
    requires c.Valid() && i <= c.Distance() && |s.towers| == |c.batteries|
    ensures var t, u := s.towers[c.At(i)], Turn(s.towers[c.At(i)], false, elapsed, arrived).0;
      t.state == Send_Return || t.state == Receive_Return_Confirm || t.state == Asleep
      ==> u.state == Send_Return || u.state == Receive_Return_Confirm || u.state == Asleep
  {
    hide FromBehind, FromStrictlyAhead, FromAhead, PassesBy, Overlaid, Matches, OnAir;
  }

  lemma LiveStepAt(c: Config, s: System, i: nat, elapsed: bool, arrived: Option<Frame>, j: nat)
    requires c.Valid() && LiveInv(c, s) && (arrived.Some? ==> arrived.value in s.air) && !c.LooksLikeReturn()
    requires i <= c.Distance() && j <= c.Distance()
    ensures LiveHop(c, Next(s, Step(c.At(i), false, elapsed, arrived)), j)
  {
    hide Config.Data, Config.Ok, Config.Return, Turn, OnAir, Known, HopInv, ConsumedInv, OffPathInv;
    assert LiveHop(c, s, j);
    TurnEffect(c, s, i, false, elapsed, arrived);
    TurnMoves(s.towers[c.At(i)], false, elapsed, arrived);
    AnswersDiffer(c, i, j);
    if i == j {
      FallingAsleep(c, s, i, elapsed, arrived);
      StaysAnswered(c, s, i, elapsed, arrived);
    }
  }

  lemma LiveStep(c: Config, s: System, a: Action)
    requires c.Valid() && LiveInv(c, s) && Enabled(s, a) && Untimed(a) && !c.LooksLikeReturn()
    ensures LiveInv(c, Next(s, a))
  {
    hide Config.Data, Config.Ok, Config.Return, Turn, OnAir, Inv, Known, HopInv, ConsumedInv, OffPathInv;
    InvHas(c, s);
    InvStep(c, s, a);
    ReturnStep(c, s, a);
    forall j: nat | j <= c.Distance()
      ensures LiveHop(c, Next(s, a), j)
    {
      assert LiveHop(c, s, j);
      if a.Step? && c.OnPath(a.tower) {
        LiveStepAt(c, s, c.HopOf(a.tower), a.elapsed, a.arrived, j);
      } else if a.Step? {
        OffPathStep(c, s, a.tower, a.global, a.elapsed, a.arrived);
      }
    }
  }

  lemma InvHas(c: Config, s: System)
    requires c.Valid() && Inv(c, s)
    ensures |s.towers| == |c.batteries|
  {
  }

  lemma {:induction false} RunKeepsLiveInv(c: Config, s: System, actions: seq<Action>, t: System)
    requires c.Valid() && LiveInv(c, s) && !c.LooksLikeReturn() && Run(s, actions, t)
    requires forall i :: 0 <= i < |actions| ==> Untimed(actions[i])
    ensures LiveInv(c, t)
    decreases |actions|
  {
    hide LiveInv, Next, Enabled, Untimed;
    if actions != [] {
      LiveStep(c, s, actions[0]);
      RunKeepsLiveInv(c, Next(s, actions[0]), actions[1..], t);
    }
  }

  lemma LeadsKeepsLiveInv(c: Config, s: System, t: System)
    requires c.Valid() && LiveInv(c, s) && !c.LooksLikeReturn() && Leads(s, t)
    ensures LiveInv(c, t)
  {
    hide LiveInv, Run, Untimed;
    var actions :| Run(s, actions, t) && forall i :: 0 <= i < |actions| ==> Untimed(actions[i]);
    RunKeepsLiveInv(c, s, actions, t);
  }

  lemma ReachableLiveInv(c: Config, t: System)
    requires c.Valid() && ReachableUntimed(c, t) && !c.LooksLikeReturn()
    ensures LiveInv(c, t)
  {
    hide Inv, Run, Untimed;
    var s, actions :| Initial(c, s) && Run(s, actions, t) && forall i :: 0 <= i < |actions| ==> Untimed(actions[i]);
    InvInitially(c, s);
    RunKeepsLiveInv(c, s, actions, t);
  }

  // ---------- Progress ----------

  /** The tower after i hops has accepted or answered in t but not in s. */
  predicate NewAt(c: Config, s: System, t: System, i: nat)
    requires c.Valid()
  {
    (c.At(i) in t.accepted && c.At(i) !in s.accepted) || (c.Return(i) in t.sent && c.Return(i) !in s.sent)
  }

  /** How many of the first n towers have still to accept, and to answer. */
  function Todo(c: Config, accepted: set<int>, sent: set<Frame>, n: nat): nat
    requires c.Valid()
  {
    if n == 0 then 0
    else
      Todo(c, accepted, sent, n - 1) + (if c.At(n - 1) in accepted then 0 else 1)
      + (if c.Return(n - 1) in sent then 0 else 1)
  }

  lemma {:induction false} TodoShrinks(c: Config, s: System, t: System, n: nat)
    requires c.Valid() && s.accepted <= t.accepted && s.sent <= t.sent
    ensures Todo(c, t.accepted, t.sent, n) <= Todo(c, s.accepted, s.sent, n)
    ensures (exists i :: 0 <= i < n && NewAt(c, s, t, i)) ==>
      Todo(c, t.accepted, t.sent, n) < Todo(c, s.accepted, s.sent, n)
  {
    hide Config.Return;
    if n > 0 {
      TodoShrinks(c, s, t, n - 1);
    }
  }

  /** t is further than s: it has a success, or a tower more that has accepted or answered. */
  ghost predicate Further(c: Config, s: System, t: System)
    requires c.Valid()
  {
    Leads(s, t) && s.accepted <= t.accepted && s.sent <= t.sent
    && (t.success || exists i :: 0 <= i <= c.Distance() && NewAt(c, s, t, i))
  }

  /** The answers reach down to the tower after r hops. */
  ghost predicate AnswersFrom(c: Config, s: System, r: nat)
    requires c.Valid()
  {
    r <= c.Distance() + 1 && forall i :: 0 <= i <= c.Distance() ==> (c.Return(i) in s.sent <==> r <= i)
  }

  /** The tower after r hops, which has answered, answers again. */
  lemma AnswersAgain(c: Config, s: System, r: nat) returns (t: System)
    requires c.Valid() && LiveInv(c, s) && 0 < r <= c.Distance() && AnswersFrom(c, s, r)
    ensures |t.towers| == |c.batteries| && Inv(c, t) && Leads(s, t) && c.Return(r) in t.air
    ensures s.accepted <= t.accepted && s.sent <= t.sent
    ensures t.towers[c.At(r - 1)] == s.towers[c.At(r - 1)]
  {
    hide Leads, Inv, Config.Return, Config.Data, Config.Ok;
    assert LiveHop(c, s, r);
    InvHas(c, s);
    var s1 := s;
    LeadsNowhere(s);
    if s.towers[c.At(r)].state == Receive_Return_Confirm {
      s1 := Retries(c, s, r);
    }
    t := Answers(c, s1, r);
    LeadsOn(s, s1, t);
  }

  /** A tower gets ready to hear the answer of the next one. */
  lemma GetsReady(c: Config, s: System, i: nat) returns (t: System)
    requires c.Valid() && Inv(c, s) && i < c.Distance()
    requires s.towers[c.At(i)].state == Send_Confirm_Primary || s.towers[c.At(i)].state == Send_Payload
      || s.towers[c.At(i)].state == Receive_Confirm_Primary
    ensures |t.towers| == |c.batteries| && Inv(c, t) && Leads(s, t)
    ensures s.accepted <= t.accepted && s.sent <= t.sent && s.air <= t.air
    ensures t.towers[c.At(i)].state == Receive_Confirm_Primary && t.towers[c.At(i + 1)] == s.towers[c.At(i + 1)]
    ensures s.towers[c.At(i)].state != Receive_Confirm_Primary ==> c.Data(i) in t.air
    ensures t.accepted == s.accepted
  {
    hide Leads, Inv, Config.Return, Config.Data, Config.Ok;
    InvHas(c, s);
    LeadsNowhere(s);
    t := s;
    if t.towers[c.At(i)].state == Send_Confirm_Primary {
      var u := Confirms(c, t, i);
      LeadsOn(s, t, u);
      t := u;
    }
    if t.towers[c.At(i)].state == Send_Payload {
      var u := SendsData(c, t, i);
      LeadsOn(s, t, u);
      t := u;
    }
  }

  /** The return wave moves one hop. */
  lemma WaveMoves(c: Config, s: System, r: nat) returns (t: System)
    requires c.Valid() && LiveInv(c, s) && 0 < r <= c.Distance() && AnswersFrom(c, s, r)
    ensures Inv(c, t) && Further(c, s, t)
  {
    hide Leads, Inv, Config.Return, Config.Data, Config.Ok, Matches;
    var i := r - 1;
    UnansweredTower(c, s, r);
    var s1 := AnswersAgain(c, s, r);
    AnswerHas(c, r);
    if s1.towers[c.At(i)].state != Send_Return && s1.towers[c.At(i)].state != Receive_Return {
      var u := GetsReady(c, s1, i);
      LeadsOn(s, s1, u);
      s1 := HearsReturnEarly(c, u, i, c.Return(r));
      LeadsOn(s, u, s1);
    }
    if s1.towers[c.At(i)].state == Receive_Return {
      var u := HearsReturn(c, s1, i, c.Return(r));
      LeadsOn(s, s1, u);
      s1 := u;
    }
    t := Answers(c, s1, i);
    LeadsOn(s, s1, t);
    assert NewAt(c, s, t, i);
  }

  /** The tower before the first that has answered is awake and has accepted the package. */
  lemma UnansweredTower(c: Config, s: System, r: nat)
    requires c.Valid() && LiveInv(c, s) && 0 < r <= c.Distance() && AnswersFrom(c, s, r)
    ensures |s.towers| == |c.batteries|
    ensures var state := s.towers[c.At(r - 1)].state;
      state != Asleep && state != Receive_Payload && state != Receive_Return_Confirm
  {
    hide Config.Return, Config.Data, Config.Ok, OnAir, Known, ConsumedInv, OffPathInv;
    assert LiveHop(c, s, r - 1);
    assert HopInv(c, s.towers[c.At(r - 1)], r - 1, s.accepted, s.sent);
    assert HopInv(c, s.towers[c.At(r)], r, s.accepted, s.sent);
    AnsweredAccepted(c, s, r);
  }

  lemma AnsweredAccepted(c: Config, s: System, i: nat)
    requires c.Valid() && Inv(c, s) && i <= c.Distance() && c.Return(i) in s.sent
    ensures c.At(i) in s.accepted
  {
    hide Config.Data, Config.Ok, HopInv, OffPathInv, ConsumedInv;
    assert Known(c, s, c.Return(i));
    AnswerHas(c, i);
  }

  /** With the answer of the originator sent, it succeeds. */
  lemma OriginatorFinishes(c: Config, s: System) returns (t: System)
    requires c.Valid() && LiveInv(c, s) && c.Return(0) in s.sent
    ensures Inv(c, t) && Further(c, s, t)
  {
    hide Leads, Inv, Config.Return, Config.Data, Config.Ok;
    assert LiveHop(c, s, 0);
    InvHas(c, s);
    LeadsNowhere(s);
    t := s;
    if s.towers[c.At(0)].state != Asleep {
      if s.towers[c.At(0)].state == Send_Return {
        t := Answers(c, s, 0);
      }
      var u := Succeeds(c, t);
      LeadsOn(s, t, u);
      t := u;
    }
  }

  /** While some tower has yet to accept the package, it moves one hop. */
  lemma DataMoves(c: Config, s: System, i: nat) returns (t: System)
    requires c.Valid() && LiveInv(c, s) && i < c.Distance() && c.At(i) in s.accepted && c.At(i + 1) !in s.accepted
    ensures Inv(c, t) && Further(c, s, t)
  {
    hide Leads, Inv, Config.Return, Config.Data, Config.Ok;
    InvHas(c, s);
    FrontTower(c, s, i);
    LeadsNowhere(s);
    var s1 := s;
    if s.towers[c.At(i)].state == Receive_Confirm_Primary {
      s1 := Retries(c, s, i);
    }
    var s2 := GetsReady(c, s1, i);
    LeadsOn(s, s1, s2);
    t := Accepts(c, s2, i + 1);
    LeadsOn(s, s2, t);
    assert NewAt(c, s, t, i + 1);
  }

  /** The last tower that has accepted is still trying to pass the package on. */
  lemma FrontTower(c: Config, s: System, i: nat)
    requires c.Valid() && LiveInv(c, s) && i < c.Distance() && c.At(i) in s.accepted && c.At(i + 1) !in s.accepted
    ensures |s.towers| == |c.batteries|
    ensures var state := s.towers[c.At(i)].state;
      state == Send_Confirm_Primary || state == Send_Payload || state == Receive_Confirm_Primary
  {
    hide Config.Return, Config.Data, Config.Ok, OnAir, Known, ConsumedInv, OffPathInv;
    assert LiveHop(c, s, i);
    assert ReturnHop(c, s, i);
    assert HopInv(c, s.towers[c.At(i)], i, s.accepted, s.sent);
    if c.Return(i + 1) in s.sent {
      AnsweredAccepted(c, s, i + 1);
    }
    if i > 0 {
      assert ReturnHop(c, s, i - 1);
    }
  }

  /** When every tower has accepted and none has answered, the destination answers. */
  lemma WaveStarts(c: Config, s: System) returns (t: System)
    requires c.Valid() && LiveInv(c, s) && c.At(c.Distance()) in s.accepted && AnswersFrom(c, s, c.Distance() + 1)
    ensures Inv(c, t) && Further(c, s, t)
  {
    hide Leads, Inv, Config.Return, Config.Data, Config.Ok;
    var n := c.Distance();
    InvHas(c, s);
    DestinationTower(c, s);
    LeadsNowhere(s);
    t := s;
    if s.towers[c.At(n)].state == Send_Confirm_Primary {
      t := Confirms(c, s, n);
    }
    var u := Answers(c, t, n);
    LeadsOn(s, t, u);
    t := u;
    assert NewAt(c, s, t, n);
  }

  lemma DestinationTower(c: Config, s: System)
    requires c.Valid() && LiveInv(c, s) && c.At(c.Distance()) in s.accepted && AnswersFrom(c, s, c.Distance() + 1)
    ensures |s.towers| == |c.batteries|
    ensures var state := s.towers[c.At(c.Distance())].state; state == Send_Confirm_Primary || state == Send_Return
  {
    hide Config.Return, Config.Data, Config.Ok, OnAir, Known, ConsumedInv, OffPathInv;
    var n := c.Distance();
    assert LiveHop(c, s, n);
    assert HopInv(c, s.towers[c.At(n)], n, s.accepted, s.sent);
  }

  /** From every such state the session gets further. */
  lemma GetsFurther(c: Config, s: System) returns (t: System)
    requires c.Valid() && LiveInv(c, s)
    ensures Inv(c, t) && Further(c, s, t)
  {
    hide Further, LiveInv, Config.Return;
    var r := FirstAnswer(c, s);
    if r == 0 {
      t := OriginatorFinishes(c, s);
    } else if r <= c.Distance() {
      t := WaveMoves(c, s, r);
    } else if c.At(c.Distance()) in s.accepted {
      t := WaveStarts(c, s);
    } else {
      var i := Front(c, s);
      t := DataMoves(c, s, i);
    }
  }

  lemma FirstAnswer(c: Config, s: System) returns (r: nat)
    requires c.Valid() && LiveInv(c, s)
    ensures AnswersFrom(c, s, r)
  {
    hide Config.Return, Inv;
    r := 0;
    while r <= c.Distance() && c.Return(r) !in s.sent
      invariant r <= c.Distance() + 1 && forall i :: 0 <= i < r ==> c.Return(i) !in s.sent
    {
      r := r + 1;
    }
    forall i | r <= i <= c.Distance()
      ensures c.Return(i) in s.sent
    {
      AnsweredRun(c, s, r, i);
    }
  }

  lemma Front(c: Config, s: System) returns (i: nat)
    requires c.Valid() && LiveInv(c, s) && c.At(c.Distance()) !in s.accepted
    ensures i < c.Distance() && c.At(i) in s.accepted && c.At(i + 1) !in s.accepted
  {
    hide Config.Return, Config.Data, Holds, Known, ConsumedInv, OffPathInv;
    i := 0;
    assert HopInv(c, s.towers[c.At(0)], 0, s.accepted, s.sent);
    while c.At(i + 1) in s.accepted
      invariant i < c.Distance() && c.At(i) in s.accepted
      decreases c.Distance() - i
    {
      i := i + 1;
    }
  }

  lemma {:induction false} Succeeding(c: Config, s: System)
    requires c.Valid() && LiveInv(c, s) && !c.LooksLikeReturn()
    ensures CanSucceed(s)
    decreases Todo(c, s.accepted, s.sent, c.Distance() + 1)
  {
    hide LiveInv, Leads, Config.Return, Todo, Inv;
    var t := GetsFurther(c, s);
    if !t.success {
      LeadsKeepsLiveInv(c, s, t);
      TodoShrinks(c, s, t, c.Distance() + 1);
      Succeeding(c, t);
      var u :| Leads(t, u) && u.success;
      LeadsOn(s, t, u);
    }
  }

  /** The originator can always still succeed, exactly when the payload does not read like the return wave. */
  lemma LiveExactly(c: Config)
    requires c.Valid()
    ensures Live(c) <==> !c.LooksLikeReturn()
  {
    hide ReachableUntimed, Leads, LiveInv, Matches, Run;
    if c.LooksLikeReturn() {
      var t := GetsStuck(c);
      if Live(c) {
        var u :| Leads(t, u) && u.success;
        StuckNeverSucceeds(c, t, u);
      }
    } else {
      forall s | ReachableUntimed(c, s)
        ensures CanSucceed(s)
      {
        ReachableLiveInv(c, s);
        Succeeding(c, s);
      }
    }
  }

  lemma StuckNeverSucceeds(c: Config, s: System, t: System)
    requires c.Valid() && Stuck(c, s) && Leads(s, t)
    ensures !t.success
  {
    hide Run, Stuck, Untimed;
    var actions :| Run(s, actions, t) && forall i :: 0 <= i < |actions| ==> Untimed(actions[i]);
    StuckForGood(c, s, actions, t);
  }
}
