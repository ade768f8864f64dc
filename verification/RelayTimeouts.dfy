/** What the global timeout does to a session: every tower that took part falls silent. */
module RelayTimeouts {
  import opened LoraPackage
  import opened Wrappers
  import opened LoraManager
  import opened RelaySession

  /** A tower asleep holds no session. */
  predicate Rested(s: System) {
    forall k :: 0 <= k < |s.towers| && s.towers[k].state == Asleep ==> !s.towers[k].transmitting && !s.towers[k].sender
  }

  /** The tower is asleep, and takes part in nothing. */
  predicate Silent(s: System, k: nat)
    requires k < |s.towers|
  {
    s.towers[k].state == Asleep && !s.towers[k].transmitting && !s.towers[k].sender
  }

  lemma TurnOfRested(t: Tower, global: bool, elapsed: bool, arrived: Option<Frame>)
    requires t.state == Asleep ==> !t.transmitting && !t.sender
    ensures var (u, e) := Turn(t, global, elapsed, arrived);
      (u.state == Asleep ==> !u.transmitting && !u.sender)
      && (t.state == Asleep ==> u == t && e == NOTHING)
      && (global && t.state != Receive_Payload ==> u.state == Asleep && e == NOTHING)
  {
    hide ReceivePayload, ReceiveConfirmPrimary, ReceiveReturn;
    if arrived.Some? {
      NoSleepByHearing(t, arrived.value);
    }
  }

  lemma NoSleepByHearing(t: Tower, f: Frame)
    ensures t.state == Receive_Payload ==> ReceivePayload(t, f).state != Asleep
    ensures t.state == Receive_Confirm_Primary ==> ReceiveConfirmPrimary(t, f).state != Asleep
    ensures t.state == Receive_Return ==> ReceiveReturn(t, f).state != Asleep
  {}

  lemma RestedStep(s: System, a: Action)
    requires Rested(s) && Enabled(s, a)
    ensures Rested(Next(s, a))
  {
    hide Turn;
    if a.Step? {
      TurnOfRested(s.towers[a.tower], a.global, a.elapsed, a.arrived);
    }
  }

  lemma {:induction false} RestedRun(s: System, actions: seq<Action>, t: System)
    requires Rested(s) && Run(s, actions, t)
    ensures Rested(t)
    decreases |actions|
  {
    hide Next, Enabled, Rested;
    if actions != [] {
      RestedStep(s, actions[0]);
      RestedRun(Next(s, actions[0]), actions[1..], t);
    }
  }

  lemma SilentStep(s: System, a: Action, k: nat)
    requires k < |s.towers| && Silent(s, k) && Enabled(s, a)
    ensures var t := Next(s, a);
      |t.towers| == |s.towers| && t.towers[k] == s.towers[k]
      && (a.Step? && a.tower == k ==> t.sent == s.sent && t.consumed == s.consumed && t.accepted == s.accepted)
  {
    hide Turn;
    if a.Step? {
      if a.tower == k {
        TurnOfRested(s.towers[k], a.global, a.elapsed, a.arrived);
      }
    }
  }

  /**
   A tower that is out of time: once a tower that takes part in a session has
   taken a turn with the global timeout, it neither transmits nor counts as the
   originator, and whatever happens later, no turn of its own sends, consumes or
   accepts anything.
   */
  lemma TimedOutIsSilent(c: Config, s: System, a: Action, actions: seq<Action>, t: System, b: Action)
    requires c.Valid() && Reachable(c, s) && Enabled(s, a) && a.Step? && a.global
    requires s.towers[a.tower].state != Receive_Payload
    requires Run(Next(s, a), actions, t) && Enabled(t, b) && b.Step? && b.tower == a.tower
    ensures a.tower < |t.towers| && !t.towers[a.tower].transmitting && !t.towers[a.tower].sender
    ensures var u := Next(t, b);
      u.sent == t.sent && u.consumed == t.consumed && u.accepted == t.accepted && u.towers == t.towers
  {
    hide Run, Reachable, Enabled, Rested, Turn;
    ReachableIsRested(c, s);
    TurnSilences(s, a);
    SilentRun(Next(s, a), actions, t, a.tower);
    SilentStep(t, b, a.tower);
    TurnOfRested(t.towers[a.tower], b.global, b.elapsed, b.arrived);
  }

  lemma TurnSilences(s: System, a: Action)
    requires Rested(s) && Enabled(s, a) && a.Step? && a.global && s.towers[a.tower].state != Receive_Payload
    ensures a.tower < |Next(s, a).towers| && Silent(Next(s, a), a.tower)
  {
    hide Turn;
    TurnOfRested(s.towers[a.tower], a.global, a.elapsed, a.arrived);
  }

  lemma ReachableIsRested(c: Config, s: System)
    requires c.Valid() && Reachable(c, s)
    ensures Rested(s)
  {
    hide Run, Next;
    var s0, actions :| Initial(c, s0) && Run(s0, actions, s);
    RestedRun(s0, actions, s);
  }

  lemma {:induction false} SilentRun(s: System, actions: seq<Action>, t: System, k: nat)
    requires k < |s.towers| && Silent(s, k) && Run(s, actions, t)
    ensures |t.towers| == |s.towers| && t.towers[k] == s.towers[k]
    decreases |actions|
  {
    hide Next, Enabled;
    if actions != [] {
      SilentStep(s, actions[0], k);
      SilentRun(Next(s, actions[0]), actions[1..], t, k);
    }
  }

  // ---------- The end of a session ----------

  /** Nothing is in the air, and every tower is asleep or waits for a package. */
  predicate Over(s: System) {
    s.air == {} && forall k :: 0 <= k < |s.towers| ==>
      s.towers[k].state == Receive_Payload || (s.towers[k].state == Asleep && Silent(s, k))
  }

  lemma OverStep(s: System, a: Action)
    requires Over(s) && Enabled(s, a)
    ensures Over(Next(s, a)) && Next(s, a).sent == s.sent && Next(s, a).consumed == s.consumed
  {
    if a.Step? {
      assert a.arrived.None?;
    }
  }

  /** When a session is over it stays so: nothing is sent and nothing consumed any more. */
  lemma {:induction false} OverStaysOver(s: System, actions: seq<Action>, t: System)
    requires Over(s) && Run(s, actions, t)
    ensures Over(t) && t.sent == s.sent && t.consumed == s.consumed
    decreases |actions|
  {
    hide Next, Enabled, Over;
    if actions != [] {
      OverStep(s, actions[0]);
      OverStaysOver(Next(s, actions[0]), actions[1..], t);
    }
  }

  /** The turn of each of the first n towers, with the global timeout passed. */
  function TimeOuts(n: nat): seq<Action> {
    if n == 0 then [] else TimeOuts(n - 1) + [Step(n - 1, true, false, None)]
  }

  /** The first n towers are asleep or wait for a package. */
  predicate OverBelow(s: System, n: nat)
    requires n <= |s.towers|
  {
    forall k :: 0 <= k < n ==> s.towers[k].state == Receive_Payload || s.towers[k].state == Asleep
  }

  lemma TimeOutStep(s: System, k: nat)
    requires Rested(s) && k < |s.towers|
    ensures Enabled(s, Step(k, true, false, None))
    ensures var t := Next(s, Step(k, true, false, None));
      Rested(t) && |t.towers| == |s.towers| && t.air == s.air && t.sent == s.sent && t.consumed == s.consumed
      && (t.towers[k].state == Receive_Payload || t.towers[k].state == Asleep)
      && forall j :: 0 <= j < |s.towers| && j != k ==> t.towers[j] == s.towers[j]
  {
    TurnOfRested(s.towers[k], true, false, None);
  }

  lemma {:induction false} TimeOutsEnd(s: System, n: nat) returns (t: System)
    requires Rested(s) && n <= |s.towers|
    ensures Run(s, TimeOuts(n), t) && Rested(t) && |t.towers| == |s.towers| && OverBelow(t, n)
    ensures t.air == s.air && t.sent == s.sent && t.consumed == s.consumed
  {
    hide Next, Enabled, Rested;
    if n == 0 {
      t := s;
    } else {
      var m := TimeOutsEnd(s, n - 1);
      TimeOutStep(m, n - 1);
      t := Next(m, Step(n - 1, true, false, None));
      RunOfOne(m, Step(n - 1, true, false, None));
      RunConcat(s, TimeOuts(n - 1), m, [Step(n - 1, true, false, None)], t);
    }
  }

  lemma RunOfOne(s: System, a: Action)
    requires Enabled(s, a)
    ensures Run(s, [a], Next(s, a))
  {
    hide Next, Enabled;
    assert [a][1..] == [];
    assert Run(Next(s, a), [], Next(s, a));
  }

  /**
   A session always ends: in any state that a run reaches, when the global
   timeout passes at every tower and what is in the air is lost, the session is
   over, without another frame sent or package consumed.
   */
  lemma TimeoutsEndSession(c: Config, s: System) returns (m: System)
    requires c.Valid() && Reachable(c, s)
    ensures Run(s, TimeOuts(|s.towers|), m) && m.sent == s.sent && m.consumed == s.consumed
    ensures Over(m.(air := {}))
  {
    hide Run, Reachable, Rested, Next;
    ReachableIsRested(c, s);
    m := TimeOutsEnd(s, |s.towers|);
    RestedHas(m);
  }

  lemma RestedHas(s: System)
    requires Rested(s) && OverBelow(s, |s.towers|)
    ensures Over(s.(air := {}))
  {}
}
