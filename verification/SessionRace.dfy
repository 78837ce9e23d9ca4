// A cancellation that arrives too late for the last checkpoint of a phase: a run in
// which the helper has consumed the whole cancel frame and still waits.
module SessionRace {
  import opened Strings
  import opened Framing
  import opened SessionTransport
  import opened SessionModel
  import SessionInvariant
  import SessionProgress

  ghost predicate Reachable(w: World, s: State)
  {
    exists states :: Run(w, states) && states[|states| - 1] == s
  }

  lemma Reach(w: World, s: State, step: Step)
    requires Reachable(w, s) && Enabled(w, s, step)
    ensures Reachable(w, Do(w, s, step))
  {
    hide Do, Enabled, Init;
    var states :| Run(w, states) && states[|states| - 1] == s;
    var longer := states + [Do(w, s, step)];
    assert Next(w, s, Do(w, s, step));
    forall i | 0 <= i < |longer| - 1 ensures Next(w, longer[i], longer[i + 1]) {
      assert i < |states| - 1 ==> Next(w, states[i], states[i + 1]);
    }
    assert Run(w, longer) && longer[|longer| - 1] == Do(w, s, step);
  }

  // ---------- moving all bytes of one direction ----------

  lemma {:induction false} WriteAll(w: World, s: State)
    requires Reachable(w, s)
    ensures Reachable(w, s.(clientOut := [], toHelper := s.toHelper + s.clientOut))
    decreases |s.clientOut|
  {
    hide Reachable;
    if s.clientOut == [] {
      assert s.(clientOut := [], toHelper := s.toHelper + s.clientOut) == s;
    } else {
      var t := Do(w, s, ClientWrite);
      Reach(w, s, ClientWrite);
      WriteAll(w, t);
      assert s.clientOut == [s.clientOut[0]] + s.clientOut[1..];
      assert t.toHelper + t.clientOut == s.toHelper + s.clientOut;
    }
  }

  lemma {:induction false} MonitorAll(w: World, s: State)
    requires Reachable(w, s) && MonitorActive(s.helper)
    ensures Reachable(w, s.(toHelper := [], monitored := s.monitored + s.toHelper))
    decreases |s.toHelper|
  {
    hide Reachable;
    if s.toHelper == [] {
      assert s.(toHelper := [], monitored := s.monitored + s.toHelper) == s;
    } else {
      var t := Do(w, s, MonitorRead);
      Reach(w, s, MonitorRead);
      MonitorAll(w, t);
      assert s.toHelper == [s.toHelper[0]] + s.toHelper[1..];
      assert t.monitored + t.toHelper == s.monitored + s.toHelper;
    }
  }

  // What the helper writes after the broker has cancelled is thrown away.
  lemma {:induction false} FlushAll(w: World, s: State)
    requires Reachable(w, s) && s.client.Closed?
    ensures Reachable(w, s.(helperOut := [], toClient := []))
    decreases 2 * |s.helperOut| + |s.toClient|
  {
    hide Reachable;
    if s.helperOut != [] {
      Reach(w, s, HelperWrite);
      FlushAll(w, Do(w, s, HelperWrite));
    } else if s.toClient != [] {
      Reach(w, s, Drain);
      FlushAll(w, Do(w, s, Drain));
    } else {
      assert s.(helperOut := [], toClient := []) == s;
    }
  }

  lemma {:induction false} ReadInitialFrame(w: World, s: State)
    requires w.Lawful() && Reachable(w, s) && s.helper.ReadInitial? && s.toHelper != []
    requires s.helperIn + s.toHelper == Frame(w.initial)
    ensures Reachable(w, s.(helper := Provisioning, helperIn := [], toHelper := [], inbound := Tail(s.inbound)))
    decreases |s.toHelper|
  {
    hide Reachable, ReadByte, World.Lawful, Frame;
    var next, rest := s.toHelper[0], s.toHelper[1..];
    assert s.toHelper == [next] + rest;
    InitialFits(w);
    SessionInvariant.StreamOne(w.initial);
    assert |s.helperIn| < |Frame(w.initial)| && s.helperIn == (s.helperIn + s.toHelper)[..|s.helperIn|];
    assert s.helperIn + [next] + rest == s.helperIn + s.toHelper;
    assert [w.initial][1..] == [];
    SessionInvariant.ReadAligned(s.helperIn, next, rest, [w.initial], COMMAND_LIMIT);
    var t := DoHelperRead(w, s);
    Reach(w, s, HelperRead);
    if ReadByte(s.helperIn, next, COMMAND_LIMIT).More? {
      ShortOfFrame(s.helperIn, next, rest, w.initial);
      ReadInitialFrame(w, t);
    }
  }

  lemma InitialFits(w: World)
    requires w.Lawful()
    ensures Sendable(w.initial, COMMAND_LIMIT)
  {
  }

  // A frame that is not finished has bytes to come.
  lemma ShortOfFrame(buffer: Bytes, next: byte, rest: Bytes, payload: Bytes)
    requires Sendable(payload, COMMAND_LIMIT) && buffer + [next] + rest == Frame(payload)
    requires ReadByte(buffer, next, COMMAND_LIMIT).More?
    ensures rest != []
  {
    hide FromBigEndian;
    if rest == [] {
      assert buffer + [next] == Frame(payload);
      FrameParts(payload);
    }
  }

  // ---------- the run ----------

  // The state after the broker has cancelled a helper that is provisioning.
  lemma CancelledWhileProvisioning(w: World) returns (s: State)
    requires w.Lawful()
    ensures Reachable(w, s) && s.client == Closed(false) && s.helper.Provisioning?
    ensures s.monitored == Frame(w.cancel) && s.helperIn == [] && s.toHelper == [] && s.clientOut == []
    ensures s.unsent == [] && s.dropped == [] && !s.spliced && s.emitted == 0
  {
    hide World.Lawful, Reachable, Frame, ReadByte;
    s := Start(w);
    WriteAll(w, s);
    s := s.(clientOut := [], toHelper := s.toHelper + s.clientOut);
    InitialFits(w);
    assert s.helperIn + s.toHelper == Frame(w.initial);
    ReadInitialFrame(w, s);
    s := s.(helper := Provisioning, helperIn := [], toHelper := [], inbound := Tail(s.inbound));
    var step := Cancel(0, |Frame(w.cancel)|, 0);
    Reach(w, s, step);
    s := Do(w, s, step);
    assert s.clientOut == Frame(w.cancel) && s.unsent == [];
    WriteAll(w, s);
    s := s.(clientOut := [], toHelper := s.toHelper + s.clientOut);
    MonitorAll(w, s);
    s := s.(toHelper := [], monitored := s.monitored + s.toHelper);
  }

  lemma MissedWhileProvisioning(w: World) returns (s: State)
    requires w.Lawful()
    ensures Reachable(w, s) && s.client == Closed(false) && s.helper.ReadStart? && s.dropped == Frame(w.cancel)
    ensures s.toHelper == [] && s.clientOut == [] && s.helperOut == [] && s.toClient == []
    ensures s.unsent == [] && !s.spliced
  {
    hide World.Lawful, Reachable, Frame;
    s := CancelledWhileProvisioning(w);
    SessionInvariant.ScriptIsLong(w);
    assert s.emitted == 0 && s.monitored != [];
    Reach(w, s, HelperAdvance);
    s := DoHelperAdvance(w, s);
    FlushAll(w, s);
    s := s.(helperOut := [], toClient := []);
    Reach(w, s, HelperAdvance);
    s := DoHelperAdvance(w, s);
  }

  lemma Start(w: World) returns (s: State)
    ensures Init(w, s) && Reachable(w, s)
  {
    s := State(Connecting, Frame(w.initial), [], w.Fresh(), [],
               ReadInitial, [], [], [], [], [], [], [], 0, 0, [w.initial], [], None, false, [], []);
    assert Run(w, [s]) && [s][|[s]| - 1] == s;
  }

  // In every session the cancel frame can be missed: the monitor consumes it when the
  // last checkpoint is behind, and until the pipe is closed the helper waits for a
  // command that will not come.
  lemma CancelCanBeMissed(w: World, capacity: nat) returns (states: seq<State>)
    requires w.Lawful()
    ensures Run(w, states)
    ensures var end := states[|states| - 1];
      end.client == Closed(false) && end.unsent == [] && !end.spliced && end.dropped == Frame(w.cancel) &&
      end.helper.ReadStart? && !SessionProgress.MovesOpen(w, capacity, end)
  {
    hide World.Lawful, Frame, Init, Next, SessionProgress.MovesOpen;
    var s := MissedWhileProvisioning(w);
    SessionProgress.LeftWaiting(w, capacity, s);
    states :| Run(w, states) && states[|states| - 1] == s;
  }
}
