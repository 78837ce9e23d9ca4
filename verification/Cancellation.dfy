// Cancellation of a helper action: the one child process group, the cancellation
// flag and its code, under every interleaving of the threads that touch them.
module Cancellation {
  import opened Strings

  datatype Code = Cancelled | Timeout | ProtocolError

  function Rank(code: Code): nat
  {
    match code
    case Cancelled => 0
    case Timeout => 1
    case ProtocolError => 2
  }

  function Escalate(current: Code, code: Code): Code
  {
    if current == Cancelled || code == ProtocolError then code else current
  }

  // The rule in the code is a maximum.
  lemma EscalateIsMax(current: Code, code: Code)
    ensures Escalate(current, code) == if Rank(code) > Rank(current) then code else current
  {
  }

  // ---------- the module's globals ----------

  datatype Globals = Globals(active: Option<int>, requested: bool, code: Code)

  // The sections that run under the lock.
  function Registering(g: Globals, pgid: int): Globals
  {
    if g.active.Some? then g else g.(active := Some(pgid))
  }

  function Unregistering(g: Globals, pgid: int): Globals
  {
    if g.active == Some(pgid) then g.(active := None) else g
  }

  function Requesting(g: Globals, code: Code): Globals
  {
    g.(requested := true, code := Escalate(g.code, code))
  }

  datatype Registration = Registered | Refused | TerminatedAtOnce

  class Runtime {
    var active: Option<int>
    var requested: bool
    var code: Code
    // Groups sent SIGTERM, in order.
    ghost var killed: seq<int>

    function Snapshot(): Globals
      reads this
    {
      Globals(active, requested, code)
    }

    constructor ()
      ensures Snapshot() == INIT.globals && killed == []
    {
      active, requested, code, killed := None, false, Cancelled, [];
    }

    // Afterwards the group is not the active one; any other is left alone.
    method UnregisterChildGroup(pgid: int)
      modifies this`active
      ensures active != Some(pgid)
      ensures active == old(active) || (active == None && old(active) == Some(pgid))
    {
      if active == Some(pgid) {
        active := None;
      }
    }

    // After a request the new group is terminated and forgotten by this very call.
    method RegisterChildGroup(pgid: int, ownGroup: int) returns (result: Registration)
      modifies this`active, this`killed
      ensures result == Refused <==> pgid <= 0 || pgid == ownGroup || old(active).Some?
      ensures result == TerminatedAtOnce <==> result != Refused && requested
      ensures result == Registered ==> Snapshot() == Registering(old(Snapshot()), pgid) && active == Some(pgid)
      ensures result == TerminatedAtOnce ==>
        Snapshot() == Unregistering(Registering(old(Snapshot()), pgid), pgid) && active == None
      ensures result == Refused ==> Snapshot() == old(Snapshot())
      ensures killed == old(killed) + if result == TerminatedAtOnce then [pgid] else []
    {
      if pgid <= 0 || pgid == ownGroup || active.Some? {
        return Refused;
      }
      active := Some(pgid);
      if requested {
        killed := killed + [pgid];
        UnregisterChildGroup(pgid);
        return TerminatedAtOnce;
      }
      return Registered;
    }

    method RequestCancellation(requestedCode: Code)
      modifies this`requested, this`code, this`killed
      ensures Snapshot() == Requesting(old(Snapshot()), requestedCode)
      ensures Rank(code) == if Rank(requestedCode) > Rank(old(code)) then Rank(requestedCode) else Rank(old(code))
      ensures killed == old(killed) + if active.Some? then [active.value] else []
    {
      requested := true;
      if code == Cancelled || requestedCode == ProtocolError {
        code := requestedCode;
      }
      if active.Some? {
        killed := killed + [active.value];
      }
    }
  }

  // ---------- every interleaving ----------

  // The locked sections are atomic; the signals they decide on are sent later, by
  // the thread that ran the section. `live` holds the groups registered and not
  // yet unregistered, `refused` those whose registration was refused because
  // another group was active.
  datatype State = State(
    globals: Globals, known: set<int>, refused: set<int>, live: set<int>,
    terminating: set<int>, toSignal: set<int>, signalled: set<int>)

  const INIT := State(Globals(None, false, Cancelled), {}, {}, {}, {}, {}, {})

  datatype Step =
    | Register(pgid: int)
    | Unregister(pgid: int)
    | Request(code: Code)
    | Terminate(pgid: int)
    | Signal(pgid: int)

  // Group ids are not reused; a group is unregistered by the thread that
  // registered it, once its child is gone.
  predicate Enabled(s: State, step: Step)
  {
    match step
    case Register(pgid) => pgid !in s.known
    case Unregister(pgid) => pgid in s.live && pgid !in s.terminating
    case Request(_) => true
    case Terminate(pgid) => pgid in s.terminating
    case Signal(pgid) => pgid in s.toSignal
  }

  function Forget(s: State, pgid: int): State
  {
    s.(globals := Unregistering(s.globals, pgid), live := s.live - {pgid})
  }

  function Do(s: State, step: Step): State
  {
    match step
    case Register(pgid) =>
      var g := Registering(s.globals, pgid);
      if s.globals.active.Some? then s.(globals := g, known := s.known + {pgid}, refused := s.refused + {pgid})
      else
        s.(globals := g, known := s.known + {pgid}, live := s.live + {pgid},
           terminating := if g.requested then s.terminating + {pgid} else s.terminating)
    case Unregister(pgid) => Forget(s, pgid)
    case Request(code) =>
      var g := Requesting(s.globals, code);
      s.(globals := g, toSignal := if g.active.Some? then s.toSignal + {g.active.value} else s.toSignal)
    case Terminate(pgid) => Forget(s, pgid).(terminating := s.terminating - {pgid}, signalled := s.signalled + {pgid})
    case Signal(pgid) => s.(toSignal := s.toSignal - {pgid}, signalled := s.signalled + {pgid})
  }

  ghost predicate IsRun(steps: seq<Step>)
  {
    steps == [] ||
    (IsRun(steps[..|steps| - 1]) && Enabled(After(steps[..|steps| - 1]), steps[|steps| - 1]))
  }

  function After(steps: seq<Step>): State
  {
    if steps == [] then INIT else Do(After(steps[..|steps| - 1]), steps[|steps| - 1])
  }

  ghost predicate Inv(s: State)
  {
    s.live == (if s.globals.active.Some? then {s.globals.active.value} else {}) && s.terminating <= s.live &&
    s.live + s.toSignal + s.signalled + s.refused <= s.known && s.refused !! s.live + s.toSignal + s.signalled &&
    (s.globals.requested ==> s.live <= s.signalled + s.toSignal + s.terminating)
  }

  lemma StepKeepsInv(s: State, step: Step)
    requires Inv(s) && Enabled(s, step)
    ensures Inv(Do(s, step))
  {
  }

  // In every reachable state at most one group is live and it is the active one;
  // once a cancellation was requested, each live group has been signalled or will
  // be by a thread that is already bound to do so. A refused group is never live,
  // and no cancellation ever signals it.
  lemma {:induction false} NoChildEscapes(steps: seq<Step>)
    requires IsRun(steps)
    ensures var s := After(steps);
      Inv(s) && |s.live| <= 1 && s.refused !! s.live + s.signalled &&
      (s.globals.requested && s.toSignal == {} && s.terminating == {} ==> s.live <= s.signalled)
  {
    if steps != [] {
      NoChildEscapes(steps[..|steps| - 1]);
      StepKeepsInv(After(steps[..|steps| - 1]), steps[|steps| - 1]);
    }
  }

  // A child registered after the request can only be on its way out.
  lemma LateChildIsTerminating(steps: seq<Step>, pgid: int)
    requires IsRun(steps + [Register(pgid)]) && After(steps).globals.requested
    ensures var s := After(steps + [Register(pgid)]); pgid in s.live ==> pgid in s.terminating
  {
    assert (steps + [Register(pgid)])[..|steps|] == steps;
    NoChildEscapes(steps);
  }

  // A group whose child is gone can leave, and then none is active.
  lemma ChildLeaves(steps: seq<Step>, pgid: int)
    requires IsRun(steps) && pgid in After(steps).live && pgid !in After(steps).terminating
    ensures IsRun(steps + [Unregister(pgid)])
    ensures var s := After(steps + [Unregister(pgid)]); s.live == {} && s.globals.active.None?
  {
    NoChildEscapes(steps);
    assert (steps + [Unregister(pgid)])[..|steps|] == steps;
  }

  // What a thread bound to signal a group can do at once.
  lemma DutyStep(steps: seq<Step>, pgid: int) returns (step: Step)
    requires IsRun(steps) && (pgid in After(steps).toSignal || pgid in After(steps).terminating)
    ensures step.Signal? || step.Terminate?
    ensures IsRun(steps + [step])
    ensures var s, t := After(steps), After(steps + [step]);
      |t.toSignal| + |t.terminating| < |s.toSignal| + |s.terminating| &&
      s.signalled + s.toSignal + s.terminating <= t.signalled + t.toSignal + t.terminating
  {
    step := if pgid in After(steps).toSignal then Signal(pgid) else Terminate(pgid);
    assert (steps + [step])[..|steps|] == steps;
  }

  lemma {:induction false} Settle(steps: seq<Step>) returns (more: seq<Step>)
    requires IsRun(steps)
    ensures IsRun(steps + more) && forall step :: step in more ==> step.Signal? || step.Terminate?
    ensures var s, t := After(steps), After(steps + more);
      (forall pgid :: pgid !in t.toSignal + t.terminating) &&
      (forall pgid :: pgid in s.signalled + s.toSignal + s.terminating ==> pgid in t.signalled)
    decreases |After(steps).toSignal| + |After(steps).terminating|
  {
    hide After, IsRun;
    if pgid :| pgid in After(steps).toSignal || pgid in After(steps).terminating {
      var step := DutyStep(steps, pgid);
      var later := Settle(steps + [step]);
      more := [step] + later;
      assert steps + more == steps + [step] + later;
    } else {
      more := [];
      assert steps + [] == steps;
    }
  }

  // A cancellation can be requested at any moment, and then, by nothing but the signals
  // that threads already owe, every group that was live is signalled.
  lemma CancellationReaches(steps: seq<Step>, code: Code) returns (more: seq<Step>)
    requires IsRun(steps)
    ensures IsRun(steps + [Request(code)] + more)
    ensures forall step :: step in more ==> step.Signal? || step.Terminate?
    ensures forall pgid :: pgid in After(steps).live ==> pgid in After(steps + [Request(code)] + more).signalled
  {
    assert (steps + [Request(code)])[..|steps|] == steps;
    NoChildEscapes(steps + [Request(code)]);
    more := Settle(steps + [Request(code)]);
  }

  function Severest(steps: seq<Step>): Code
  {
    if Request(ProtocolError) in steps then ProtocolError
    else if Request(Timeout) in steps then Timeout
    else Cancelled
  }

  // The code reported is the most severe one requested, whatever the order.
  lemma {:induction false} CodeIsSeverest(steps: seq<Step>)
    ensures After(steps).globals.code == Severest(steps)
    ensures After(steps).globals.requested <==> exists code :: Request(code) in steps
  {
    if steps != [] {
      var init, last := steps[..|steps| - 1], steps[|steps| - 1];
      CodeIsSeverest(init);
      assert forall step :: step in steps <==> step in init || step == last;
      if last.Request? {
        assert Request(last.code) in steps;
        EscalateIsMax(After(init).globals.code, last.code);
      }
    }
  }
}
