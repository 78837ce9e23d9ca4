// Liveness of the session: under every schedule, and with pipes of any size, a request
// reaches the helper, its reply reaches the broker, and a cancellation ends the helper.
module SessionProgress {
  import opened Strings
  import opened Framing
  import opened SessionTransport
  import opened SessionModel
  import opened SessionInvariant
  import opened SessionSafety
  import SessionDropped
  import P = StartupParser

  // ---------- every move brings the session closer to rest ----------

  // What the frames still to be emitted will cost.
  function ScriptLeft(w: World, from: nat): nat
    decreases |w.script| - from
  {
    if from >= |w.script| then 0 else 3 * |Frame(w.script[from])| + 1 + ScriptLeft(w, from + 1)
  }

  function ClientLeft(w: World, client: ClientPhase): nat
  {
    var start := 786_448 * |Frame(w.start)|;
    match client
    case Connecting => start + 7
    case AwaitReady => start + 6
    case HasReady => start + 5
    case Starting => 4
    case Events => 3
    case Sending(_) => 2
    case Receiving(_, _, _) => 1
    case Closed(eof) => if eof then 0 else 1
    case _ => 0
  }

  function HelperLeft(helper: HelperPhase): nat
  {
    match helper
    case ReadInitial => 7
    case Provisioning => 6
    case ReadyOut => 5
    case ReadStart => 4
    case Planning => 3
    case NavigationOut => 2
    case Replying => 2
    case Running(_, _) => 786_447
    case Ended => 0
    case _ => 1
  }

  // Bytes weigh more the further they have to go, and those sent to the helper may yet
  // cause an error reply, a frame of up to 262144 bytes.
  function Measure(w: World, s: State): nat
  {
    3 * |s.helperOut| + 2 * |s.toClient| + |s.pending| + 786_448 * |s.clientOut| + 786_447 * |s.toHelper| +
    ClientLeft(w, s.client) + HelperLeft(s.helper) + ScriptLeft(w, s.emitted)
  }

  lemma OneFrameAtMost(decode: P.Decoder, s: P.State, next: byte)
    ensures |P.Run(decode, s, [next]).frames| <= 1
  {
    hide P.Validate, FromBigEndian;
    assert [next][1..] == [];
  }

  lemma ClientReadShrinks(w: World, s: State)
    requires s.toClient != [] && (StartupReads(s.client) || s.client.Receiving?)
    ensures Measure(w, DoClientRead(w, s)) < Measure(w, s)
  {
    hide ScriptLeft, P.Run, Frame, BrokerAccept, ReadByte;
    if StartupReads(s.client) {
      OneFrameAtMost(w.startup, s.parser, s.toClient[0]);
    }
  }

  lemma HelperReadShrinks(w: World, s: State)
    requires s.toHelper != [] && HelperReads(s.helper)
    ensures Measure(w, DoHelperRead(w, s)) < Measure(w, s)
  {
    hide ScriptLeft, Frame, HelperAccept, ReadByte;
  }

  lemma HelperAdvanceShrinks(w: World, s: State)
    ensures DoHelperAdvance(w, s) != s ==> Measure(w, DoHelperAdvance(w, s)) < Measure(w, s)
  {
    hide Frame, ClientLeft, ScriptLeft, Measure, HelperLeft;
    var t := DoHelperAdvance(w, s);
    LaterHelper();
    if t.emitted == s.emitted {
      QuietShrinks(w, s, t);
    } else {
      EmitShrinks(w, s, t);
    }
  }

  lemma LaterHelper()
    ensures HelperLeft(ReadyOut) <= HelperLeft(Provisioning) && HelperLeft(ReadStart) < HelperLeft(ReadyOut)
    ensures HelperLeft(NavigationOut) <= HelperLeft(Planning)
    ensures HelperLeft(ReadRequest(Assembly.Fresh)) < HelperLeft(NavigationOut) == HelperLeft(Replying)
  {
  }

  lemma QuietShrinks(w: World, s: State, t: State)
    requires t == s || (t == s.(helper := t.helper) && HelperLeft(t.helper) < HelperLeft(s.helper))
    ensures t != s ==> Measure(w, t) < Measure(w, s)
  {
    hide ClientLeft, HelperLeft, ScriptLeft;
  }

  // An emitted frame was accounted for by the script.
  lemma EmitShrinks(w: World, s: State, t: State)
    requires s.emitted < |w.script| && t.emitted == s.emitted + 1 && t.helperOut == Frame(w.script[s.emitted])
    requires t.toClient == s.toClient && t.pending == s.pending && t.clientOut == s.clientOut
    requires t.toHelper == s.toHelper && t.client == s.client && HelperLeft(t.helper) <= HelperLeft(s.helper)
    ensures Measure(w, t) < Measure(w, s)
  {
    hide Frame, ClientLeft, HelperLeft;
  }

  lemma ClientAdvanceShrinks(w: World, s: State)
    ensures DoClientAdvance(w, s) != s ==> Measure(w, DoClientAdvance(w, s)) < Measure(w, s)
  {
    hide Frame, ScriptLeft, HelperLeft, Measure, ClientLeft;
    var t := DoClientAdvance(w, s);
    if s.client.HasReady? {
      StartShrinks(w, s);
    } else if t != s {
      LaterPhase(w, s.client);
      SmallerPhase(w, s, t);
    }
  }

  lemma LaterPhase(w: World, client: ClientPhase)
    ensures match client
      case Connecting => ClientLeft(w, AwaitReady) < ClientLeft(w, client)
      case AwaitReady =>
        ClientLeft(w, HasReady) <= ClientLeft(w, client) && ClientLeft(w, BrokenClient) < ClientLeft(w, client)
      case Starting => ClientLeft(w, Events) < ClientLeft(w, client)
      case Events =>
        ClientLeft(w, Idle) <= ClientLeft(w, client) && ClientLeft(w, BrokenClient) < ClientLeft(w, client)
      case Sending(request) => ClientLeft(w, Receiving(request, Assembly.Fresh, [])) < ClientLeft(w, client)
      case Closed(eof) => eof || ClientLeft(w, Closed(true)) < ClientLeft(w, client)
      case _ => true
  {
    hide Frame;
  }

  lemma StartShrinks(w: World, s: State)
    requires s.client.HasReady?
    ensures Measure(w, DoClientAdvance(w, s)) < Measure(w, s)
  {
    hide Frame, ScriptLeft, HelperLeft;
  }

  lemma SmallerPhase(w: World, s: State, t: State)
    requires t.helperOut == s.helperOut && t.toClient == s.toClient && t.clientOut == s.clientOut
    requires t.toHelper == s.toHelper && t.helper == s.helper && t.emitted == s.emitted
    requires |t.pending| + ClientLeft(w, t.client) < |s.pending| + ClientLeft(w, s.client)
    ensures Measure(w, t) < Measure(w, s)
  {
    hide Frame, ScriptLeft, HelperLeft, ClientLeft;
  }

  lemma MoveShrinks(w: World, s: State, step: Step)
    requires Quiet(step) && Enabled(w, s, step) && Do(w, s, step) != s
    ensures Measure(w, Do(w, s, step)) < Measure(w, s)
  {
    hide ScriptLeft, DoClientRead, DoHelperRead, DoClientAdvance, DoHelperAdvance, HelperLeft, ClientLeft;
    match step
    case ClientRead => ClientReadShrinks(w, s);
    case HelperRead => HelperReadShrinks(w, s);
    case HelperAdvance => HelperAdvanceShrinks(w, s);
    case ClientAdvance => ClientAdvanceShrinks(w, s);
    case HelperEof => EndShrinks(w, s);
    case Checkpoint(answer) => CheckpointShrinks(w, s, answer);
    case _ =>
  }

  lemma EndShrinks(w: World, s: State)
    requires HelperReads(s.helper)
    ensures Measure(w, s.(helper := Ended)) < Measure(w, s)
  {
    hide Frame, ScriptLeft, ClientLeft;
  }

  lemma CheckpointShrinks(w: World, s: State, answer: Bytes)
    requires MonitorActive(s.helper) && Sendable(answer, RESPONSES.frameLimit)
    ensures Measure(w, DoCheckpoint(s, answer)) < Measure(w, s)
  {
    hide ScriptLeft, ClientLeft;
  }

  // ---------- schedules ----------

  ghost predicate Move(w: World, capacity: nat, s: State, s': State)
  {
    s' != s && exists step :: Quiet(step) && EnabledWithin(w, capacity, s, step) && s' == Do(w, s, step)
  }

  // A schedule of moves; it is over when nothing can move any more.
  ghost predicate Moves(w: World, capacity: nat, states: seq<State>)
  {
    states != [] && forall i :: 0 <= i < |states| - 1 ==> Move(w, capacity, states[i], states[i + 1])
  }

  lemma {:induction false} MovesAreBounded(w: World, capacity: nat, states: seq<State>, n: nat)
    requires Moves(w, capacity, states) && n < |states|
    ensures n + Measure(w, states[n]) <= Measure(w, states[0])
  {
    hide Measure, Do, Enabled;
    if n > 0 {
      MovesAreBounded(w, capacity, states, n - 1);
      assert Move(w, capacity, states[n - 1], states[n - 1 + 1]);
      var step :| Quiet(step) && EnabledWithin(w, capacity, states[n - 1], step) &&
        states[n] == Do(w, states[n - 1], step);
      MoveShrinks(w, states[n - 1], step);
    }
  }

  lemma OpenDropsNothing(w: World, s: State, step: Step)
    requires AlignedInv(w, s) && !s.client.Closed? && Enabled(w, s, step)
    ensures Do(w, s, step).dropped == []
  {
    hide HelperInv, ClientInv, Do, Enabled, World.Lawful;
    NothingMonitored(w, s);
    if Do(w, s, step).dropped != [] {
      SessionDropped.DropsMonitored(w, s, step);
    }
  }

  lemma QuietKeepsOpen(w: World, s: State, step: Step)
    requires w.Lawful() && AlignedInv(w, s) && !s.client.Closed? && Quiet(step) && Enabled(w, s, step)
    ensures AlignedInv(w, Do(w, s, step)) && !Do(w, s, step).client.Closed?
  {
    hide AlignedInv, World.Lawful;
    OpenDropsNothing(w, s, step);
    AlignedNext(w, s, step);
  }

  // ---------- a reply under way comes back ----------

  // The helper has answered everything it was sent.
  ghost predicate Answered(s: State)
  {
    s.flight.None? && s.inbound == [] && (s.helper.Replying? || s.helper == ReadRequest(Assembly.Fresh))
  }

  lemma KeepAnswered(w: World, s: State, step: Step)
    requires AlignedInv(w, s) && !s.client.Closed? && Answered(s) && Quiet(step) && Enabled(w, s, step)
    ensures Answered(Do(w, s, step))
  {
    hide ScriptInv, SessionInv, PartOf, HelperInv, DoClientRead, DoHelperRead, Frame, EmittedFor;
    NothingInbound(w, s);
    if step.ClientRead? {
      ClientReadKeepsHelper(w, s);
    }
  }

  lemma ClientReadKeepsHelper(w: World, s: State)
    requires s.toClient != [] && (StartupReads(s.client) || s.client.Receiving?)
    ensures var t := DoClientRead(w, s); t.helper == s.helper && t.flight == s.flight && t.inbound == s.inbound
  {
    hide BrokerAccept, ReadByte, P.Run;
  }

  lemma NothingInbound(w: World, s: State)
    requires HelperInv(w, s) && !s.helper.Ended? && s.inbound == []
    ensures s.toHelper == [] && s.monitored == []
  {
    hide PhaseInv, PartOf;
    StreamEmpty(s.inbound);
  }

  // ---------- a request under way arrives ----------

  ghost predicate Travelling(s: State, request: Request)
  {
    Asks(s.client, request) &&
    (s.flight == Some(request) || (s.helper.Running? && s.helper.request == request))
  }

  predicate Asks(client: ClientPhase, request: Request)
  {
    (client.Sending? && client.request == request) || (client.Receiving? && client.request == request)
  }

  lemma ClientReadAsks(w: World, s: State, request: Request)
    requires s.toClient != [] && s.client.Receiving? && s.client.request == request
    ensures var t := DoClientRead(w, s);
      (Asks(t.client, request) || t.client.Idle? || t.client.BrokenClient?) &&
      t.helper == s.helper && t.flight == s.flight
  {
    hide BrokerAccept, ReadByte;
  }

  lemma ClientAdvanceAsks(w: World, s: State, request: Request)
    requires Asks(s.client, request)
    ensures var t := DoClientAdvance(w, s); Asks(t.client, request) && t.helper == s.helper && t.flight == s.flight
  {
  }

  // Only serving it ends a request's flight.
  lemma HelperReadFlight(w: World, s: State)
    requires s.toHelper != [] && HelperReads(s.helper)
    ensures var t := DoHelperRead(w, s);
      t.client == s.client && (t.flight == s.flight || (t.flight.None? && t.helper.Running?))
  {
    hide HelperAccept, ReadByte;
  }

  lemma HelperAdvanceFlight(w: World, s: State)
    ensures var t := DoHelperAdvance(w, s);
      t.client == s.client && t.flight == s.flight && (s.helper.Running? ==> t.helper == s.helper || t.helper.Ended?)
  {
    hide Frame;
  }

  lemma KeepTravelling(w: World, s: State, step: Step, request: Request)
    requires w.Lawful() && AlignedInv(w, s) && !s.client.Closed? && Quiet(step) && Enabled(w, s, step)
    requires Travelling(s, request)
    ensures Travelling(Do(w, s, step), request)
  {
    hide AlignedInv, World.Lawful, DoClientRead, DoClientAdvance, DoHelperRead, DoHelperAdvance;
    QuietKeepsOpen(w, s, step);
    StillExpected(w, Do(w, s, step), request);
    match step
    case ClientRead => ClientReadAsks(w, s, request);
    case ClientAdvance => ClientAdvanceAsks(w, s, request);
    case HelperRead => HelperReadFlight(w, s);
    case HelperAdvance => HelperAdvanceFlight(w, s);
    case Checkpoint(answer) => CheckpointIsLate(w, s, answer);
    case _ =>
  }

  // What the invariant leaves for a request that is not back yet.
  lemma StillExpected(w: World, s: State, request: Request)
    requires AlignedInv(w, s) && !s.client.Closed?
    ensures !s.client.BrokenClient? && !s.helper.Ended?
    ensures s.client.Idle? ==> s.flight.None? && !s.helper.Running?
    ensures Asks(s.client, request) && s.helper.Running? ==> s.helper.request == request
  {
    hide HelperInv, ScriptInv, PartOf, ReplyUnderWay, AllProgress, ValidReply, ValidRequest;
  }

  // ---------- what a schedule keeps ----------

  lemma QuietServesNothing(w: World, s: State, step: Step)
    requires Quiet(step) && Enabled(w, s, step)
    ensures Do(w, s, step).served == s.served
  {
    hide BrokerAccept, HelperAccept, ReadByte, Frame, P.Run;
  }

  lemma {:induction false} MovesKeep(w: World, capacity: nat, moves: seq<State>, n: nat, request: Request)
    requires w.Lawful() && Moves(w, capacity, moves) && n < |moves|
    requires AlignedInv(w, moves[0]) && !moves[0].client.Closed?
    ensures AlignedInv(w, moves[n]) && !moves[n].client.Closed? && moves[n].served == moves[0].served
    ensures Answered(moves[0]) ==> Answered(moves[n])
    ensures Travelling(moves[0], request) ==> Travelling(moves[n], request)
  {
    hide AlignedInv, World.Lawful, Answered, Travelling, Do, Enabled;
    if n > 0 {
      MovesKeep(w, capacity, moves, n - 1, request);
      var s := moves[n - 1];
      assert Move(w, capacity, moves[n - 1], moves[n - 1 + 1]);
      var step :| Quiet(step) && EnabledWithin(w, capacity, s, step) && moves[n] == Do(w, s, step);
      QuietKeepsOpen(w, s, step);
      QuietServesNothing(w, s, step);
      if Answered(s) {
        KeepAnswered(w, s, step);
      }
      if Travelling(s, request) {
        KeepTravelling(w, s, step, request);
      }
    }
  }

  // Every schedule of an uncancelled session ends after boundedly many moves, and it
  // ends with the broker between requests or the helper at work.
  lemma EveryScheduleEnds(w: World, capacity: nat, states: seq<State>, moves: seq<State>)
    requires w.Lawful() && Run(w, states) && 0 < capacity && Moves(w, capacity, moves)
    requires moves[0] == states[|states| - 1] && !moves[0].client.Closed?
    ensures |moves| - 1 <= Measure(w, moves[0])
    ensures var end := moves[|moves| - 1];
      !CanMove(w, capacity, end) ==> end.client.Idle? || end.helper.Running?
  {
    hide World.Lawful, AlignedInv, Do, Enabled, Measure, Init, Next, Move, Travelling, CanMove;
    var n := |moves| - 1;
    MovesAreBounded(w, capacity, moves, n);
    RunKeepsInv(w, states, |states| - 1);
    OpenSessionIsAligned(w, moves[0]);
    MovesKeep(w, capacity, moves, n, Request(Identity(0, ""), []));
    if !moves[n].client.Idle? && !moves[n].helper.Running? {
      AlignedMoves(w, capacity, moves[n]);
    }
  }

  // A helper at work whose messages are all delivered can answer.
  lemma RunningAtRest(w: World, capacity: nat, s: State)
    requires w.Lawful() && AlignedInv(w, s) && !s.client.Closed? && 0 < capacity
    requires s.helper.Running? && !CanMove(w, capacity, s)
    ensures s.helperOut == [] && s.monitored == []
  {
    hide World.Lawful, PipeInv, ScriptInv, ExchangeInv, PartOf, CanMove, DoClientRead, DoClientAdvance;
    NothingInbound(w, s);
    NothingUnsent(w, s);
    RunningHasClient(w, s);
    if s.helperOut != [] {
      if |s.toClient| < capacity {
        CanMoveBy(w, capacity, s, HelperWrite);
      } else if s.client.Receiving? {
        ReadConsumes(w, s);
        CanMoveBy(w, capacity, s, ClientRead);
      } else {
        SendingAdvances(w, s);
        CanMoveBy(w, capacity, s, ClientAdvance);
      }
    }
  }

  lemma CanMoveBy(w: World, capacity: nat, s: State, step: Step)
    requires Quiet(step) && EnabledWithin(w, capacity, s, step) && Do(w, s, step) != s
    ensures CanMove(w, capacity, s)
  {
    hide Do, Enabled;
  }

  lemma SendingAdvances(w: World, s: State)
    requires s.client.Sending? && s.clientOut == []
    ensures DoClientAdvance(w, s) != s
  {
  }

  lemma NothingUnsent(w: World, s: State)
    requires HelperInv(w, s) && !s.helper.Ended? && s.inbound == []
    ensures s.clientOut == []
  {
    hide PhaseInv, PartOf;
    StreamEmpty(s.inbound);
  }

  lemma RunningHasClient(w: World, s: State)
    requires AlignedInv(w, s) && s.helper.Running? && !s.client.Closed?
    ensures s.client.Sending? || s.client.Receiving?
  {
    hide HelperInv, ScriptInv, ExchangeInv, PartOf;
  }

  // A helper at work that is free to report progress and to answer.
  ghost predicate Free(w: World, s: State)
  {
    s.helper.Running? && s.helperOut == [] && s.monitored == [] &&
    (forall payload ::
       Sendable(payload, 65536) && w.messageOf(payload) == Some(Progress(s.helper.request.identity)) ==>
       Enabled(w, s, EmitProgress(payload))) &&
    forall reply :: ValidReply(w, s.helper.request.identity, reply) ==> Enabled(w, s, EmitReply(reply))
  }

  lemma FreeToAnswer(w: World, s: State)
    requires s.helper.Running? && s.helperOut == [] && s.monitored == []
    requires s.helper.request.identity.operation in PHASE2_OPERATIONS
    ensures Free(w, s)
  {
    hide World.Lawful, ValidReply;
  }

  // However the pipes are scheduled, a request that was sent ends up at the helper,
  // which is then free to answer it.
  lemma RequestArrives(w: World, capacity: nat, states: seq<State>, request: Request, moves: seq<State>)
    requires w.Lawful() && Run(w, states) && 0 < capacity && Moves(w, capacity, moves)
    requires Enabled(w, states[|states| - 1], SendRequest(request))
    requires moves[0] == Do(w, states[|states| - 1], SendRequest(request))
    ensures |moves| - 1 <= Measure(w, moves[0])
    ensures var end := moves[|moves| - 1];
      !CanMove(w, capacity, end) ==>
        end.helper.Running? && end.helper.request == request && Free(w, end)
  {
    hide World.Lawful, AlignedInv, Do, Enabled, Measure, Init, Next, Move, Travelling, CanMove;
    var s, n := states[|states| - 1], |moves| - 1;
    SentTravels(w, s, request);
    RunKeepsInv(w, states, |states| - 1);
    OpenSessionIsAligned(w, s);
    OpenDropsNothing(w, s, SendRequest(request));
    AlignedNext(w, s, SendRequest(request));
    MovesAreBounded(w, capacity, moves, n);
    MovesKeep(w, capacity, moves, n, request);
    TravellingEnds(moves[n], request);
    StillExpected(w, moves[n], request);
    if !moves[n].helper.Running? {
      AlignedMoves(w, capacity, moves[n]);
    } else if !CanMove(w, capacity, moves[n]) {
      RunningAtRest(w, capacity, moves[n]);
      FreeToAnswer(w, moves[n]);
    }
  }

  lemma SentTravels(w: World, s: State, request: Request)
    requires Enabled(w, s, SendRequest(request))
    ensures !s.client.Closed? && request.identity.operation in PHASE2_OPERATIONS
    ensures var t := Do(w, s, SendRequest(request)); Travelling(t, request) && !t.client.Closed?
  {
    hide World.Lawful, RequestFrames, Stream;
  }

  lemma TravellingEnds(s: State, request: Request)
    requires Travelling(s, request)
    ensures !s.client.Idle? && !s.client.Closed?
    ensures Asks(s.client, request)
  {
  }

  // And the reply to it comes back: the broker is between requests again, and what it
  // returned last is the request with its progress and its reply.
  lemma ReplyReturns(w: World, capacity: nat, states: seq<State>, reply: Bytes, moves: seq<State>)
    requires w.Lawful() && Run(w, states) && 0 < capacity && Moves(w, capacity, moves)
    requires var s := states[|states| - 1];
      !s.client.Closed? && Enabled(w, s, EmitReply(reply)) && moves[0] == Do(w, s, EmitReply(reply))
    ensures |moves| - 1 <= Measure(w, moves[0])
    ensures var s, end := states[|states| - 1], moves[|moves| - 1];
      s.helper.Running? &&
      (!CanMove(w, capacity, end) ==>
         end.client.Idle? &&
         end.returned == s.served + [Exchange(s.helper.request, s.helper.progress, reply)])
  {
    hide World.Lawful, AlignedInv, Do, Enabled, Measure, Init, Next, Move, Answered, CanMove;
    var s, n := states[|states| - 1], |moves| - 1;
    RunKeepsInv(w, states, |states| - 1);
    OpenSessionIsAligned(w, s);
    ReplyAnswers(w, s, reply);
    OpenDropsNothing(w, s, EmitReply(reply));
    AlignedNext(w, s, EmitReply(reply));
    MovesAreBounded(w, capacity, moves, n);
    MovesKeep(w, capacity, moves, n, s.helper.request);
    AnsweredEnds(moves[n]);
    if moves[n].client.Idle? {
      IdleReturnedAll(w, moves[n]);
    } else {
      AlignedMoves(w, capacity, moves[n]);
    }
  }

  lemma ReplyAnswers(w: World, s: State, reply: Bytes)
    requires AlignedInv(w, s) && !s.client.Closed? && Enabled(w, s, EmitReply(reply))
    ensures s.helper.Running?
    ensures var t := Do(w, s, EmitReply(reply));
      Answered(t) && !t.client.Closed? &&
      t.served == s.served + [Exchange(s.helper.request, s.helper.progress, reply)]
  {
    hide World.Lawful, ReplyFrames, Stream, PartOf, ClientInv;
  }

  lemma AnsweredEnds(s: State)
    requires Answered(s)
    ensures !s.helper.Running?
  {
  }

  lemma IdleReturnedAll(w: World, s: State)
    requires AlignedInv(w, s) && s.client.Idle?
    ensures s.returned == s.served
  {
    hide HelperInv, Stream, PartOf;
  }

  // ---------- a cancelled helper ends ----------

  lemma FlushMoves(w: World, capacity: nat, s: State) returns (step: Step)
    requires 0 < capacity && s.client.Closed?
    requires s.helper.ReadyOut? || s.helper.NavigationOut? || s.helper.Replying?
    ensures Quiet(step) && !step.ClientAdvance? && EnabledWithin(w, capacity, s, step) && Do(w, s, step) != s
  {
    hide World.Lawful;
    if s.helperOut == [] {
      step := HelperAdvance;
    } else if |s.toClient| < capacity {
      step := HelperWrite;
    } else {
      step := Drain;
    }
  }

  // As long as something is under way to a helper that has not ended, it can move.
  lemma BytesMove(w: World, capacity: nat, s: State) returns (step: Step)
    requires 0 < capacity && s.client.Closed? && !s.helper.Ended? && (s.toHelper != [] || s.clientOut != [])
    ensures Quiet(step) && !step.ClientAdvance? && EnabledWithin(w, capacity, s, step) && Do(w, s, step) != s
  {
    hide World.Lawful;
    if s.helper.ReadyOut? || s.helper.NavigationOut? || s.helper.Replying? {
      step := FlushMoves(w, capacity, s);
    } else if s.toHelper != [] && HelperReads(s.helper) {
      step := HelperRead;
      HelperReadConsumes(w, s);
    } else if s.toHelper != [] {
      step := MonitorRead;
    } else {
      step := ClientWrite;
    }
  }

  lemma CheckpointMoves(w: World, s: State)
    requires MonitorActive(s.helper) && (Requested(s.monitored) || AtEof(s))
    ensures Enabled(w, s, Checkpoint([0])) && Do(w, s, Checkpoint([0])) != s
  {
    hide World.Lawful, Frame;
  }

  // While a cancelled helper has not ended, something can still move.
  lemma CancelledMoves(w: World, capacity: nat, s: State)
    requires s.client.Closed? && !s.helper.Ended? && 0 < capacity
    ensures CanMove(w, capacity, s)
  {
    hide World.Lawful, Requested;
    var step: Step;
    if s.helper.ReadyOut? || s.helper.NavigationOut? || s.helper.Replying? {
      step := FlushMoves(w, capacity, s);
    } else if s.toHelper != [] || s.clientOut != [] {
      step := BytesMove(w, capacity, s);
    } else if s.client == Closed(false) {
      step := ClientAdvance;
    } else if HelperReads(s.helper) {
      step := HelperEof;
    } else {
      step := Checkpoint([0]);
      CheckpointMoves(w, s);
    }
    CanMoveBy(w, capacity, s, step);
  }

  // Without the end of file, only a helper that reads and misses a part of the cancel
  // frame can be left waiting.
  lemma FrameMoves(w: World, capacity: nat, s: State) returns (step: Step)
    requires w.Lawful() && Inv(w, s) && s.client.Closed? && !s.helper.Ended? && 0 < capacity
    requires s.unsent == [] && s.dropped == [] && !s.spliced
    ensures Quiet(step) && !step.ClientAdvance? && EnabledWithin(w, capacity, s, step) && Do(w, s, step) != s
  {
    hide World.Lawful, Inv, Frame;
    if s.helper.ReadyOut? || s.helper.NavigationOut? || s.helper.Replying? {
      step := FlushMoves(w, capacity, s);
    } else if s.toHelper != [] || s.clientOut != [] {
      step := BytesMove(w, capacity, s);
    } else {
      WholeFrameSeen(w, s);
      step := Checkpoint([0]);
      CheckpointMoves(w, s);
    }
  }

  // Once all bytes are read, a whole cancel frame is with the monitor.
  lemma WholeFrameSeen(w: World, s: State)
    requires w.Lawful() && Inv(w, s) && s.client.Closed? && !s.helper.Ended?
    requires s.unsent == [] && s.dropped == [] && !s.spliced && s.toHelper == [] && s.clientOut == []
    ensures HelperReads(s.helper) || MonitorActive(s.helper) ==> MonitorActive(s.helper) && Requested(s.monitored)
  {
    hide World.Lawful, Frame, PartOf, ClientInv;
    EmptyTail(s.helperIn);
    if HelperReads(s.helper) {
      PartOfAll(s.helperIn, s.inbound);
    } else if MonitorActive(s.helper) {
      SessionDropped.MonitoredFrame(w, s);
      assert s.monitored + [] + [] + [] == s.monitored + [];
      SessionDropped.RequestedIsWhole(w, s.monitored, []);
    }
  }

  lemma QuietStaysClosed(w: World, s: State, step: Step)
    requires s.client.Closed? && Quiet(step) && Enabled(w, s, step)
    ensures Do(w, s, step).client.Closed?
  {
    hide HelperAccept, ReadByte, Frame;
  }

  lemma {:induction false} CancelledKeeps(w: World, capacity: nat, moves: seq<State>, n: nat)
    requires w.Lawful() && Moves(w, capacity, moves) && n < |moves|
    requires Inv(w, moves[0]) && moves[0].client.Closed?
    ensures Inv(w, moves[n]) && moves[n].client.Closed?
  {
    hide Inv, World.Lawful, Do, Enabled;
    if n > 0 {
      CancelledKeeps(w, capacity, moves, n - 1);
      var s := moves[n - 1];
      assert Move(w, capacity, moves[n - 1], moves[n - 1 + 1]);
      var step :| Quiet(step) && EnabledWithin(w, capacity, s, step) && moves[n] == Do(w, s, step);
      NextKeepsInv(w, s, step);
      QuietStaysClosed(w, s, step);
    }
  }

  // Once the broker has cancelled and closes, every schedule ends after boundedly many
  // moves, and it ends with the helper ended: from every phase of the helper, with pipes
  // of any size, and also when the cancel frame has cut a request.
  lemma CancelledHelperEnds(w: World, capacity: nat, states: seq<State>, moves: seq<State>)
    requires w.Lawful() && Run(w, states) && 0 < capacity && Moves(w, capacity, moves)
    requires moves[0] == states[|states| - 1] && moves[0].client.Closed?
    ensures |moves| - 1 <= Measure(w, moves[0])
    ensures !CanMove(w, capacity, moves[|moves| - 1]) ==> moves[|moves| - 1].helper.Ended?
  {
    hide World.Lawful, Inv, Do, Enabled, Measure, Init, Next, Move, CanMove;
    var n := |moves| - 1;
    MovesAreBounded(w, capacity, moves, n);
    RunKeepsInv(w, states, |states| - 1);
    CancelledKeeps(w, capacity, moves, n);
    if !moves[n].helper.Ended? {
      CancelledMoves(w, capacity, moves[n]);
    }
  }

  // Something other than closing the pipe can move.
  ghost predicate MovesOpen(w: World, capacity: nat, s: State)
  {
    exists step :: Quiet(step) && !step.ClientAdvance? && EnabledWithin(w, capacity, s, step) && Do(w, s, step) != s
  }

  // The cancel frame alone is enough: a schedule can stop short of the end of file only
  // with the helper ended, unless the frame did not get out whole, cut a request, or a
  // control monitor took exactly its first byte or at most three bytes less than all of
  // it along when its phase was over.
  lemma FrameAloneEnds(w: World, capacity: nat, states: seq<State>, moves: seq<State>)
    requires w.Lawful() && Run(w, states) && 0 < capacity && Moves(w, capacity, moves)
    requires moves[0] == states[|states| - 1] && moves[0].client.Closed?
    ensures var end := moves[|moves| - 1];
      !MovesOpen(w, capacity, end) ==>
        end.helper.Ended? || end.unsent != [] || end.spliced ||
        |end.dropped| == 1 || |end.dropped| > |w.cancel|
  {
    hide World.Lawful, Inv, Do, Enabled, Init, Next, Move;
    var end := moves[|moves| - 1];
    RunKeepsInv(w, states, |states| - 1);
    CancelledKeeps(w, capacity, moves, |moves| - 1);
    if !end.helper.Ended? && end.unsent == [] && !end.spliced {
      if end.dropped == [] {
        var step := FrameMoves(w, capacity, end);
        assert MovesOpen(w, capacity, end);
      } else if !MovesOpen(w, capacity, end) {
        DroppedAtRest(w, capacity, end);
        SessionDropped.WaitsFor(w, end);
      }
    }
  }

  lemma DroppedAtRest(w: World, capacity: nat, s: State)
    requires Inv(w, s) && s.client.Closed? && !s.helper.Ended? && !s.spliced && s.dropped != []
    requires 0 < capacity && !MovesOpen(w, capacity, s)
    ensures SessionDropped.DroppedInv(w, s) && HelperReads(s.helper) && s.toHelper == [] && s.clientOut == []
  {
    hide World.Lawful, HelperInv, Frame, Requested;
    if s.helper.ReadyOut? || s.helper.NavigationOut? || s.helper.Replying? {
      var step := FlushMoves(w, capacity, s);
    } else if s.toHelper != [] || s.clientOut != [] {
      var step := BytesMove(w, capacity, s);
    }
  }

  // Such a helper can really be left waiting: reading, it sees nothing before the end of file.
  lemma LeftWaiting(w: World, capacity: nat, s: State)
    requires s.client == Closed(false) && !s.helper.Ended? && s.toHelper == [] && s.clientOut == []
    requires s.toClient == [] && s.helperOut == []
    ensures HelperReads(s.helper) ==> !MovesOpen(w, capacity, s)
    ensures s.helper.Running? && !Requested(s.monitored) ==> !MovesOpen(w, capacity, s)
  {
    hide World.Lawful, Requested;
  }
}
