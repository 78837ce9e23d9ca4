// The authenticated session as two processes stepping over two byte pipes: the
// broker's StartupSession on one side, startup.py's main and run_session on the
// other. Every step moves one byte or makes one decision, so all fragmentations
// and interleavings are runs of the model.
module SessionModel {
  import opened Strings
  import opened Framing
  import opened SessionTransport
  import ControlMonitor
  import P = StartupParser

  const COMMAND_LIMIT := 16384
  // The cancel frame is short: three bytes of its header are zero.
  const CANCEL_LIMIT := 255

  // What a terminal or progress message says about its request.
  datatype Message = Progress(identity: Identity) | Reply(identity: Identity)

  // The fixed data of one session: its id, the JSON codecs, the three messages the
  // broker writes outside requests, and what the helper writes during startup.
  datatype World = World(
    session: Id, codec: Codec, startup: P.Decoder,
    requestOf: Bytes -> Option<Identity>, messageOf: Bytes -> Option<Message>,
    initial: Bytes, start: Bytes, cancel: Bytes, script: seq<Bytes>)
  {
    function Helper(): Receiver
    {
      Receiver(codec, REQUESTS, session, None)
    }

    function Broker(identity: Identity): Receiver
    {
      Receiver(codec, RESPONSES, session, Some(identity))
    }

    // ready, result pages, done, navigation-ready
    ghost predicate IsScript()
    {
      var n := |script|;
      n >= 3 && AllSendable(script, P.MAX_STARTUP_FRAME_BYTES) &&
      P.RunPayloads(startup, Fresh(), script).error.None? &&
      (forall i :: 0 <= i < n ==> startup(script[i]).Some?) &&
      KindAt(0) == P.Ready && KindAt(n - 2) == P.Done && KindAt(n - 1) == P.NavigationReady &&
      forall i :: 1 <= i < n - 2 ==> KindAt(i) == P.ResultPage
    }

    function Fresh(): P.State
    {
      P.State([], false, false, false, Some(session))
    }

    function KindAt(i: nat): P.Kind
      requires i < |script|
    {
      match startup(script[i])
      case None => P.Unknown
      case Some(value) => value.kind
    }

    // JSON texts of different types are different objects, and none holds a NUL byte.
    ghost predicate Lawful()
    {
      codec.Lawful() && IsScript() &&
      (forall raw :: requestOf(raw).Some? ==>
        requestOf(raw).value.request != 0 && requestOf(raw).value.operation in PHASE2_OPERATIONS && 0 !in raw) &&
      (forall raw :: codec.decode(raw).Some? ==> 0 !in raw) &&
      (forall e: Envelope :: Built(e) ==> requestOf(codec.encode(e)).None? && messageOf(codec.encode(e)).None?) &&
      Sendable(initial, COMMAND_LIMIT) && Sendable(start, COMMAND_LIMIT) && Sendable(cancel, CANCEL_LIMIT) &&
      initial != cancel && start != cancel &&
      requestOf(cancel).None? && codec.decode(cancel).None? && 0 !in cancel
    }
  }

  datatype Request = Request(identity: Identity, raw: Bytes)

  ghost predicate ValidRequest(w: World, request: Request)
  {
    request.identity.request != 0 && request.identity.operation in PHASE2_OPERATIONS &&
    0 < |request.raw| <= REQUESTS.assembledLimit && w.requestOf(request.raw) == Some(request.identity)
  }

  ghost predicate ValidReply(w: World, identity: Identity, reply: Bytes)
  {
    0 < |reply| <= RESPONSES.assembledLimit && w.messageOf(reply) == Some(Reply(identity))
  }

  function RequestFrames(w: World, request: Request): seq<Bytes>
  {
    FramesOf(w.codec, REQUESTS, w.session, request.identity, request.raw)
  }

  function ReplyFrames(w: World, identity: Identity, reply: Bytes): seq<Bytes>
  {
    FramesOf(w.codec, RESPONSES, w.session, identity, reply)
  }

  // ---------- reading exactly one frame, a byte at a time ----------

  datatype Reading = More(buffer: Bytes) | Got(payload: Bytes) | Bad

  function ReadByte(buffer: Bytes, next: byte, limit: nat): Reading
  {
    var grown := buffer + [next];
    if |grown| < FRAME_HEADER_BYTES then More(grown)
    else
      var length := FromBigEndian(grown[..FRAME_HEADER_BYTES]);
      if length == 0 || length > limit then Bad
      else if |grown| < FRAME_HEADER_BYTES + length then More(grown)
      else Got(grown[FRAME_HEADER_BYTES..])
  }

  // ---------- what each side makes of a whole frame ----------

  datatype Served = Await(a: Assembly) | Serve(request: Request) | Hangup

  // _decode_session_request_from_first: a direct request, or one more chunk.
  function HelperAccept(w: World, a: Assembly, payload: Bytes): Served
  {
    if a.Fresh? && w.requestOf(payload).Some? then Serve(Request(w.requestOf(payload).value, payload))
    else
      match w.Helper().Absorb(a, payload)
      case Fresh => Hangup
      case Partial(_, _, _, _) => Await(w.Helper().Absorb(a, payload))
      case Complete(_, _, data) =>
        if w.requestOf(data).Some? then Serve(Request(w.requestOf(data).value, data)) else Hangup
      case Failed(_) => Hangup
  }

  datatype Taken = Note | Continue(a: Assembly) | Return(reply: Bytes) | Broken

  // The loop body of StartupSession.request for one frame.
  function BrokerAccept(w: World, identity: Identity, a: Assembly, payload: Bytes): Taken
  {
    if a.Fresh? && w.messageOf(payload).Some? then
      match w.messageOf(payload).value
      case Progress(id) => if id == identity then Note else Broken
      case Reply(id) => if id == identity then Return(payload) else Broken
    else
      match w.Broker(identity).Absorb(a, payload)
      case Fresh => Broken
      case Partial(_, _, _, _) => Continue(w.Broker(identity).Absorb(a, payload))
      case Complete(_, _, data) =>
        if w.messageOf(data) == Some(Reply(identity)) then Return(data) else Broken
      case Failed(_) => Broken
  }

  // ---------- states ----------

  datatype ClientPhase =
    | Connecting | AwaitReady | HasReady | Starting | Events
    | Idle | Sending(request: Request) | Receiving(request: Request, a: Assembly, progress: seq<Bytes>)
    | Closed(eof: bool) | BrokenClient

  datatype HelperPhase =
    | ReadInitial | Provisioning | ReadyOut | ReadStart | Planning | NavigationOut
    | ReadRequest(a: Assembly) | Running(request: Request, progress: seq<Bytes>) | Replying | Ended

  datatype Exchange = Exchange(request: Request, progress: seq<Bytes>, reply: Bytes)

  // `spliced` records that a cancel frame went out before other bytes of a request,
  // `unsent` what of a cancel frame never went out, and `dropped` what of it a control
  // monitor had consumed when it was stopped.
  // `inbound` and `outbound` are the payloads written but not yet read whole; `flight`
  // is the request the broker has issued and the helper has not accepted; `emitted`
  // and `popped` count the startup script. They only record what happened.
  datatype State = State(
    client: ClientPhase, clientOut: Bytes, clientIn: Bytes, parser: P.State, pending: seq<P.Value>,
    helper: HelperPhase, helperOut: Bytes, helperIn: Bytes, monitored: Bytes,
    toHelper: Bytes, toClient: Bytes,
    returned: seq<Exchange>, served: seq<Exchange>,
    emitted: nat, popped: nat, inbound: seq<Bytes>, outbound: seq<Bytes>, flight: Option<Request>,
    spliced: bool, unsent: Bytes, dropped: Bytes)

  predicate MonitorActive(helper: HelperPhase)
  {
    helper.Provisioning? || helper.Planning? || helper.Running?
  }

  predicate HelperReads(helper: HelperPhase)
  {
    helper.ReadInitial? || helper.ReadStart? || helper.ReadRequest?
  }

  predicate StartupReads(client: ClientPhase)
  {
    client.AwaitReady? || client.Events?
  }

  function Tail<T>(s: seq<T>): seq<T>
  {
    if s == [] then [] else s[1..]
  }

  ghost predicate Init(w: World, s: State)
  {
    s == State(Connecting, Frame(w.initial), [], w.Fresh(), [],
               ReadInitial, [], [], [], [], [], [], [], 0, 0, [w.initial], [], None, false, [], [])
  }

  // ---------- steps ----------

  datatype Step =
    | ClientWrite | HelperWrite | ClientRead | HelperRead | MonitorRead
    | ClientAdvance | HelperAdvance
    | SendRequest(request: Request) | EmitProgress(payload: Bytes) | EmitReply(reply: Bytes)
    | Cancel(at: nat, sent: nat, upTo: nat) | Drain | Checkpoint(answer: Bytes) | HelperEof

  function HelperLimit(helper: HelperPhase): nat
  {
    if helper.ReadRequest? then REQUESTS.frameLimit else COMMAND_LIMIT
  }

  function HelperGot(w: World, s: State, payload: Bytes): State
  {
    var t := s.(helperIn := [], inbound := Tail(s.inbound));
    match s.helper
    case ReadInitial => t.(helper := if payload == w.initial then Provisioning else Ended)
    case ReadStart => t.(helper := if payload == w.start then Planning else Ended)
    case ReadRequest(a) =>
      (match HelperAccept(w, a, payload)
       case Await(b) => t.(helper := ReadRequest(b))
       case Serve(request) => t.(helper := Running(request, []), flight := None)
       case Hangup => t.(helper := Ended))
    case _ => t
  }

  function DoHelperRead(w: World, s: State): State
    requires s.toHelper != []
  {
    var t := s.(toHelper := s.toHelper[1..]);
    match ReadByte(s.helperIn, s.toHelper[0], HelperLimit(s.helper))
    case More(buffer) => t.(helperIn := buffer)
    case Got(payload) => HelperGot(w, t, payload)
    case Bad => t.(helper := Ended)
  }

  function ClientGot(w: World, s: State, payload: Bytes): State
    requires s.client.Receiving?
  {
    var Receiving(request, a, progress) := s.client;
    var t := s.(clientIn := [], outbound := Tail(s.outbound));
    match BrokerAccept(w, request.identity, a, payload)
    case Note => t.(client := Receiving(request, Assembly.Fresh, progress + [payload]))
    case Continue(b) => t.(client := Receiving(request, b, progress))
    case Return(reply) => t.(client := Idle, returned := s.returned + [Exchange(request, progress, reply)])
    case Broken => t.(client := BrokenClient)
  }

  function DoClientRead(w: World, s: State): State
    requires s.toClient != [] && (StartupReads(s.client) || s.client.Receiving?)
  {
    var t := s.(toClient := s.toClient[1..]);
    if StartupReads(s.client) then
      var run := P.Run(w.startup, s.parser, [s.toClient[0]]);
      if run.error.Some? then t.(client := BrokenClient)
      else
        t.(parser := run.state, pending := s.pending + run.frames,
           outbound := if run.frames == [] then s.outbound else Tail(s.outbound))
    else
      match ReadByte(s.clientIn, s.toClient[0], RESPONSES.frameLimit)
      case More(buffer) => t.(clientIn := buffer)
      case Got(payload) => ClientGot(w, t, payload)
      case Bad => t.(client := BrokenClient)
  }

  // begin_startup, start, events and request, between their reads and writes.
  function DoClientAdvance(w: World, s: State): State
  {
    match s.client
    case Connecting => if s.clientOut == [] then s.(client := AwaitReady) else s
    case AwaitReady =>
      if s.pending == [] then s
      else if s.pending[0].kind == P.Ready then
        s.(client := HasReady, pending := s.pending[1..], popped := s.popped + 1)
      else s.(client := BrokenClient)
    case HasReady =>
      s.(client := Starting, clientOut := Frame(w.start), inbound := s.inbound + [w.start])
    case Starting => if s.clientOut == [] then s.(client := Events) else s
    case Events =>
      if s.pending == [] then s
      else if s.pending[0].kind == P.NavigationReady then
        s.(client := Idle, pending := s.pending[1..], popped := s.popped + 1)
      else if s.pending[0].kind == P.ResultPage || s.pending[0].kind == P.Done then
        s.(pending := s.pending[1..], popped := s.popped + 1)
      else s.(client := BrokenClient)
    case Sending(request) =>
      if s.clientOut == [] then s.(client := Receiving(request, Assembly.Fresh, [])) else s
    case Closed(_) => if s.clientOut == [] then s.(client := Closed(true)) else s
    case _ => s
  }

  function Emit(w: World, s: State): State
    requires s.emitted < |w.script|
  {
    s.(helperOut := Frame(w.script[s.emitted]), outbound := s.outbound + [w.script[s.emitted]],
       emitted := s.emitted + 1)
  }

  // Stopping the monitor: what it has consumed of a control frame is gone.
  function Unmonitored(s: State): State
  {
    if s.monitored == [] then s else s.(monitored := [], dropped := s.monitored)
  }

  // main and run_session between their reads and writes.
  function DoHelperAdvance(w: World, s: State): State
  {
    match s.helper
    case Provisioning => if s.emitted < |w.script| then Emit(w, Unmonitored(s)).(helper := ReadyOut) else s
    case ReadyOut => if s.helperOut == [] then s.(helper := ReadStart) else s
    case Planning =>
      if s.helperOut != [] || s.emitted >= |w.script| then s
      else if s.emitted < |w.script| - 1 then Emit(w, s)
      else Emit(w, Unmonitored(s)).(helper := NavigationOut)
    case NavigationOut => if s.helperOut == [] then s.(helper := ReadRequest(Assembly.Fresh)) else s
    case Replying => if s.helperOut == [] then s.(helper := ReadRequest(Assembly.Fresh)) else s
    case _ => s
  }

  // The monitor requests a cancellation for a frame that is complete or cannot be one.
  predicate Requested(monitored: Bytes)
  {
    FRAME_HEADER_BYTES <= |monitored| &&
    var length := FromBigEndian(monitored[..FRAME_HEADER_BYTES]);
    length == 0 || length > ControlMonitor.MAX_CONTROL_FRAME_BYTES || FRAME_HEADER_BYTES + length <= |monitored|
  }

  // The broker has closed the pipe and all it wrote has been read.
  predicate AtEof(s: State)
  {
    s.client == Closed(true) && s.clientOut == [] && s.toHelper == []
  }

  // A cancelled operation fails at its next checkpoint: a request is answered with an
  // error instead, before that the helper ends.
  function DoCheckpoint(s: State, answer: Bytes): State
  {
    if s.helper.Running? then Unmonitored(s).(helper := Replying, helperOut := Frame(answer))
    else s.(helper := Ended)
  }

  // Requests are written without the lock that cancel takes, so its frame can land
  // anywhere among the bytes of a request; of those behind it only some get out
  // before the pipe is closed. Startup messages are written under the lock. The cancel
  // frame itself has a deadline, after which none or only a part of it is `sent` and
  // the pipe is closed. The broker throws away what the helper still writes. The helper
  // checks for a cancellation when it reports progress and may miss it when it replies.
  ghost predicate Enabled(w: World, s: State, step: Step)
  {
    match step
    case ClientWrite => s.clientOut != []
    case HelperWrite => s.helperOut != []
    case ClientRead => s.toClient != [] && (StartupReads(s.client) || s.client.Receiving?)
    case HelperRead => s.toHelper != [] && HelperReads(s.helper)
    case MonitorRead => s.toHelper != [] && MonitorActive(s.helper)
    case ClientAdvance => true
    case HelperAdvance => true
    case SendRequest(request) => s.client.Idle? && ValidRequest(w, request)
    case EmitProgress(payload) =>
      s.helper.Running? && s.helperOut == [] && !Requested(s.monitored) &&
      Sendable(payload, P.MAX_STARTUP_FRAME_BYTES) &&
      w.messageOf(payload) == Some(Progress(s.helper.request.identity))
    case EmitReply(reply) =>
      s.helper.Running? && s.helperOut == [] &&
      s.helper.request.identity.operation in PHASE2_OPERATIONS &&
      ValidReply(w, s.helper.request.identity, reply)
    case Cancel(at, sent, upTo) =>
      !s.client.Closed? && !s.client.BrokenClient? &&
      at <= upTo <= |s.clientOut| && (at < |s.clientOut| ==> s.client.Sending?) &&
      sent <= |Frame(w.cancel)| && (sent < |Frame(w.cancel)| ==> upTo == at)
    case Drain => s.client.Closed? && s.toClient != []
    case Checkpoint(answer) =>
      MonitorActive(s.helper) && (Requested(s.monitored) || AtEof(s)) && Sendable(answer, RESPONSES.frameLimit)
    case HelperEof => HelperReads(s.helper) && AtEof(s)
  }

  ghost function Do(w: World, s: State, step: Step): State
    requires Enabled(w, s, step)
  {
    match step
    case ClientWrite => s.(clientOut := s.clientOut[1..], toHelper := s.toHelper + [s.clientOut[0]])
    case HelperWrite => s.(helperOut := s.helperOut[1..], toClient := s.toClient + [s.helperOut[0]])
    case ClientRead => DoClientRead(w, s)
    case HelperRead => DoHelperRead(w, s)
    case MonitorRead => s.(monitored := s.monitored + [s.toHelper[0]], toHelper := s.toHelper[1..])
    case ClientAdvance => DoClientAdvance(w, s)
    case HelperAdvance => DoHelperAdvance(w, s)
    case SendRequest(request) =>
      var frames := RequestFrames(w, request);
      s.(client := Sending(request), clientOut := Stream(frames),
         inbound := s.inbound + frames, flight := Some(request))
    case EmitProgress(payload) =>
      s.(helper := s.helper.(progress := s.helper.progress + [payload]),
         helperOut := Frame(payload), outbound := s.outbound + [payload])
    case EmitReply(reply) =>
      var Running(request, progress) := s.helper;
      var frames := ReplyFrames(w, request.identity, reply);
      Unmonitored(s).(helper := Replying, helperOut := Stream(frames),
         outbound := s.outbound + frames, served := s.served + [Exchange(request, progress, reply)])
    case Cancel(at, sent, upTo) =>
      s.(client := Closed(false),
         clientOut := s.clientOut[..at] + Frame(w.cancel)[..sent] + s.clientOut[at..upTo],
         unsent := Frame(w.cancel)[sent..],
         inbound := s.inbound + [w.cancel], spliced := at < |s.clientOut|)
    case Drain => s.(toClient := s.toClient[1..])
    case Checkpoint(answer) => DoCheckpoint(s, answer)
    case HelperEof => s.(helper := Ended)
  }

  ghost predicate Next(w: World, s: State, s': State)
  {
    exists step :: Enabled(w, s, step) && s' == Do(w, s, step)
  }

  // A run of any length.
  ghost predicate Run(w: World, states: seq<State>)
  {
    states != [] && Init(w, states[0]) &&
    forall i :: 0 <= i < |states| - 1 ==> Next(w, states[i], states[i + 1])
  }
}
