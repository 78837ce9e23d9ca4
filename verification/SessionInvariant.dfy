// The invariant of a session whose byte streams are whole frames, and that every
// step but a cancel frame inside a request keeps it.
module SessionInvariant {
  import opened Strings
  import opened Framing
  import opened SessionTransport
  import opened SessionModel
  import P = StartupParser

  // ---------- bytes under way ----------

  // `buffer` is a proper beginning of the first queued frame.
  ghost predicate PartOf(buffer: Bytes, queue: seq<Bytes>)
  {
    buffer == [] ||
    (queue != [] && |buffer| < |Frame(queue[0])| && buffer == Frame(queue[0])[..|buffer|])
  }

  lemma StreamFirst(queue: seq<Bytes>)
    requires queue != []
    ensures Stream(queue) == Frame(queue[0]) + Stream(queue[1..])
    ensures |Stream(queue)| >= FRAME_HEADER_BYTES
  {
  }

  lemma StreamEmpty(queue: seq<Bytes>)
    ensures Stream(queue) == [] <==> queue == []
  {
    if queue != [] {
      StreamFirst(queue);
    }
  }

  // One more byte of a well-aligned stream stays inside the first frame or ends it.
  lemma NextByte(buffer: Bytes, next: byte, rest: Bytes, queue: seq<Bytes>)
    requires PartOf(buffer, queue) && buffer + [next] + rest == Stream(queue)
    ensures queue != []
    ensures |buffer| < |Frame(queue[0])| && buffer + [next] == Frame(queue[0])[..|buffer| + 1]
    ensures |buffer| + 1 == |Frame(queue[0])| ==> buffer + [next] == Frame(queue[0]) && rest == Stream(queue[1..])
  {
    hide Frame;
    StreamEmpty(queue);
    StreamFirst(queue);
    var frame := Frame(queue[0]);
    var grown := buffer + [next];
    assert grown + rest == frame + Stream(queue[1..]);
    assert |grown| <= |frame| by { assert |frame| >= 1; }
    assert grown == (grown + rest)[..|grown|] == (frame + Stream(queue[1..]))[..|grown|];
    assert (frame + Stream(queue[1..]))[..|grown|] == frame[..|grown|];
    if |grown| == |frame| {
      assert rest == (grown + rest)[|grown|..] == (frame + Stream(queue[1..]))[|frame|..];
    }
  }

  lemma ReadAligned(buffer: Bytes, next: byte, rest: Bytes, queue: seq<Bytes>, limit: nat)
    requires PartOf(buffer, queue) && buffer + [next] + rest == Stream(queue)
    requires queue != [] ==> Sendable(queue[0], limit)
    ensures queue != []
    ensures var read := ReadByte(buffer, next, limit);
            (read.More? && read.buffer == buffer + [next] && PartOf(read.buffer, queue)) ||
            (read.Got? && read.payload == queue[0] && rest == Stream(queue[1..]))
  {
    hide FromBigEndian;
    hide Stream;
    NextByte(buffer, next, rest, queue);
    var frame := Frame(queue[0]);
    var grown := buffer + [next];
    FrameParts(queue[0]);
    if |grown| >= FRAME_HEADER_BYTES {
      assert grown[..FRAME_HEADER_BYTES] == frame[..FRAME_HEADER_BYTES];
    }
  }

  // The startup parser, fed one byte of a well-aligned stream.
  lemma ParseAligned(w: World, parser: P.State, next: byte, rest: Bytes, queue: seq<Bytes>)
    requires PartOf(parser.buffer, queue) && parser.buffer + [next] + rest == Stream(queue)
    requires queue != [] ==> Sendable(queue[0], P.MAX_STARTUP_FRAME_BYTES)
    ensures queue != []
    ensures var run := P.Run(w.startup, parser, [next]);
            if |parser.buffer| + 1 < |Frame(queue[0])| then
              run == P.Outcome(parser.(buffer := parser.buffer + [next]), [], None) &&
              PartOf(parser.buffer + [next], queue)
            else
              run == P.Accept(w.startup, parser.(buffer := []), queue[0]) && rest == Stream(queue[1..])
  {
    hide FromBigEndian;
    hide Stream;
    hide P.Accept;
    NextByte(parser.buffer, next, rest, queue);
    var frame := Frame(queue[0]);
    var grown := parser.buffer + [next];
    FrameParts(queue[0]);
    assert [next][1..] == [];
    var first := P.Settle(w.startup, parser.(buffer := grown));
    if |grown| >= FRAME_HEADER_BYTES {
      assert grown[..FRAME_HEADER_BYTES] == frame[..FRAME_HEADER_BYTES];
    }
    if |grown| == |frame| {
      assert grown[FRAME_HEADER_BYTES..|grown|] == queue[0] && grown[|grown|..] == [];
      assert first == P.Accept(w.startup, parser.(buffer := []), queue[0]);
    }
    if first.error.None? {
      assert P.Run(w.startup, parser, [next]) == P.Prepend(first.frames, P.Outcome(first.state, [], None));
      assert first.frames + [] == first.frames;
    }
  }

  // ---------- the invariant ----------

  // What the broker has written beyond a final cancel frame.
  function Typed(s: State): seq<Bytes>
  {
    if s.client.Closed? && s.inbound != [] then s.inbound[..|s.inbound| - 1] else s.inbound
  }

  // A request under way: the first j frames are absorbed, the others still in the pipe.
  ghost predicate UnderWay(w: World, request: Request, a: Assembly, typed: seq<Bytes>, j: nat)
  {
    var frames := RequestFrames(w, request);
    j < |frames| && a == w.Helper().AbsorbAll(frames[..j]) && typed == frames[j..]
  }

  ghost predicate AwaitsRequest(w: World, flight: Option<Request>, a: Assembly, typed: seq<Bytes>)
  {
    match flight
    case None => a.Fresh? && typed == []
    case Some(request) => ValidRequest(w, request) && exists j :: UnderWay(w, request, a, typed, j)
  }

  // The bytes on their way to the helper are the frames it has not read whole.
  ghost predicate PipeInv(w: World, s: State)
  {
    (forall i :: 0 <= i < |s.inbound| ==> Sendable(s.inbound[i], REQUESTS.frameLimit)) &&
    s.helperIn + s.monitored + s.toHelper + s.clientOut + s.unsent == Stream(s.inbound) &&
    PartOf(s.helperIn, s.inbound) && (!s.client.Closed? ==> s.unsent == []) &&
    (s.client.Closed? ==> s.inbound != [] && s.inbound[|s.inbound| - 1] == w.cancel)
  }

  // Which of those frames the helper's phase allows.
  ghost predicate PhaseInv(w: World, s: State)
  {
    (s.monitored != [] ==> MonitorActive(s.helper)) &&
    (s.helperIn != [] ==> HelperReads(s.helper)) &&
    (MonitorActive(s.helper) ==> Typed(s) == [] && s.flight.None?) &&
    match s.helper
    case ReadInitial => Typed(s) == [w.initial] && s.flight.None?
    case ReadyOut => (Typed(s) == [] || Typed(s) == [w.start]) && s.flight.None?
    case ReadStart => (Typed(s) == [] || Typed(s) == [w.start]) && s.flight.None?
    case NavigationOut => AwaitsRequest(w, s.flight, Assembly.Fresh, Typed(s))
    case Replying => AwaitsRequest(w, s.flight, Assembly.Fresh, Typed(s))
    case ReadRequest(a) => AwaitsRequest(w, s.flight, a, Typed(s))
    case Running(request, _) => ValidRequest(w, request)
    case _ => true
  }

  ghost predicate HelperInv(w: World, s: State)
  {
    !s.helper.Ended? ==> PipeInv(w, s) && PhaseInv(w, s)
  }

  // ---------- the client side, as long as it does not cancel ----------

  predicate WaitsForStart(helper: HelperPhase)
  {
    helper.ReadyOut? || helper.ReadStart?
  }

  predicate PastStart(helper: HelperPhase)
  {
    helper.Planning? || helper.NavigationOut? || helper == ReadRequest(Assembly.Fresh)
  }

  ghost predicate EmittedFor(w: World, s: State)
  {
    match s.helper
    case ReadInitial => s.emitted == 0
    case Provisioning => s.emitted == 0
    case ReadyOut => s.emitted == 1
    case ReadStart => s.emitted == 1
    case Planning => 1 <= s.emitted < |w.script|
    case _ => s.emitted == |w.script|
  }

  // The script between what the client has popped and what the helper has emitted.
  ghost predicate ScriptInv(w: World, s: State)
  {
    var delivered := s.popped + |s.pending|;
    delivered <= s.emitted <= |w.script| &&
    s.outbound == w.script[delivered..s.emitted] &&
    s.parser.buffer + s.toClient + s.helperOut == Stream(s.outbound) &&
    PartOf(s.parser.buffer, s.outbound) &&
    s.parser.(buffer := []) == P.RunPayloads(w.startup, w.Fresh(), w.script[..delivered]).state &&
    (forall i :: 0 <= i < |s.pending| ==> w.startup(w.script[s.popped + i]) == Some(s.pending[i]))
  }

  ghost predicate StartupInv(w: World, s: State)
  {
    ScriptInv(w, s) && EmittedFor(w, s) &&
    s.clientIn == [] && s.returned == [] && s.served == [] && s.flight.None? &&
    match s.client
    case Connecting =>
      s.popped == 0 &&
      (s.helper.ReadInitial? || ((s.helper.Provisioning? || WaitsForStart(s.helper)) && s.inbound == []))
    case AwaitReady =>
      s.popped == 0 &&
      (s.helper.ReadInitial? || ((s.helper.Provisioning? || WaitsForStart(s.helper)) && s.inbound == []))
    case HasReady => s.popped == 1 && WaitsForStart(s.helper) && s.inbound == []
    case Starting =>
      s.popped == 1 &&
      ((WaitsForStart(s.helper) && s.inbound == [w.start]) || (PastStart(s.helper) && s.inbound == []))
    case Events =>
      1 <= s.popped < |w.script| &&
      ((WaitsForStart(s.helper) && s.inbound == [w.start]) || (PastStart(s.helper) && s.inbound == []))
    case _ => false
  }

  ghost predicate AllProgress(w: World, identity: Identity, payloads: seq<Bytes>)
  {
    forall i :: 0 <= i < |payloads| ==>
      w.messageOf(payloads[i]) == Some(Progress(identity)) && Sendable(payloads[i], P.MAX_STARTUP_FRAME_BYTES)
  }

  // The reply under way: either all of it, after the progress not yet taken, or its last chunks.
  ghost predicate ReplyUnderWay(
    w: World, exchange: Exchange, a: Assembly, progress: seq<Bytes>, outbound: seq<Bytes>, j: nat)
  {
    var identity := exchange.request.identity;
    var frames := ReplyFrames(w, identity, exchange.reply);
    j < |frames| && a == w.Broker(identity).AbsorbAll(frames[..j]) &&
    progress <= exchange.progress &&
    (j > 0 ==> progress == exchange.progress) &&
    outbound == exchange.progress[|progress|..] + frames[j..]
  }

  ghost predicate ExchangeInv(w: World, s: State, request: Request, a: Assembly, progress: seq<Bytes>)
  {
    ValidRequest(w, request) &&
    if s.flight == Some(request) then
      s.outbound == [] && a.Fresh? && progress == [] && s.returned == s.served &&
      (s.helper.NavigationOut? || s.helper.Replying? || s.helper.ReadRequest?)
    else if s.helper.Running? then
      s.flight.None? && s.helper.request == request && a.Fresh? && s.returned == s.served &&
      AllProgress(w, request.identity, s.helper.progress) &&
      progress <= s.helper.progress && s.outbound == s.helper.progress[|progress|..]
    else
      s.flight.None? && (s.helper.Replying? || s.helper == ReadRequest(Assembly.Fresh)) &&
      s.served != [] && s.returned == s.served[..|s.served| - 1] &&
      var exchange := s.served[|s.served| - 1];
      exchange.request == request && ValidReply(w, request.identity, exchange.reply) &&
      AllProgress(w, request.identity, exchange.progress) &&
      exists j :: ReplyUnderWay(w, exchange, a, progress, s.outbound, j)
  }

  ghost predicate SessionInv(w: World, s: State)
  {
    s.popped == |w.script| && s.emitted == |w.script| && s.pending == [] && s.parser.buffer == [] &&
    (forall i :: 0 <= i < |s.outbound| ==> Sendable(s.outbound[i], RESPONSES.frameLimit)) &&
    s.clientIn + s.toClient + s.helperOut == Stream(s.outbound) &&
    PartOf(s.clientIn, s.outbound) &&
    match s.client
    case Idle =>
      s.clientOut == [] && s.outbound == [] && s.returned == s.served && s.flight.None? &&
      (s.helper.NavigationOut? || s.helper.Replying? || s.helper == ReadRequest(Assembly.Fresh))
    case Sending(request) => s.clientIn == [] && ExchangeInv(w, s, request, Assembly.Fresh, [])
    case Receiving(request, a, progress) => s.clientOut == [] && ExchangeInv(w, s, request, a, progress)
    case _ => false
  }

  ghost predicate ClientInv(w: World, s: State)
  {
    if s.client.Idle? || s.client.Sending? || s.client.Receiving? then SessionInv(w, s)
    else StartupInv(w, s)
  }

  ghost predicate AlignedInv(w: World, s: State)
  {
    !s.spliced && s.dropped == [] && HelperInv(w, s) && (!s.client.Closed? ==> ClientInv(w, s) && !s.helper.Ended?)
  }

  // ---------- whole frames ----------

  lemma RequestFits(w: World, request: Request)
    requires w.Lawful() && ValidRequest(w, request)
    ensures var frames := RequestFrames(w, request);
            frames != [] && forall i :: 0 <= i < |frames| ==> Sendable(frames[i], REQUESTS.frameLimit)
  {
    FramesFit(w.codec, REQUESTS, w.session, request.identity, request.raw);
  }

  lemma ReplyFits(w: World, identity: Identity, reply: Bytes)
    requires w.Lawful() && ValidReply(w, identity, reply) && identity.operation in PHASE2_OPERATIONS
    ensures var frames := ReplyFrames(w, identity, reply);
            frames != [] && forall i :: 0 <= i < |frames| ==> Sendable(frames[i], RESPONSES.frameLimit)
  {
    FramesFit(w.codec, RESPONSES, w.session, identity, reply);
  }

  // The helper serves a request exactly when its last frame arrives.
  lemma HelperTakesFrame(w: World, request: Request, a: Assembly, typed: seq<Bytes>, j: nat)
    requires w.Lawful() && ValidRequest(w, request) && UnderWay(w, request, a, typed, j)
    ensures typed != []
    ensures var frames := RequestFrames(w, request);
            if j + 1 == |frames| then HelperAccept(w, a, typed[0]) == Serve(request) && typed[1..] == []
            else HelperAccept(w, a, typed[0]).Await? &&
                 UnderWay(w, request, HelperAccept(w, a, typed[0]).a, typed[1..], j + 1)
  {
    hide Receiver.Absorb;
    hide Receiver.AbsorbAll;
    hide Chunks;
    var frames := RequestFrames(w, request);
    var receiver := w.Helper();
    assert typed[0] == frames[j] && typed[1..] == frames[j + 1..];
    assert frames[..0] == [];
    receiver.AbsorbStep([], []);
    if |request.raw| > REQUESTS.frameLimit {
      assert frames[..j + 1] == frames[..j] + [frames[j]];
      receiver.AbsorbStep(frames[..j], frames[j]);
      ReassemblyRoundTrip(receiver, request.identity, request.raw, frames, j + 1);
      var chunks := Chunks(request.raw, REQUESTS.chunkBytes);
      var envelope := ChunkEnvelope(REQUESTS, w.session, request.identity, chunks, j);
      ChunkEnvelopeIsBuilt(REQUESTS, w.session, request.identity, chunks, j);
      assert frames[j] == w.codec.encode(envelope);
      assert w.requestOf(w.codec.encode(envelope)).None?;
    }
  }

  lemma BrokerTakesChunk(w: World, exchange: Exchange, a: Assembly, j: nat)
    requires w.Lawful() && ValidRequest(w, exchange.request)
    requires ValidReply(w, exchange.request.identity, exchange.reply)
    requires var frames := ReplyFrames(w, exchange.request.identity, exchange.reply);
             j < |frames| && a == w.Broker(exchange.request.identity).AbsorbAll(frames[..j])
    ensures var identity := exchange.request.identity;
            var frames := ReplyFrames(w, identity, exchange.reply);
            BrokerAccept(w, identity, a, frames[j]) ==
            if j + 1 == |frames| then Return(exchange.reply)
            else Continue(w.Broker(identity).AbsorbAll(frames[..j + 1]))
  {
    hide Receiver.Absorb;
    hide Receiver.AbsorbAll;
    hide Chunks;
    var identity := exchange.request.identity;
    var frames := ReplyFrames(w, identity, exchange.reply);
    var receiver := w.Broker(identity);
    receiver.AbsorbStep([], []);
    assert frames[..0] == [];
    if |exchange.reply| > RESPONSES.frameLimit {
      assert frames[..j + 1] == frames[..j] + [frames[j]];
      receiver.AbsorbStep(frames[..j], frames[j]);
      ReassemblyRoundTrip(receiver, identity, exchange.reply, frames, j + 1);
      var chunks := Chunks(exchange.reply, RESPONSES.chunkBytes);
      var envelope := ChunkEnvelope(RESPONSES, w.session, identity, chunks, j);
      ChunkEnvelopeIsBuilt(RESPONSES, w.session, identity, chunks, j);
      assert frames[j] == w.codec.encode(envelope);
      assert w.messageOf(w.codec.encode(envelope)).None?;
    }
  }

  // The broker notes progress, keeps chunks, and returns exactly with the last frame.
  lemma BrokerTakesFrame(w: World, exchange: Exchange, a: Assembly, progress: seq<Bytes>, outbound: seq<Bytes>, j: nat)
    requires w.Lawful() && ValidRequest(w, exchange.request)
    requires ValidReply(w, exchange.request.identity, exchange.reply)
    requires AllProgress(w, exchange.request.identity, exchange.progress)
    requires ReplyUnderWay(w, exchange, a, progress, outbound, j)
    ensures outbound != []
    ensures var identity := exchange.request.identity;
            var taken := BrokerAccept(w, identity, a, outbound[0]);
            (taken.Note? && ReplyUnderWay(w, exchange, Assembly.Fresh, progress + [outbound[0]], outbound[1..], j)) ||
            (taken.Continue? && ReplyUnderWay(w, exchange, taken.a, progress, outbound[1..], j + 1)) ||
            (taken == Return(exchange.reply) && progress == exchange.progress && outbound[1..] == [])
  {
    hide Receiver.Absorb;
    hide Receiver.AbsorbAll;
    hide ReplyFrames;
    var identity := exchange.request.identity;
    var frames := ReplyFrames(w, identity, exchange.reply);
    if |progress| < |exchange.progress| {
      assert outbound[0] == exchange.progress[|progress|];
      assert outbound[1..] == exchange.progress[|progress| + 1..] + frames[j..];
      assert frames[..0] == [];
      w.Broker(identity).AbsorbStep([], []);
    } else {
      hide BrokerAccept;
      assert progress == exchange.progress;
      assert outbound == frames[j..];
      assert outbound[0] == frames[j] && outbound[1..] == frames[j + 1..];
      BrokerTakesChunk(w, exchange, a, j);
    }
  }

  // ---------- every step keeps the invariant ----------

  lemma InitInv(w: World, s: State)
    requires w.Lawful() && Init(w, s)
    ensures AlignedInv(w, s)
  {
    assert w.script[..0] == [];
    assert Stream([w.initial]) == Frame(w.initial) + Stream([w.initial][1..]);
    assert Stream([]) == [];
  }

  // Bytes moving within the client-to-helper direction change nothing the helper relation sees.
  lemma HelperInvShift(w: World, s: State, t: State)
    requires HelperInv(w, s)
    requires t.helper == s.helper && t.inbound == s.inbound && t.flight == s.flight
    requires t.helperIn == s.helperIn && t.client.Closed? == s.client.Closed? && t.unsent == s.unsent
    requires t.monitored + t.toHelper + t.clientOut == s.monitored + s.toHelper + s.clientOut
    requires t.monitored != [] ==> MonitorActive(t.helper) || t.helper.Ended?
    ensures HelperInv(w, t)
  {
    hide PipeInv, AwaitsRequest, ValidRequest;
    if !s.helper.Ended? {
      PipeShift(w, s, t);
    }
  }

  lemma PipeShift(w: World, s: State, t: State)
    requires PipeInv(w, s) && t.client.Closed? == s.client.Closed? && t.inbound == s.inbound
    requires t.helperIn == s.helperIn && t.unsent == s.unsent
    requires t.monitored + t.toHelper + t.clientOut == s.monitored + s.toHelper + s.clientOut
    ensures PipeInv(w, t) && Typed(t) == Typed(s)
  {
    hide Stream, PartOf;
    assert s.helperIn + s.monitored + s.toHelper + s.clientOut ==
           s.helperIn + (s.monitored + s.toHelper + s.clientOut);
    assert t.helperIn + t.monitored + t.toHelper + t.clientOut ==
           t.helperIn + (t.monitored + t.toHelper + t.clientOut);
  }

  // Steps that move bytes of that direction only.
  lemma ClientInvShift(w: World, s: State, t: State)
    requires ClientInv(w, s)
    requires t == s.(clientOut := t.clientOut, toHelper := t.toHelper, monitored := t.monitored)
    requires s.clientOut == [] ==> t.clientOut == []
    ensures ClientInv(w, t)
  {
    hide Stream;
    hide PartOf;
    hide ExchangeInv;
    hide ScriptInv;
    ExchangeInvFrame(w, s, t);
    if ScriptInv(w, s) {
      ScriptInvShift(w, s, t);
    }
  }

  lemma KeepClientWrite(w: World, s: State)
    requires AlignedInv(w, s) && Enabled(w, s, ClientWrite)
    ensures AlignedInv(w, Do(w, s, ClientWrite))
  {
    hide HelperInv;
    hide ClientInv;
    var t := Do(w, s, ClientWrite);
    assert s.clientOut == [s.clientOut[0]] + s.clientOut[1..];
    assert s.monitored + s.toHelper + s.clientOut == t.monitored + t.toHelper + t.clientOut;
    MonitoredNeedsMonitor(w, s);
    HelperInvShift(w, s, t);
    if !s.client.Closed? {
      ClientInvShift(w, s, t);
    }
  }

  lemma MonitoredNeedsMonitor(w: World, s: State)
    requires HelperInv(w, s)
    ensures s.monitored != [] ==> MonitorActive(s.helper) || s.helper.Ended?
  {
  }

  lemma KeepMonitorRead(w: World, s: State)
    requires AlignedInv(w, s) && Enabled(w, s, MonitorRead)
    ensures AlignedInv(w, Do(w, s, MonitorRead))
  {
    hide HelperInv;
    hide ClientInv;
    var t := Do(w, s, MonitorRead);
    assert s.toHelper == [s.toHelper[0]] + s.toHelper[1..];
    assert s.monitored + s.toHelper + s.clientOut == t.monitored + t.toHelper + t.clientOut;
    HelperInvShift(w, s, t);
    if !s.client.Closed? {
      ClientInvShift(w, s, t);
    }
  }

  // Moving bytes from the helper into the pipe changes nothing the script relation sees.
  lemma ScriptInvShift(w: World, s: State, t: State)
    requires ScriptInv(w, s)
    requires t.popped == s.popped && t.pending == s.pending && t.emitted == s.emitted
    requires t.outbound == s.outbound && t.parser == s.parser
    requires t.toClient + t.helperOut == s.toClient + s.helperOut
    ensures ScriptInv(w, t)
  {
    hide Stream;
    hide PartOf;
    hide P.RunPayloads;
    assert s.parser.buffer + s.toClient + s.helperOut == s.parser.buffer + (s.toClient + s.helperOut);
    assert t.parser.buffer + t.toClient + t.helperOut == t.parser.buffer + (t.toClient + t.helperOut);
  }

  lemma KeepHelperWrite(w: World, s: State)
    requires w.Lawful() && AlignedInv(w, s) && Enabled(w, s, HelperWrite)
    ensures AlignedInv(w, Do(w, s, HelperWrite))
  {
    hide Stream;
    hide PartOf;
    hide HelperInv;
    hide ExchangeInv;
    hide ScriptInv;
    hide World.Lawful;
    var t := Do(w, s, HelperWrite);
    assert s.monitored != [] ==> MonitorActive(s.helper) || s.helper.Ended? by { MonitoredNeedsMonitor(w, s); }
    HelperInvShift(w, s, t);
    ExchangeInvFrame(w, s, t);
    assert s.helperOut == [s.helperOut[0]] + s.helperOut[1..];
    assert s.toClient + s.helperOut == t.toClient + t.helperOut;
    if ScriptInv(w, s) {
      ScriptInvShift(w, s, t);
    }
    assert s.clientIn + s.toClient + s.helperOut == t.clientIn + t.toClient + t.helperOut;
  }

  lemma ExchangeInvFrame(w: World, s: State, t: State)
    requires t.helper == s.helper && t.flight == s.flight && t.outbound == s.outbound
    requires t.returned == s.returned && t.served == s.served
    ensures forall request, a, progress :: ExchangeInv(w, s, request, a, progress) ==>
      ExchangeInv(w, t, request, a, progress)
  {
    hide ReplyUnderWay;
  }

  // A cancel frame behind everything the broker has written.
  lemma KeepCancel(w: World, s: State, at: nat, sent: nat, upTo: nat)
    requires w.Lawful() && AlignedInv(w, s) && Enabled(w, s, Cancel(at, sent, upTo)) && at == |s.clientOut|
    ensures AlignedInv(w, Do(w, s, Cancel(at, sent, upTo)))
  {
    hide PipeInv, AwaitsRequest, ValidRequest, ClientInv, Frame, World.Lawful;
    var t := Do(w, s, Cancel(at, sent, upTo));
    if !s.helper.Ended? {
      assert s.clientOut + Frame(w.cancel)[..sent] + [] + Frame(w.cancel)[sent..] == s.clientOut + Frame(w.cancel);
      PipeCancel(w, s, t);
    }
  }

  lemma PipeCancel(w: World, s: State, t: State)
    requires w.Lawful() && PipeInv(w, s) && !s.client.Closed? && t.client.Closed?
    requires t.helperIn == s.helperIn && t.monitored == s.monitored && t.toHelper == s.toHelper
    requires t.clientOut + t.unsent == s.clientOut + Frame(w.cancel) && t.inbound == s.inbound + [w.cancel]
    ensures PipeInv(w, t) && Typed(t) == Typed(s)
  {
    hide Stream, Frame;
    StreamConcat(s.inbound, [w.cancel]);
    StreamOne(w.cancel);
    var before := s.helperIn + s.monitored + s.toHelper;
    assert before + s.clientOut + s.unsent == before + s.clientOut;
    assert before + t.clientOut + t.unsent == before + (t.clientOut + t.unsent);
    assert before + s.clientOut + Frame(w.cancel) == before + (s.clientOut + Frame(w.cancel));
    PartOfMore(s.helperIn, s.inbound, [w.cancel]);
  }

  lemma StreamOne(payload: Bytes)
    ensures Stream([payload]) == Frame(payload) && Stream([]) == []
  {
    assert [payload][1..] == [];
    assert Frame(payload) + [] == Frame(payload);
  }

  // ---------- the helper's reads ----------

  // A read byte that does not finish a frame.
  lemma KeepHelperMore(w: World, s: State)
    requires w.Lawful() && AlignedInv(w, s) && Enabled(w, s, HelperRead)
    requires ReadByte(s.helperIn, s.toHelper[0], HelperLimit(s.helper)).More?
    ensures AlignedInv(w, Do(w, s, HelperRead))
  {
    hide Stream;
    hide PartOf;
    hide ClientInv;
    hide AwaitsRequest;
    hide World.Lawful;
    var t := Do(w, s, HelperRead);
    HelperByte(w, s);
    if !s.client.Closed? {
      ClientInvHelperIn(w, s, t);
    }
  }

  lemma ClientInvHelperIn(w: World, s: State, t: State)
    requires ClientInv(w, s)
    requires t == s.(helperIn := t.helperIn, toHelper := t.toHelper)
    ensures ClientInv(w, t)
  {
    hide Stream;
    hide PartOf;
    hide ExchangeInv;
    hide ScriptInv;
    ExchangeInvFrame(w, s, t);
    if ScriptInv(w, s) {
      ScriptInvShift(w, s, t);
    }
  }

  // What one byte does for a reading helper.
  lemma HelperByte(w: World, s: State)
    requires w.Lawful() && HelperInv(w, s) && Enabled(w, s, HelperRead)
    ensures s.inbound != [] && s.monitored == []
    ensures var read := ReadByte(s.helperIn, s.toHelper[0], HelperLimit(s.helper));
            (read.More? && PartOf(read.buffer, s.inbound) &&
             read.buffer + s.toHelper[1..] + s.clientOut + s.unsent == Stream(s.inbound)) ||
            (read.Got? && read.payload == s.inbound[0] &&
             s.toHelper[1..] + s.clientOut + s.unsent == Stream(s.inbound[1..]))
  {
    hide Stream;
    hide AwaitsRequest;
    hide ReadByte;
    hide PartOf;
    var rest := s.toHelper[1..] + s.clientOut + s.unsent;
    assert s.toHelper == [s.toHelper[0]] + s.toHelper[1..];
    assert s.helperIn + [s.toHelper[0]] + rest == s.helperIn + s.monitored + s.toHelper + s.clientOut + s.unsent;
    StreamEmpty(s.inbound);
    FirstInboundFits(w, s);
    ReadAligned(s.helperIn, s.toHelper[0], rest, s.inbound, HelperLimit(s.helper));
    var grown := s.helperIn + [s.toHelper[0]];
    assert grown + s.toHelper[1..] + s.clientOut + s.unsent == grown + rest;
  }

  lemma FirstInboundFits(w: World, s: State)
    requires w.Lawful() && HelperInv(w, s) && HelperReads(s.helper) && s.inbound != []
    ensures Sendable(s.inbound[0], HelperLimit(s.helper))
  {
    hide Stream;
    hide AwaitsRequest;
    if !s.helper.ReadRequest? {
      assert s.inbound[0] in {w.initial, w.start, w.cancel} by {
        if Typed(s) == [] {
          assert s.client.Closed? && |s.inbound| == 1;
        }
      }
    }
  }

  lemma AbsorbNothing(receiver: Receiver)
    requires IsTransport(receiver.t)
    ensures receiver.AbsorbAll([]) == Assembly.Fresh
  {
    receiver.AbsorbStep([], []);
  }

  // The cancel frame is no request and no chunk: a helper that reads it hangs up.
  lemma CancelHangsUp(w: World)
    requires w.Lawful()
    ensures HelperAccept(w, Assembly.Fresh, w.cancel).Hangup?
  {
    var receiver := w.Helper();
    assert receiver.DecodeChunk(w.cancel).Err?;
  }

  lemma AwaitsNothing(w: World, flight: Option<Request>, a: Assembly, typed: seq<Bytes>)
    requires AwaitsRequest(w, flight, a, typed)
    ensures typed == [] ==> flight.None? && a.Fresh?
  {
    if flight.Some? {
      var j: nat :| UnderWay(w, flight.value, a, typed, j);
      assert typed == RequestFrames(w, flight.value)[j..];
    }
  }

  lemma HelperGotCancel(w: World, s: State)
    requires w.Lawful() && HelperInv(w, s) && Enabled(w, s, HelperRead) && Typed(s) == []
    requires ReadByte(s.helperIn, s.toHelper[0], HelperLimit(s.helper)).Got?
    ensures var t := Do(w, s, HelperRead);
      t.helper.Ended? && t.client.Closed? && t.spliced == s.spliced && t.dropped == s.dropped
  {
    hide Stream;
    hide AwaitsRequest;
    hide HelperAccept;
    HelperByte(w, s);
    assert s.client.Closed?;
    assert s.inbound[0] == w.cancel;
    if s.helper.ReadRequest? {
      AwaitsNothing(w, s.flight, s.helper.a, Typed(s));
      CancelHangsUp(w);
    }
  }

  lemma PipeSame(w: World, s: State, t: State)
    requires PipeInv(w, s) && t.client.Closed? == s.client.Closed? && t.inbound == s.inbound
    requires t.helperIn == s.helperIn && t.monitored == s.monitored
    requires t.toHelper == s.toHelper && t.clientOut == s.clientOut && t.unsent == s.unsent
    ensures PipeInv(w, t) && Typed(t) == Typed(s)
  {
    hide Stream, PartOf;
  }

  // The pipe once a whole typed frame has been taken from it.
  lemma PipeTake(w: World, s: State, t: State)
    requires w.Lawful() && HelperInv(w, s) && Enabled(w, s, HelperRead) && Typed(s) != []
    requires ReadByte(s.helperIn, s.toHelper[0], HelperLimit(s.helper)).Got?
    requires t == s.(toHelper := s.toHelper[1..], helperIn := [], inbound := Tail(s.inbound))
    ensures PipeInv(w, t) && Typed(t) == Typed(s)[1..] && t.monitored == [] && s.inbound != []
    ensures ReadByte(s.helperIn, s.toHelper[0], HelperLimit(s.helper)).payload == Typed(s)[0]
  {
    hide Stream, ReadByte, PartOf, PhaseInv, World.Lawful;
    HelperByte(w, s);
    EmptyIsPart(s.inbound[1..]);
    assert s.inbound[0] == Typed(s)[0];
    assert [] + [] + s.toHelper[1..] + s.clientOut + s.unsent == s.toHelper[1..] + s.clientOut + s.unsent;
  }

  // A whole request frame: the next chunk, or the request is complete.
  lemma HelperGotRequest(w: World, s: State, t: State)
    requires w.Lawful() && s.helper.ReadRequest? && AwaitsRequest(w, s.flight, s.helper.a, Typed(s)) && Typed(s) != []
    requires Typed(t) == Typed(s)[1..] && t.flight == s.flight && t.monitored == [] && t.helperIn == []
    ensures s.flight.Some?
    ensures var accepted := HelperAccept(w, s.helper.a, Typed(s)[0]);
      (accepted == Serve(s.flight.value) && PhaseInv(w, t.(helper := Running(s.flight.value, []), flight := None))) ||
      (accepted.Await? && PhaseInv(w, t.(helper := ReadRequest(accepted.a))))
  {
    hide UnderWay, HelperAccept, World.Lawful;
    var j: nat :| UnderWay(w, s.flight.value, s.helper.a, Typed(s), j);
    HelperTakesFrame(w, s.flight.value, s.helper.a, Typed(s), j);
    assert forall helper, flight :: Typed(t.(helper := helper, flight := flight)) == Typed(t);
  }

  // A whole typed frame arrives while no monitor is reading.
  lemma HelperGotTyped(w: World, s: State)
    requires w.Lawful() && HelperInv(w, s) && Enabled(w, s, HelperRead) && Typed(s) != []
    requires ReadByte(s.helperIn, s.toHelper[0], HelperLimit(s.helper)).Got?
    ensures var t := Do(w, s, HelperRead);
            HelperInv(w, t) && t.client == s.client && t.spliced == s.spliced && t.dropped == s.dropped &&
            (s.helper.ReadInitial? ==> |Typed(s)| == 1 && t == HelperGotState(s, Provisioning, s.flight)) &&
            (s.helper.ReadStart? ==> Typed(s) == [w.start] && t == HelperGotState(s, Planning, s.flight)) &&
            (s.helper.ReadRequest? ==>
               s.flight.Some? &&
               (t == HelperGotState(s, Running(s.flight.value, []), None) ||
                (t.helper.ReadRequest? && t == HelperGotState(s, t.helper, s.flight))))
  {
    hide AwaitsRequest, HelperAccept, ReadByte, PipeInv, ValidRequest, World.Lawful;
    var base := s.(toHelper := s.toHelper[1..], helperIn := [], inbound := Tail(s.inbound));
    PipeTake(w, s, base);
    var t := Do(w, s, HelperRead);
    if s.helper.ReadRequest? {
      HelperGotRequest(w, s, base);
    }
    PipeSame(w, base, t);
  }

  lemma EmptyIsPart(queue: seq<Bytes>)
    ensures PartOf([], queue)
  {
  }

  function HelperGotState(s: State, helper: HelperPhase, flight: Option<Request>): State
    requires s.toHelper != []
  {
    s.(helper := helper, helperIn := [], toHelper := s.toHelper[1..], inbound := Tail(s.inbound), flight := flight)
  }

  lemma KeepHelperGot(w: World, s: State)
    requires w.Lawful() && AlignedInv(w, s) && Enabled(w, s, HelperRead)
    requires ReadByte(s.helperIn, s.toHelper[0], HelperLimit(s.helper)).Got?
    ensures AlignedInv(w, Do(w, s, HelperRead))
  {
    hide ReadByte;
    hide HelperInv;
    hide ClientInv;
    hide HelperGot;
    var t := Do(w, s, HelperRead);
    if Typed(s) == [] {
      HelperGotCancel(w, s);
      EndedInv(w, t);
    } else {
      HelperGotTyped(w, s);
      if !s.client.Closed? {
        if s.helper.ReadInitial? {
          StartupGot(w, s, Provisioning);
        } else if s.helper.ReadStart? {
          StartupGot(w, s, Planning);
        } else {
          SessionGot(w, s, t);
        }
      }
    }
  }

  lemma StartupGot(w: World, s: State, next: HelperPhase)
    requires w.Lawful() && ClientInv(w, s) && s.toHelper != [] && s.inbound != []
    requires (s.helper.ReadInitial? && next.Provisioning? && |s.inbound| == 1) ||
             (s.helper.ReadStart? && next.Planning? && s.inbound == [w.start])
    ensures ClientInv(w, HelperGotState(s, next, s.flight))
  {
    hide Stream;
    hide PartOf;
    hide ScriptInv;
    var t := HelperGotState(s, next, s.flight);
    if ScriptInv(w, s) {
      ScriptInvShift(w, s, t);
    }
  }

  lemma SessionGot(w: World, s: State, t: State)
    requires ClientInv(w, s) && s.toHelper != [] && s.flight.Some? && s.helper.ReadRequest?
    requires t == HelperGotState(s, Running(s.flight.value, []), None) ||
             (t.helper.ReadRequest? && t == HelperGotState(s, t.helper, s.flight))
    ensures ClientInv(w, t)
  {
    hide Stream;
    hide PartOf;
    hide ReplyUnderWay;
    hide ScriptInv;
  }

  lemma EndedInv(w: World, s: State)
    requires s.helper.Ended?
    ensures HelperInv(w, s)
  {
  }

  lemma KeepHelperRead(w: World, s: State)
    requires w.Lawful() && AlignedInv(w, s) && Enabled(w, s, HelperRead)
    ensures AlignedInv(w, Do(w, s, HelperRead))
  {
    hide HelperInv;
    hide ClientInv;
    hide ReadByte;
    HelperByte(w, s);
    if ReadByte(s.helperIn, s.toHelper[0], HelperLimit(s.helper)).More? {
      KeepHelperMore(w, s);
    } else {
      KeepHelperGot(w, s);
    }
  }

  // ---------- the client's reads ----------

  lemma KeepStartupRead(w: World, s: State)
    requires w.Lawful() && AlignedInv(w, s) && Enabled(w, s, ClientRead) && StartupReads(s.client)
    ensures AlignedInv(w, Do(w, s, ClientRead))
  {
    hide HelperInv, ScriptInv, DoClientRead, World.Lawful;
    var t := Do(w, s, ClientRead);
    StartupByte(w, s);
    HelperInvSame(w, s, t);
    StartupSame(w, s, t);
  }

  // Reading moves the script along and changes nothing else of the startup relation.
  lemma StartupSame(w: World, s: State, t: State)
    requires StartupInv(w, s) && ScriptInv(w, t)
    requires t == s.(toClient := t.toClient, parser := t.parser, pending := t.pending, outbound := t.outbound)
    ensures StartupInv(w, t)
  {
    hide ScriptInv, World.Lawful;
  }

  lemma HelperInvSame(w: World, s: State, t: State)
    requires HelperInv(w, s)
    requires t.helper == s.helper && t.inbound == s.inbound && t.flight == s.flight
    requires t.helperIn == s.helperIn && t.client.Closed? == s.client.Closed? && t.unsent == s.unsent
    requires t.monitored == s.monitored && t.toHelper == s.toHelper && t.clientOut == s.clientOut
    ensures HelperInv(w, t)
  {
    MonitoredNeedsMonitor(w, s);
    HelperInvShift(w, s, t);
  }

  // One byte for the startup parser, by whether it ends the frame.
  lemma StartupMore(w: World, s: State, parser: P.State)
    requires ScriptInv(w, s) && s.toClient != []
    requires parser == s.parser.(buffer := s.parser.buffer + [s.toClient[0]]) && PartOf(parser.buffer, s.outbound)
    ensures ScriptInv(w, s.(toClient := s.toClient[1..], parser := parser))
  {
    hide Stream, PartOf, P.RunPayloads;
    assert s.toClient == [s.toClient[0]] + s.toClient[1..];
    assert parser.buffer + s.toClient[1..] + s.helperOut == s.parser.buffer + s.toClient + s.helperOut;
    assert parser.(buffer := []) == s.parser.(buffer := []);
  }

  lemma StartupFrame(w: World, s: State, rest: Bytes)
    requires w.Lawful() && ScriptInv(w, s) && s.outbound != [] && s.toClient != []
    requires rest == s.toClient[1..] + s.helperOut && rest == Stream(s.outbound[1..])
    ensures var accepted := P.Accept(w.startup, s.parser.(buffer := []), s.outbound[0]);
      accepted.error.None? &&
      ScriptInv(w, s.(toClient := s.toClient[1..], parser := accepted.state,
                      pending := s.pending + accepted.frames, outbound := s.outbound[1..]))
  {
    hide Stream, PartOf, P.RunPayloads, P.Accept;
    var delivered := s.popped + |s.pending|;
    assert s.outbound[0] == w.script[delivered];
    P.AcceptedStep(w.startup, w.Fresh(), w.script, delivered);
    FreshBuffer(w, delivered + 1);
    EmptyIsPart(s.outbound[1..]);
    assert s.outbound[1..] == w.script[delivered + 1..s.emitted];
    assert [] + s.toClient[1..] + s.helperOut == rest;
    var accepted := P.Accept(w.startup, s.parser.(buffer := []), s.outbound[0]);
    assert accepted.state.(buffer := []) == accepted.state;
  }

  lemma ScriptAligned(w: World, s: State)
    requires w.Lawful() && ScriptInv(w, s) && s.toClient != []
    ensures s.outbound != [] && PartOf(s.parser.buffer, s.outbound)
    ensures Sendable(s.outbound[0], P.MAX_STARTUP_FRAME_BYTES)
    ensures s.parser.buffer + [s.toClient[0]] + (s.toClient[1..] + s.helperOut) == Stream(s.outbound)
  {
    hide Stream, PartOf, P.RunPayloads;
    assert s.toClient == [s.toClient[0]] + s.toClient[1..];
    assert s.parser.buffer + [s.toClient[0]] + (s.toClient[1..] + s.helperOut) ==
      s.parser.buffer + s.toClient + s.helperOut;
    StreamEmpty(s.outbound);
    assert s.outbound[0] == w.script[s.popped + |s.pending|];
  }

  lemma StartupByte(w: World, s: State)
    requires w.Lawful() && ScriptInv(w, s) && s.toClient != [] && StartupReads(s.client)
    ensures ScriptInv(w, DoClientRead(w, s))
    ensures var t := DoClientRead(w, s);
            t.client == s.client &&
            t == s.(toClient := t.toClient, parser := t.parser, pending := t.pending, outbound := t.outbound)
  {
    var next := s.toClient[0];
    var rest := s.toClient[1..] + s.helperOut;
    hide Stream, PartOf, P.Accept, P.Run, ScriptInv, Frame, World.Lawful;
    ScriptAligned(w, s);
    ParseAligned(w, s.parser, next, rest, s.outbound);
    if |s.parser.buffer| + 1 < |Frame(s.outbound[0])| {
      StartupMore(w, s, s.parser.(buffer := s.parser.buffer + [next]));
      assert s.pending + [] == s.pending;
    } else {
      StartupFrame(w, s, rest);
    }
  }

  lemma {:induction false} FreshBuffer(w: World, n: nat)
    requires w.IsScript() && n <= |w.script|
    ensures P.RunPayloads(w.startup, w.Fresh(), w.script[..n]).state.buffer == []
  {
    if n == 0 {
      assert w.script[..0] == [];
    } else {
      FreshBuffer(w, n - 1);
      P.AcceptedStep(w.startup, w.Fresh(), w.script, n - 1);
    }
  }

  // One byte for a broker that awaits its response.
  lemma SessionByte(w: World, s: State)
    requires SessionInv(w, s) && s.toClient != []
    ensures s.outbound != []
    ensures var read := ReadByte(s.clientIn, s.toClient[0], RESPONSES.frameLimit);
            (read.More? && PartOf(read.buffer, s.outbound) &&
             read.buffer + s.toClient[1..] + s.helperOut == Stream(s.outbound)) ||
            (read.Got? && read.payload == s.outbound[0] &&
             s.toClient[1..] + s.helperOut == Stream(s.outbound[1..]))
  {
    hide Stream;
    hide PartOf;
    hide ReadByte;
    hide ExchangeInv;
    var next := s.toClient[0];
    var rest := s.toClient[1..] + s.helperOut;
    assert s.toClient == [next] + s.toClient[1..];
    assert s.clientIn + [next] + rest == s.clientIn + s.toClient + s.helperOut;
    StreamEmpty(s.outbound);
    ReadAligned(s.clientIn, next, rest, s.outbound, RESPONSES.frameLimit);
    assert s.clientIn + [next] + s.toClient[1..] + s.helperOut == s.clientIn + [next] + rest;
  }

  lemma KeepSessionMore(w: World, s: State)
    requires w.Lawful() && AlignedInv(w, s) && Enabled(w, s, ClientRead) && s.client.Receiving?
    requires ReadByte(s.clientIn, s.toClient[0], RESPONSES.frameLimit).More?
    ensures AlignedInv(w, Do(w, s, ClientRead))
  {
    hide Stream;
    hide PartOf;
    hide HelperInv;
    hide ReadByte;
    hide ExchangeInv;
    hide World.Lawful;
    var t := Do(w, s, ClientRead);
    SessionByte(w, s);
    ExchangeInvFrame(w, s, t);
    HelperInvSame(w, s, t);
  }

  lemma KeepSessionGot(w: World, s: State)
    requires w.Lawful() && AlignedInv(w, s) && Enabled(w, s, ClientRead) && s.client.Receiving?
    requires ReadByte(s.clientIn, s.toClient[0], RESPONSES.frameLimit).Got?
    ensures AlignedInv(w, Do(w, s, ClientRead))
  {
    hide Stream;
    hide PartOf;
    hide HelperInv;
    hide ReadByte;
    hide BrokerAccept;
    hide ExchangeInv;
    hide World.Lawful;
    var Receiving(request, a, progress) := s.client;
    SessionByte(w, s);
    EmptyIsPart(s.outbound[1..]);
    var t := Do(w, s, ClientRead);
    assert [] + s.toClient[1..] + s.helperOut == s.toClient[1..] + s.helperOut;
    BrokerGot(w, s, request, a, progress);
    HelperInvSame(w, s, t);
  }

  lemma KeepClientRead(w: World, s: State)
    requires w.Lawful() && AlignedInv(w, s) && Enabled(w, s, ClientRead)
    ensures AlignedInv(w, Do(w, s, ClientRead))
  {
    hide HelperInv;
    hide ExchangeInv;
    hide StartupInv;
    hide ReadByte;
    hide DoClientRead;
    if s.client.Receiving? {
      SessionByte(w, s);
      if ReadByte(s.clientIn, s.toClient[0], RESPONSES.frameLimit).More? {
        KeepSessionMore(w, s);
      } else {
        KeepSessionGot(w, s);
      }
    } else {
      KeepStartupRead(w, s);
    }
  }

  // A whole frame for the broker, by what the helper is doing.
  lemma BrokerGot(w: World, s: State, request: Request, a: Assembly, progress: seq<Bytes>)
    requires w.Lawful() && s.client == Receiving(request, a, progress)
    requires ExchangeInv(w, s, request, a, progress) && s.outbound != []
    ensures var t := ClientGot(w, s.(toClient := Tail(s.toClient)), s.outbound[0]);
            (t.client.Receiving? && t.client.request == request &&
                ExchangeInv(w, t, request, t.client.a, t.client.progress) &&
             t.returned == s.returned) ||
            (t.client.Idle? && s.outbound[1..] == [] && t.returned == t.served && s.flight.None? &&
             (s.helper.Replying? || s.helper == ReadRequest(Assembly.Fresh)))
  {
    hide ReplyUnderWay;
    hide BrokerAccept;
    if s.helper.Running? {
      assert s.outbound[0] == s.helper.progress[|progress|];
      assert s.outbound[1..] == s.helper.progress[|progress| + 1..];
      ProgressIsNoted(w, request.identity, s.outbound[0]);
    } else {
      var exchange := s.served[|s.served| - 1];
      var j: nat :| ReplyUnderWay(w, exchange, a, progress, s.outbound, j);
      BrokerTakesFrame(w, exchange, a, progress, s.outbound, j);
      assert s.served == s.returned + [exchange];
      var taken := BrokerAccept(w, request.identity, a, s.outbound[0]);
      if taken.Return? {
        assert exchange == Exchange(request, progress, taken.reply);
      }
    }
  }

  lemma ProgressIsNoted(w: World, identity: Identity, payload: Bytes)
    requires w.messageOf(payload) == Some(Progress(identity))
    ensures BrokerAccept(w, identity, Assembly.Fresh, payload).Note?
  {
  }

  // ---------- decisions ----------

  lemma InboundDone(w: World, s: State)
    requires HelperInv(w, s) && !s.helper.Ended? && s.inbound == []
    ensures s.helperIn == [] && s.monitored == [] && s.toHelper == [] && s.clientOut == []
  {
    StreamEmpty(s.inbound);
  }

  lemma KeepClientAdvance(w: World, s: State)
    requires w.Lawful() && AlignedInv(w, s)
    ensures AlignedInv(w, Do(w, s, ClientAdvance))
  {
    hide HelperInv, ClientInv, World.Lawful, Frame;
    var t := Do(w, s, ClientAdvance);
    assert |w.script| >= 3 by { ScriptIsLong(w); }
    if s.client.HasReady? {
      KeepStart(w, s);
    } else {
      HelperInvSame(w, s, t);
      if s.client.AwaitReady? {
        KeepReady(w, s);
      } else if s.client.Events? {
        KeepEvent(w, s);
      } else if !s.client.Closed? {
        KeepWritten(w, s);
      }
    }
  }

  lemma ScriptIsLong(w: World)
    requires w.Lawful()
    ensures |w.script| >= 3
  {
  }

  // The broker has finished writing and turns to reading.
  lemma KeepWritten(w: World, s: State)
    requires |w.script| >= 3 && ClientInv(w, s) && !s.client.HasReady? && !s.client.AwaitReady? && !s.client.Events?
    ensures ClientInv(w, DoClientAdvance(w, s))
  {
    hide Stream;
    hide PartOf;
    hide ExchangeInv;
    hide ScriptInv;
    var t := DoClientAdvance(w, s);
    if s.client.Sending? {
      ExchangeInvFrame(w, s, t);
    } else if ScriptInv(w, s) {
      ScriptInvShift(w, s, t);
    }
  }

  lemma KeepStart(w: World, s: State)
    requires w.Lawful() && AlignedInv(w, s) && s.client.HasReady?
    ensures AlignedInv(w, DoClientAdvance(w, s))
  {
    hide Stream;
    hide Frame;
    hide ScriptInv;
    hide PartOf;
    hide AwaitsRequest;
    hide ValidRequest;
    var t := DoClientAdvance(w, s);
    InboundDone(w, s);
    StreamOne(w.start);
    EmptyIsPart(t.inbound);
    assert t.inbound == [w.start];
    assert [] + [] + [] + t.clientOut == t.clientOut;
    ScriptInvShift(w, s, t);
  }

  // Popping a pending startup value: its kind is the script's.
  lemma PopScript(w: World, s: State, t: State)
    requires ScriptInv(w, s) && s.pending != []
    requires t == s.(client := t.client, pending := s.pending[1..], popped := s.popped + 1)
    ensures ScriptInv(w, t)
    ensures s.popped < |w.script| && w.KindAt(s.popped) == s.pending[0].kind
  {
    hide Stream;
    hide PartOf;
    hide P.RunPayloads;
    assert w.startup(w.script[s.popped + 0]) == Some(s.pending[0]);
    assert forall i :: 0 <= i < |t.pending| ==> t.pending[i] == s.pending[i + 1];
  }

  lemma KeepReady(w: World, s: State)
    requires w.Lawful() && AlignedInv(w, s) && s.client.AwaitReady?
    ensures ClientInv(w, DoClientAdvance(w, s))
    ensures !DoClientAdvance(w, s).client.Closed?
  {
    hide Stream;
    hide ScriptInv;
    hide HelperInv;
    var t := DoClientAdvance(w, s);
    if s.pending != [] {
      PopScript(w, s, s.(client := HasReady, pending := s.pending[1..], popped := s.popped + 1));
      DeliveredIsEmitted(w, s);
    }
  }

  lemma DeliveredIsEmitted(w: World, s: State)
    requires ScriptInv(w, s)
    ensures s.popped + |s.pending| <= s.emitted <= |w.script|
  {
  }

  lemma ScriptKinds(w: World, i: nat)
    requires w.Lawful() && 1 <= i < |w.script|
    ensures if i == |w.script| - 1 then w.KindAt(i) == P.NavigationReady
            else w.KindAt(i) == P.ResultPage || w.KindAt(i) == P.Done
  {
  }

  lemma KeepEvent(w: World, s: State)
    requires w.Lawful() && AlignedInv(w, s) && s.client.Events?
    ensures ClientInv(w, DoClientAdvance(w, s))
    ensures !DoClientAdvance(w, s).client.Closed?
  {
    hide Stream;
    hide ScriptInv;
    hide HelperInv;
    if s.pending != [] {
      var kind := s.pending[0].kind;
      PopScript(w, s, s.(client := Events, pending := s.pending[1..], popped := s.popped + 1));
      ScriptKinds(w, s.popped);
      if kind == P.NavigationReady {
        KeepIdle(w, s);
      }
    }
  }

  lemma KeepIdle(w: World, s: State)
    requires w.Lawful() && AlignedInv(w, s) && s.client.Events? && s.pending != []
    requires s.pending[0].kind == P.NavigationReady
    ensures ClientInv(w, DoClientAdvance(w, s))
  {
    hide P.RunPayloads;
    assert w.startup(w.script[s.popped + 0]) == Some(s.pending[0]);
    assert w.KindAt(s.popped) == s.pending[0].kind;
    assert s.popped == |w.script| - 1;
    assert s.outbound == [];
    StreamEmpty(s.outbound);
    InboundDone(w, s);
  }

  lemma KeepSendRequest(w: World, s: State, request: Request)
    requires w.Lawful() && AlignedInv(w, s) && Enabled(w, s, SendRequest(request))
    ensures AlignedInv(w, Do(w, s, SendRequest(request)))
  {
    hide Stream;
    hide RequestFrames;
    hide ValidRequest;
    hide World.Lawful;
    var t := Do(w, s, SendRequest(request));
    var frames := RequestFrames(w, request);
    RequestFits(w, request);
    AwaitsNothingIdle(w, s);
    InboundDone(w, s);
    assert t.inbound == frames;
    assert UnderWay(w, request, Assembly.Fresh, frames, 0) by {
      AbsorbNothing(w.Helper());
      assert frames[..0] == [] && frames[0..] == frames;
    }
  }

  lemma AwaitsNothingIdle(w: World, s: State)
    requires HelperInv(w, s) && SessionInv(w, s) && s.client.Idle?
    ensures s.inbound == [] && !s.helper.Ended?
  {
    hide Stream;
    hide PartOf;
  }

  // The client side when the helper appends `more` to what it has written.
  lemma SessionEmits(w: World, s: State, t: State, more: seq<Bytes>)
    requires SessionInv(w, s) && s.helperOut == []
    requires forall i :: 0 <= i < |more| ==> Sendable(more[i], RESPONSES.frameLimit)
    requires t == s.(helper := t.helper, helperOut := Stream(more), outbound := s.outbound + more, served := t.served)
    requires s.client.Sending? ==> ExchangeInv(w, t, s.client.request, Assembly.Fresh, [])
    requires s.client.Receiving? ==> ExchangeInv(w, t, s.client.request, s.client.a, s.client.progress)
    requires !s.client.Idle?
    ensures SessionInv(w, t)
  {
    hide Stream;
    hide PartOf;
    hide ExchangeInv;
    StreamConcat(s.outbound, more);
    PartOfMore(s.clientIn, s.outbound, more);
    assert s.clientIn + s.toClient + [] == s.clientIn + s.toClient;
  }

  // The helper relation does not see what the helper writes.
  lemma HelperInvEmits(w: World, s: State, t: State)
    requires HelperInv(w, s) && s.helper.Running? && (t.helper.Replying? ==> s.monitored == [])
    requires t == s.(helper := t.helper, helperOut := t.helperOut, outbound := t.outbound, served := t.served)
    requires t.helper.Replying? || (t.helper.Running? && t.helper.request == s.helper.request)
    ensures HelperInv(w, t)
  {
    hide PipeInv, UnderWay, ValidRequest;
    PipeSame(w, s, t);
  }

  lemma KeepEmitProgress(w: World, s: State, payload: Bytes)
    requires w.Lawful() && AlignedInv(w, s) && Enabled(w, s, EmitProgress(payload))
    ensures AlignedInv(w, Do(w, s, EmitProgress(payload)))
  {
    hide HelperInv, StartupInv, SessionInv, ExchangeInv, World.Lawful, Frame, Stream;
    var t := Do(w, s, EmitProgress(payload));
    HelperInvEmits(w, s, t);
    if SessionInv(w, s) {
      SessionProgress(w, s, payload);
    }
    if StartupInv(w, s) {
      StartupIsIdle(w, s);
    }
  }

  lemma StartupIsIdle(w: World, s: State)
    requires StartupInv(w, s)
    ensures !s.helper.Running?
  {
    hide ScriptInv;
  }

  lemma SessionProgress(w: World, s: State, payload: Bytes)
    requires w.Lawful() && SessionInv(w, s) && Enabled(w, s, EmitProgress(payload))
    ensures SessionInv(w, Do(w, s, EmitProgress(payload)))
  {
    hide Stream, Frame, PartOf, ValidRequest, World.Lawful;
    var t := Do(w, s, EmitProgress(payload));
    var progress := if s.client.Receiving? then s.client.progress else [];
    StreamOne(payload);
    assert s.outbound + [payload] == t.helper.progress[|progress|..];
    SessionEmits(w, s, t, [payload]);
  }

  lemma PartOfMore(buffer: Bytes, queue: seq<Bytes>, more: seq<Bytes>)
    requires PartOf(buffer, queue)
    ensures PartOf(buffer, queue + more)
  {
  }

  lemma KeepEmitReply(w: World, s: State, reply: Bytes)
    requires w.Lawful() && AlignedInv(w, s) && Enabled(w, s, EmitReply(reply))
    requires Do(w, s, EmitReply(reply)).dropped == []
    ensures AlignedInv(w, Do(w, s, EmitReply(reply)))
  {
    hide HelperInv, StartupInv, SessionInv, ExchangeInv, World.Lawful, ReplyFrames, Stream, ValidReply;
    var t := Do(w, s, EmitReply(reply));
    HelperInvEmits(w, s, t);
    if SessionInv(w, s) {
      SessionReply(w, s, reply);
    }
    if StartupInv(w, s) {
      StartupIsIdle(w, s);
    }
  }

  lemma SessionReply(w: World, s: State, reply: Bytes)
    requires w.Lawful() && SessionInv(w, s) && Enabled(w, s, EmitReply(reply)) && s.monitored == []
    ensures SessionInv(w, Do(w, s, EmitReply(reply)))
  {
    hide Stream, Frame, ReplyFrames, World.Lawful, ValidReply, ValidRequest, PartOf;
    var t := Do(w, s, EmitReply(reply));
    assert t == s.(helper := t.helper, helperOut := t.helperOut, outbound := t.outbound, served := t.served);
    var Running(request, all) := s.helper;
    var frames := ReplyFrames(w, request.identity, reply);
    var progress := if s.client.Receiving? then s.client.progress else [];
    ReplyFits(w, request.identity, reply);
    AbsorbNothing(w.Broker(request.identity));
    assert frames[..0] == [] && frames[0..] == frames;
    assert ReplyUnderWay(w, Exchange(request, all, reply), Assembly.Fresh, progress, t.outbound, 0);
    SessionEmits(w, s, t, frames);
  }

  lemma KeepHelperAdvance(w: World, s: State)
    requires w.Lawful() && AlignedInv(w, s) && Do(w, s, HelperAdvance).dropped == []
    ensures AlignedInv(w, Do(w, s, HelperAdvance))
  {
    hide ClientInv;
    HelperAdvanceSide(w, s);
    if !s.client.Closed? {
      NothingMonitored(w, s);
      if Do(w, s, HelperAdvance).emitted == s.emitted {
        KeepQuietAdvance(w, s);
      } else {
        KeepEmittingAdvance(w, s);
      }
    }
  }

  // A monitor has nothing to read before a cancellation.
  lemma NothingMonitored(w: World, s: State)
    requires HelperInv(w, s) && !s.helper.Ended? && !s.client.Closed?
    ensures s.monitored == []
  {
    if MonitorActive(s.helper) {
      assert s.inbound == [];
      InboundDone(w, s);
    }
  }

  lemma HelperAdvanceSide(w: World, s: State)
    requires w.Lawful() && HelperInv(w, s) && s.dropped == [] && Do(w, s, HelperAdvance).dropped == []
    ensures HelperInv(w, Do(w, s, HelperAdvance))
  {
    hide PipeInv, AwaitsRequest, ValidRequest, World.Lawful, Frame, MonitorActive, HelperReads;
    if !s.helper.Ended? {
      var t := DoHelperAdvance(w, s);
      HelperAdvancePipe(w, s);
      PipeSame(w, s, t);
      if t.helper != s.helper {
        MonitorsAndReaders();
        AwaitsNone(w);
      }
    }
  }

  // A helper that advances without dropping anything touches no byte on its way to it.
  lemma HelperAdvancePipe(w: World, s: State)
    requires s.dropped == [] && DoHelperAdvance(w, s).dropped == []
    ensures var t := DoHelperAdvance(w, s);
      t == s.(helper := t.helper, helperOut := t.helperOut, outbound := t.outbound, emitted := t.emitted,
              monitored := t.monitored) &&
      (t.monitored == s.monitored || (s.monitored == [] && t.monitored == []))
  {
    hide Frame;
  }

  lemma MonitorsAndReaders()
    ensures MonitorActive(Provisioning) && MonitorActive(Planning)
    ensures !MonitorActive(ReadyOut) && !MonitorActive(ReadStart) && !MonitorActive(NavigationOut)
    ensures forall a :: !MonitorActive(ReadRequest(a)) && HelperReads(ReadRequest(a))
    ensures !MonitorActive(Replying) && HelperReads(ReadStart) && !HelperReads(ReadyOut)
    ensures !HelperReads(Provisioning) && !HelperReads(Planning)
    ensures !HelperReads(NavigationOut) && !HelperReads(Replying)
  {
  }

  lemma AwaitsNone(w: World)
    ensures AwaitsRequest(w, None, Assembly.Fresh, [])
  {
  }

  lemma KeepQuietAdvance(w: World, s: State)
    requires w.Lawful() && ClientInv(w, s) && !s.client.Closed? && s.monitored == [] && !s.helper.Ended?
    requires DoHelperAdvance(w, s).emitted == s.emitted
    ensures ClientInv(w, DoHelperAdvance(w, s)) && !DoHelperAdvance(w, s).helper.Ended?
  {
    hide StartupInv, SessionInv, World.Lawful, Frame;
    if StartupInv(w, s) {
      StartupQuiet(w, s);
    }
    if SessionInv(w, s) {
      SessionQuiet(w, s);
    }
  }

  lemma StartupQuiet(w: World, s: State)
    requires w.Lawful() && StartupInv(w, s) && s.monitored == [] && DoHelperAdvance(w, s).emitted == s.emitted
    ensures StartupInv(w, DoHelperAdvance(w, s))
  {
    hide ScriptInv, World.Lawful, Frame;
    ScriptInvShift(w, s, DoHelperAdvance(w, s));
  }

  lemma SessionQuiet(w: World, s: State)
    requires w.Lawful() && SessionInv(w, s) && s.monitored == [] && DoHelperAdvance(w, s).emitted == s.emitted
    ensures SessionInv(w, DoHelperAdvance(w, s))
  {
    hide Stream, PartOf, ReplyUnderWay, AllProgress, ValidRequest, ValidReply, World.Lawful, Frame;
  }

  lemma KeepEmittingAdvance(w: World, s: State)
    requires w.Lawful() && ClientInv(w, s) && !s.client.Closed? && s.monitored == [] && !s.helper.Ended?
    requires DoHelperAdvance(w, s).emitted != s.emitted
    ensures ClientInv(w, DoHelperAdvance(w, s)) && !DoHelperAdvance(w, s).helper.Ended?
  {
    hide Stream;
    hide Frame;
    hide ReplyUnderWay;
    hide ScriptInv;
    hide PartOf;
    assert StartupInv(w, s);
    if s.emitted == 0 {
      NothingEmitted(w, s);
    }
    KeepEmit(w, s, DoHelperAdvance(w, s));
  }

  lemma NothingEmitted(w: World, s: State)
    requires ScriptInv(w, s) && s.emitted == 0
    ensures s.helperOut == []
  {
    StreamEmpty(s.outbound);
  }

  // The helper writes the next startup frame.
  lemma KeepEmit(w: World, s: State, t: State)
    requires w.Lawful() && ScriptInv(w, s) && s.helperOut == [] && s.emitted < |w.script|
    requires t == Emit(w, s).(helper := t.helper)
    ensures ScriptInv(w, t)
  {
    hide Stream;
    hide Frame;
    hide P.RunPayloads;
    var payload := w.script[s.emitted];
    StreamConcat(s.outbound, [payload]);
    StreamOne(payload);
    var delivered := s.popped + |s.pending|;
    assert w.script[delivered..s.emitted] + [payload] == w.script[delivered..s.emitted + 1];
    assert s.parser.buffer + s.toClient + [] == s.parser.buffer + s.toClient;
    PartOfMore(s.parser.buffer, s.outbound, [payload]);
  }

  lemma AlignedNext(w: World, s: State, step: Step)
    requires w.Lawful() && AlignedInv(w, s) && Enabled(w, s, step)
    requires Do(w, s, step).dropped == [] && (step.Cancel? ==> step.at == |s.clientOut|)
    ensures AlignedInv(w, Do(w, s, step))
  {
    hide *;
    match step
    case ClientWrite => KeepClientWrite(w, s);
    case HelperWrite => KeepHelperWrite(w, s);
    case ClientRead => KeepClientRead(w, s);
    case HelperRead => KeepHelperRead(w, s);
    case MonitorRead => KeepMonitorRead(w, s);
    case ClientAdvance => KeepClientAdvance(w, s);
    case HelperAdvance => KeepHelperAdvance(w, s);
    case SendRequest(request) => KeepSendRequest(w, s, request);
    case EmitProgress(payload) => KeepEmitProgress(w, s, payload);
    case EmitReply(reply) => KeepEmitReply(w, s, reply);
    case Cancel(at, sent, upTo) => KeepCancel(w, s, at, sent, upTo);
    case Drain => KeepClosing(w, s, step);
    case Checkpoint(answer) => KeepCheckpoint(w, s, answer);
    case HelperEof => KeepClosing(w, s, step);
  }

  lemma CheckpointIsLate(w: World, s: State, answer: Bytes)
    requires AlignedInv(w, s) && Enabled(w, s, Checkpoint(answer))
    ensures s.client.Closed?
  {
    hide HelperInv, ClientInv, World.Lawful, Frame;
    if !s.client.Closed? {
      NothingMonitored(w, s);
    }
  }

  lemma KeepCheckpoint(w: World, s: State, answer: Bytes)
    requires AlignedInv(w, s) && Enabled(w, s, Checkpoint(answer)) && Do(w, s, Checkpoint(answer)).dropped == []
    ensures AlignedInv(w, Do(w, s, Checkpoint(answer)))
  {
    hide PipeInv, ClientInv, World.Lawful, Frame, UnderWay, ValidRequest, Requested;
    CheckpointIsLate(w, s, answer);
    if s.helper.Running? {
      PipeSame(w, s, Do(w, s, Checkpoint(answer)));
    }
  }

  lemma KeepClosing(w: World, s: State, step: Step)
    requires AlignedInv(w, s) && Enabled(w, s, step) && (step.Drain? || step.HelperEof?)
    ensures AlignedInv(w, Do(w, s, step))
  {
    hide ClientInv, World.Lawful;
    if step.Drain? {
      HelperInvSame(w, s, Do(w, s, step));
    }
  }
}
