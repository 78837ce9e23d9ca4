// What either end accepts from an arbitrary stream of frames: only its own messages.
module SessionRefusal {
  import opened Strings
  import opened Framing
  import opened SessionTransport
  import opened SessionModel
  import P = StartupParser

  // ---------- the broker waiting for one reply ----------

  datatype Waiting = Waiting(a: Assembly, end: Option<Taken>)

  // The loop of one request over whole frames, until it returns or breaks.
  function TakeAll(w: World, identity: Identity, payloads: seq<Bytes>): Waiting
  {
    if payloads == [] then Waiting(Assembly.Fresh, None)
    else
      var before := TakeAll(w, identity, payloads[..|payloads| - 1]);
      if before.end.Some? then before
      else
        match BrokerAccept(w, identity, before.a, payloads[|payloads| - 1])
        case Note => Waiting(Assembly.Fresh, None)
        case Continue(a) => Waiting(a, None)
        case Return(reply) => Waiting(before.a, Some(Return(reply)))
        case Broken => Waiting(before.a, Some(Broken))
  }

  // The chunks absorbed so far are the last frames of the stream.
  ghost predicate Tracks(receiver: Receiver, a: Assembly, payloads: seq<Bytes>)
    requires IsTransport(receiver.t)
  {
    exists m: nat :: TracksFrom(receiver, a, payloads, m)
  }

  ghost predicate TracksFrom(receiver: Receiver, a: Assembly, payloads: seq<Bytes>, m: nat)
    requires IsTransport(receiver.t)
  {
    m <= |payloads| && a == receiver.AbsorbAll(payloads[m..])
  }

  lemma TracksNothing(receiver: Receiver, payloads: seq<Bytes>)
    requires IsTransport(receiver.t)
    ensures Tracks(receiver, Assembly.Fresh, payloads)
  {
    receiver.AbsorbStep([], []);
    assert payloads[|payloads|..] == [];
    assert TracksFrom(receiver, Assembly.Fresh, payloads, |payloads|);
  }

  lemma TracksStep(receiver: Receiver, a: Assembly, payloads: seq<Bytes>, payload: Bytes)
    requires IsTransport(receiver.t) && Tracks(receiver, a, payloads)
    ensures Tracks(receiver, receiver.Absorb(a, payload), payloads + [payload])
  {
    hide Receiver.Absorb, Receiver.AbsorbAll;
    var m: nat :| TracksFrom(receiver, a, payloads, m);
    var grown := payloads + [payload];
    assert grown[m..] == payloads[m..] + [payload];
    receiver.AbsorbStep(payloads[m..], payload);
    assert TracksFrom(receiver, receiver.Absorb(a, payload), grown, m);
  }

  // The stream ends with a chunk run of this data.
  ghost predicate EndsWithRun(receiver: Receiver, payloads: seq<Bytes>, data: Bytes)
    requires IsTransport(receiver.t)
  {
    exists a: Assembly :: Tracks(receiver, a, payloads) && a.Complete? && a.data == data
  }

  lemma {:induction false} TakeAllTracks(w: World, identity: Identity, payloads: seq<Bytes>)
    ensures TakeAll(w, identity, payloads).end.None? ==>
      Tracks(w.Broker(identity), TakeAll(w, identity, payloads).a, payloads)
  {
    hide Tracks, Receiver.Absorb;
    var receiver := w.Broker(identity);
    if payloads == [] {
      TracksNothing(receiver, payloads);
    } else {
      var init, last := payloads[..|payloads| - 1], payloads[|payloads| - 1];
      assert payloads == init + [last];
      TakeAllTracks(w, identity, init);
      var before := TakeAll(w, identity, init);
      if before.end.None? {
        TracksNothing(receiver, payloads);
        TracksStep(receiver, before.a, init, last);
      }
    }
  }

  // Whatever frames arrive, the broker returns only a reply to the request it made: its
  // text names the request, and it is one frame that interrupts no chunk run, or a chunk
  // run that names the request, too.
  lemma OwnReplyOnly(w: World, identity: Identity, payloads: seq<Bytes>, payload: Bytes)
    requires TakeAll(w, identity, payloads).end.None?
    requires TakeAll(w, identity, payloads + [payload]).end.Some?
    ensures var end := TakeAll(w, identity, payloads + [payload]).end.value;
      end.Broken? ||
      (end.Return? && w.messageOf(end.reply) == Some(Reply(identity)) &&
       ((end.reply == payload && TakeAll(w, identity, payloads).a.Fresh?) ||
        EndsWithRun(w.Broker(identity), payloads + [payload], end.reply)))
  {
    hide Tracks, Receiver.Absorb, TakeAll;
    TakeStep(w, identity, payloads, payload);
    TakeAllTracks(w, identity, payloads);
    TracksStep(w.Broker(identity), TakeAll(w, identity, payloads).a, payloads, payload);
  }

  lemma TakeStep(w: World, identity: Identity, payloads: seq<Bytes>, payload: Bytes)
    ensures var before := TakeAll(w, identity, payloads);
      TakeAll(w, identity, payloads + [payload]) ==
        if before.end.Some? then before
        else
          match BrokerAccept(w, identity, before.a, payload)
          case Note => Waiting(Assembly.Fresh, None)
          case Continue(a) => Waiting(a, None)
          case Return(reply) => Waiting(before.a, Some(Return(reply)))
          case Broken => Waiting(before.a, Some(Broken))
  {
    hide BrokerAccept;
    assert (payloads + [payload])[..|payloads|] == payloads;
  }

  // A message about another request, or for nobody, breaks the exchange at once.
  lemma ForeignMessageBreaks(w: World, identity: Identity, payload: Bytes)
    requires w.messageOf(payload).Some?
    ensures BrokerAccept(w, identity, Assembly.Fresh, payload) ==
      if w.messageOf(payload) == Some(Reply(identity)) then Return(payload)
      else if w.messageOf(payload) == Some(Progress(identity)) then Note
      else Broken
  {
  }

  // ---------- the helper waiting for a request ----------

  datatype Hearing = Hearing(a: Assembly, end: Option<Served>)

  function HearAll(w: World, payloads: seq<Bytes>): Hearing
  {
    if payloads == [] then Hearing(Assembly.Fresh, None)
    else
      var before := HearAll(w, payloads[..|payloads| - 1]);
      if before.end.Some? then before
      else
        match HelperAccept(w, before.a, payloads[|payloads| - 1])
        case Await(a) => Hearing(a, None)
        case Serve(request) => Hearing(before.a, Some(Serve(request)))
        case Hangup => Hearing(before.a, Some(Hangup))
  }

  lemma HearStep(w: World, payloads: seq<Bytes>, payload: Bytes)
    ensures var before := HearAll(w, payloads);
      HearAll(w, payloads + [payload]) ==
        if before.end.Some? then before
        else
          match HelperAccept(w, before.a, payload)
          case Await(a) => Hearing(a, None)
          case Serve(request) => Hearing(before.a, Some(Serve(request)))
          case Hangup => Hearing(before.a, Some(Hangup))
  {
    hide HelperAccept;
    assert (payloads + [payload])[..|payloads|] == payloads;
  }

  lemma {:induction false} HearAllTracks(w: World, payloads: seq<Bytes>)
    ensures HearAll(w, payloads).end.None? ==> HearAll(w, payloads).a == w.Helper().AbsorbAll(payloads)
  {
    hide Receiver.Absorb, Receiver.AbsorbAll;
    var receiver := w.Helper();
    receiver.AbsorbStep([], []);
    if payloads != [] {
      var init, last := payloads[..|payloads| - 1], payloads[|payloads| - 1];
      assert payloads == init + [last];
      HearAllTracks(w, init);
      receiver.AbsorbStep(init, last);
    }
  }

  lemma AbsorbedSomething(receiver: Receiver, payloads: seq<Bytes>)
    requires IsTransport(receiver.t)
    ensures receiver.AbsorbAll(payloads).Fresh? <==> payloads == []
  {
    hide Receiver.AbsorbAll;
    receiver.AbsorbStep([], []);
    if payloads != [] {
      var init, last := payloads[..|payloads| - 1], payloads[|payloads| - 1];
      assert payloads == init + [last];
      receiver.AbsorbStep(init, last);
    }
  }

  // Whatever frames arrive, the helper serves only what decodes to the request it then
  // runs: the first frame by itself, or all the frames since it began to read, as one chunk
  // run of its own session. Anything else ends it.
  lemma OwnRequestOnly(w: World, payloads: seq<Bytes>, payload: Bytes)
    requires HearAll(w, payloads).end.None?
    requires HearAll(w, payloads + [payload]).end.Some?
    ensures var end := HearAll(w, payloads + [payload]).end.value;
      end.Hangup? ||
      (end.Serve? && w.requestOf(end.request.raw) == Some(end.request.identity) &&
       ((payloads == [] && end.request.raw == payload) ||
        (var a := w.Helper().AbsorbAll(payloads + [payload]); a.Complete? && a.data == end.request.raw)))
  {
    hide Receiver.Absorb, Receiver.AbsorbAll, HearAll;
    HearStep(w, payloads, payload);
    HearAllTracks(w, payloads);
    AbsorbedSomething(w.Helper(), payloads);
    w.Helper().AbsorbStep(payloads, payload);
  }

  // The helper goes on from a command only if it is the one its phase waits for.
  lemma CommandsExactly(w: World, s: State)
    requires Enabled(w, s, HelperRead) && !s.helper.ReadRequest?
    ensures var read, t := ReadByte(s.helperIn, s.toHelper[0], 16384), DoHelperRead(w, s);
      (t.helper == s.helper <==> read.More?) &&
      (t.helper.Provisioning? <==> s.helper.ReadInitial? && read == Got(w.initial)) &&
      (t.helper.Planning? <==> s.helper.ReadStart? && read == Got(w.start)) &&
      (t.helper == s.helper || t.helper.Provisioning? || t.helper.Planning? || t.helper.Ended?)
  {
    hide ReadByte;
  }

  // ---------- turns ----------

  // Either side reads only when it has written all it had to write.
  ghost predicate InTurn(s: State)
  {
    (HelperReads(s.helper) ==> s.helperOut == []) &&
    (StartupReads(s.client) || s.client.Receiving? ==> s.clientOut == [])
  }

  lemma InTurnNext(w: World, s: State, step: Step)
    requires InTurn(s) && Enabled(w, s, step)
    ensures InTurn(Do(w, s, step))
  {
    hide Frame, Stream, RequestFrames, ReplyFrames, World.Lawful, Requested, ValidRequest, ValidReply;
    hide DoHelperRead, DoClientRead, DoClientAdvance, DoHelperAdvance;
    match step
    case HelperRead => HelperReadTurn(w, s);
    case ClientRead => ClientReadTurn(w, s);
    case ClientAdvance => ClientAdvanceTurn(w, s);
    case HelperAdvance => HelperAdvanceTurn(w, s);
    case _ =>
  }

  lemma HelperReadTurn(w: World, s: State)
    requires s.toHelper != []
    ensures var t := DoHelperRead(w, s);
      t.helperOut == s.helperOut && t.client == s.client && t.clientOut == s.clientOut
  {
    hide ReadByte, HelperAccept;
  }

  lemma ClientReadTurn(w: World, s: State)
    requires s.toClient != [] && (StartupReads(s.client) || s.client.Receiving?)
    ensures var t := DoClientRead(w, s);
      t.helperOut == s.helperOut && t.helper == s.helper && t.clientOut == s.clientOut
  {
    hide ReadByte, BrokerAccept, P.Run;
  }

  lemma ClientAdvanceTurn(w: World, s: State)
    requires InTurn(s)
    ensures InTurn(DoClientAdvance(w, s))
  {
    hide Frame;
  }

  lemma HelperAdvanceTurn(w: World, s: State)
    requires InTurn(s)
    ensures InTurn(DoHelperAdvance(w, s))
  {
    hide Frame;
  }

  lemma {:induction false} RunInTurn(w: World, states: seq<State>, i: nat)
    requires Run(w, states) && i < |states|
    ensures InTurn(states[i])
  {
    hide InTurn, Do, Enabled;
    if i == 0 {
      StartsInTurn(w, states[0]);
    } else {
      RunInTurn(w, states, i - 1);
      assert Next(w, states[i - 1], states[i - 1 + 1]);
      var step :| Enabled(w, states[i - 1], step) && states[i] == Do(w, states[i - 1], step);
      InTurnNext(w, states[i - 1], step);
    }
  }

  lemma StartsInTurn(w: World, s: State)
    requires Init(w, s)
    ensures InTurn(s)
  {
  }
}
