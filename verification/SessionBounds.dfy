// What either process may have to hold in memory, whatever bytes are in the pipes.
module SessionBounds {
  import opened Strings
  import opened Framing
  import opened SessionTransport
  import opened SessionModel
  import P = StartupParser

  // A frame under way never outgrows the limit of the phase that reads it.
  ghost predicate Bounded(s: State)
  {
    (s.helperIn != [] ==> HelperReads(s.helper) || s.helper.Ended?) &&
    |s.helperIn| <= (if s.helper.ReadInitial? || s.helper.ReadStart? then 4 + 16384 else 4 + 131072) &&
    |s.clientIn| <= 4 + 262144 &&
    P.Open(s.parser.buffer)
  }

  lemma ReadByteBounded(buffer: Bytes, next: byte, limit: nat)
    ensures ReadByte(buffer, next, limit).More? ==> |ReadByte(buffer, next, limit).buffer| < 4 + limit
  {
    hide FromBigEndian;
  }

  lemma HelperReadBounded(w: World, s: State)
    requires Bounded(s) && s.toHelper != [] && HelperReads(s.helper)
    ensures Bounded(DoHelperRead(w, s))
  {
    hide ReadByte, HelperAccept, P.Open;
    ReadByteBounded(s.helperIn, s.toHelper[0], HelperLimit(s.helper));
  }

  lemma ClientReadBounded(w: World, s: State)
    requires Bounded(s) && s.toClient != [] && (StartupReads(s.client) || s.client.Receiving?)
    ensures Bounded(DoClientRead(w, s))
  {
    hide ReadByte, BrokerAccept, P.Open, P.Run;
    if StartupReads(s.client) {
      if P.Run(w.startup, s.parser, [s.toClient[0]]).error.None? {
        var payloads := P.AcceptedIsFramed(w.startup, s.parser, [s.toClient[0]]);
      }
    } else {
      ReadByteBounded(s.clientIn, s.toClient[0], RESPONSES.frameLimit);
    }
  }

  // Nothing else touches the buffers, and reading begins with an empty one.
  lemma OthersBounded(w: World, s: State, step: Step)
    requires Bounded(s) && Enabled(w, s, step) && !step.HelperRead? && !step.ClientRead?
    ensures Bounded(Do(w, s, step))
  {
    hide P.Open, Frame, Stream, RequestFrames, ReplyFrames, World.Lawful, DoHelperRead, DoClientRead, Bounded;
    hide ValidRequest, ValidReply, DoHelperAdvance, DoClientAdvance;
    HelperAdvanceBuffers(w, s);
    ClientAdvanceBuffers(w, s);
    WorkingIsEmpty(s);
    SameBuffers(s, Do(w, s, step));
  }

  lemma WorkingIsEmpty(s: State)
    requires Bounded(s)
    ensures s.helper.Running? ==> s.helperIn == []
  {
    hide P.Open;
  }

  lemma SameBuffers(s: State, t: State)
    requires Bounded(s)
    requires t.helperIn == s.helperIn && t.clientIn == s.clientIn && t.parser == s.parser
    requires t.helper == s.helper || t.helper.Ended? || s.helperIn == []
    ensures Bounded(t)
  {
    hide P.Open;
  }

  lemma HelperAdvanceBuffers(w: World, s: State)
    requires Bounded(s)
    ensures var t := DoHelperAdvance(w, s);
      t.helperIn == s.helperIn && t.clientIn == s.clientIn && t.parser == s.parser &&
      (t.helper == s.helper || t.helper.Ended? || s.helperIn == [])
  {
    hide Frame, P.Open;
  }

  lemma ClientAdvanceBuffers(w: World, s: State)
    ensures var t := DoClientAdvance(w, s);
      t.helperIn == s.helperIn && t.clientIn == s.clientIn && t.parser == s.parser && t.helper == s.helper
  {
    hide Frame;
  }

  // Every step keeps the bounds, for any contents of the pipes and any codec.
  lemma BoundedNext(w: World, s: State, step: Step)
    requires Bounded(s) && Enabled(w, s, step)
    ensures Bounded(Do(w, s, step))
  {
    hide Bounded, DoHelperRead, DoClientRead;
    match step
    case HelperRead => HelperReadBounded(w, s);
    case ClientRead => ClientReadBounded(w, s);
    case _ => OthersBounded(w, s, step);
  }

  lemma {:induction false} RunBounded(w: World, states: seq<State>, i: nat)
    requires Run(w, states) && i < |states|
    ensures Bounded(states[i])
  {
    hide Bounded, Do, Enabled;
    if i == 0 {
      InitBounded(w, states[0]);
    } else {
      RunBounded(w, states, i - 1);
      assert Next(w, states[i - 1], states[i - 1 + 1]);
      var step :| Enabled(w, states[i - 1], step) && states[i] == Do(w, states[i - 1], step);
      BoundedNext(w, states[i - 1], step);
    }
  }

  lemma InitBounded(w: World, s: State)
    requires Init(w, s)
    ensures Bounded(s)
  {
  }
}
