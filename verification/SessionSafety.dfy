// Safety of the two-process session over whole runs, with a cancellation at any
// moment: the control monitor never meets a typed frame, client and helper stay
// in step, and without a cancellation nobody waits for nothing.
module SessionSafety {
  import opened Strings
  import opened Framing
  import opened SessionTransport
  import opened SessionModel
  import opened SessionInvariant
  import SessionSplice
  import SessionDropped
  import P = StartupParser

  // Whole frames in both directions, a request that a cancel frame has cut, or a cancel
  // frame of which a stopped monitor has consumed the beginning.
  ghost predicate Inv(w: World, s: State)
  {
    AlignedInv(w, s) || SessionSplice.DoomedInv(w, s) || SessionDropped.DroppedInv(w, s)
  }

  lemma NextKeepsInv(w: World, s: State, step: Step)
    requires w.Lawful() && Inv(w, s) && Enabled(w, s, step)
    ensures Inv(w, Do(w, s, step))
  {
    hide AlignedInv, SessionSplice.DoomedInv, SessionDropped.DroppedInv, World.Lawful, Do, Enabled;
    if SessionSplice.DoomedInv(w, s) {
      SessionSplice.DoomedNext(w, s, step);
    } else if SessionDropped.DroppedInv(w, s) {
      SessionDropped.DroppedNext(w, s, step);
    } else if Do(w, s, step).dropped != [] {
      SessionDropped.KeepDrop(w, s, step);
    } else if step.Cancel? && step.at < |s.clientOut| {
      SessionSplice.KeepSplice(w, s, step.at, step.sent, step.upTo);
    } else {
      CancelBounds(w, s, step);
      AlignedNext(w, s, step);
    }
  }

  lemma CancelBounds(w: World, s: State, step: Step)
    requires Enabled(w, s, step)
    ensures step.Cancel? ==> step.at <= |s.clientOut|
  {
    hide World.Lawful;
  }

  lemma OpenSessionIsAligned(w: World, s: State)
    requires Inv(w, s)
    ensures !s.client.Closed? || MonitorActive(s.helper) ==> AlignedInv(w, s)
  {
    hide AlignedInv, SessionSplice.DoomedBy, Frame;
  }

  lemma {:induction false} RunKeepsInv(w: World, states: seq<State>, i: nat)
    requires w.Lawful() && Run(w, states) && i < |states|
    ensures Inv(w, states[i])
  {
    hide AlignedInv, SessionSplice.DoomedInv, SessionDropped.DroppedInv, Do, Enabled, World.Lawful, Init;
    if i == 0 {
      InitInv(w, states[0]);
    } else {
      RunKeepsInv(w, states, i - 1);
      assert Next(w, states[i - 1], states[i - 1 + 1]);
      var step :| Enabled(w, states[i - 1], step) && states[i] == Do(w, states[i - 1], step);
      NextKeepsInv(w, states[i - 1], step);
    }
  }

  // ---------- the two theorems ----------

  // Whenever the control monitor reads the helper's input, no typed byte is left for
  // it: all that was consumed by the monitor or is still to come is the cancel frame
  // of a client that has cancelled, up to what never got out, and otherwise nothing at
  // all. The monitor acts if and only if it has consumed the whole frame.
  lemma MonitorSeesOnlyCancel(w: World, states: seq<State>, i: nat)
    requires w.Lawful() && Run(w, states) && i < |states|
    ensures var s := states[i];
            MonitorActive(s.helper) ==>
              s.helperIn == [] && (!s.client.Closed? ==> s.unsent == []) &&
              s.monitored + s.toHelper + s.clientOut + s.unsent == (if s.client.Closed? then Frame(w.cancel) else []) &&
              (Requested(s.monitored) <==> s.client.Closed? && s.monitored == Frame(w.cancel))
  {
    hide Run, World.Lawful, AlignedInv, Inv, Requested, Frame;
    RunKeepsInv(w, states, i);
    var s := states[i];
    OpenSessionIsAligned(w, s);
    if MonitorActive(s.helper) {
      SessionDropped.MonitoredFrame(w, s);
      var more := s.toHelper + s.clientOut + s.unsent;
      assert s.monitored + more == s.monitored + s.toHelper + s.clientOut + s.unsent;
      if s.client.Closed? {
        SessionDropped.RequestedIsWhole(w, s.monitored, more);
        assert more == [] ==> s.monitored + more == s.monitored;
      } else {
        NothingRequested(s.monitored);
      }
    }
  }

  lemma NothingRequested(monitored: Bytes)
    ensures monitored == [] ==> !Requested(monitored)
  {
  }

  // In every run without cancellation nobody meets a protocol error, and whenever the
  // broker is between requests every request so far has returned exactly the progress
  // and the reply the helper produced for it, and no byte is left anywhere.
  lemma StaysInStep(w: World, states: seq<State>, i: nat)
    requires w.Lawful() && Run(w, states) && i < |states| && !states[i].client.Closed?
    ensures var s := states[i];
            !s.client.BrokenClient? && !s.helper.Ended? &&
            (s.client.Idle? ==>
               s.returned == s.served && s.pending == [] &&
               s.parser.buffer == [] && s.clientIn == [] && s.toClient == [] && s.helperOut == [] &&
               s.helperIn == [] && s.monitored == [] && s.toHelper == [] && s.clientOut == [])
  {
    hide Run, World.Lawful, Inv, AlignedInv;
    RunKeepsInv(w, states, i);
    OpenSessionIsAligned(w, states[i]);
    OpenIsSound(w, states[i]);
    if states[i].client.Idle? {
      IdleIsEmpty(w, states[i]);
    }
  }

  lemma OpenIsSound(w: World, s: State)
    requires AlignedInv(w, s) && !s.client.Closed?
    ensures !s.client.BrokenClient? && !s.helper.Ended?
  {
    hide HelperInv, ScriptInv, ExchangeInv, Stream, PartOf;
  }

  lemma IdleIsEmpty(w: World, s: State)
    requires AlignedInv(w, s) && s.client.Idle?
    ensures s.returned == s.served && s.pending == [] &&
      s.parser.buffer == [] && s.clientIn == [] && s.toClient == [] && s.helperOut == [] &&
      s.helperIn == [] && s.monitored == [] && s.toHelper == [] && s.clientOut == []
  {
    hide HelperInv, ExchangeInv, Stream, PartOf;
    AwaitsNothingIdle(w, s);
    InboundDone(w, s);
    StreamEmpty(s.outbound);
  }

  // ---------- nobody waits for nothing ----------

  // A pipe direction whose bytes have all been taken in holds no unfinished frame.
  lemma PartOfAll(buffer: Bytes, queue: seq<Bytes>)
    requires PartOf(buffer, queue) && buffer == Stream(queue)
    ensures queue == []
  {
    hide Frame;
    if queue != [] {
      StreamFirst(queue);
    }
  }

  lemma EmptyTail(a: Bytes)
    ensures a + [] + [] + [] + [] == a
  {
  }

  // A reading helper with a frame under way and nothing left to write finds bytes in the pipe.
  lemma HelperFindsBytes(w: World, s: State)
    requires HelperInv(w, s) && HelperReads(s.helper) && s.inbound != [] && s.clientOut == [] && !s.client.Closed?
    ensures s.toHelper != []
  {
    EmptyTail(s.helperIn);
    if s.toHelper == [] {
      PartOfAll(s.helperIn, s.inbound);
    }
  }

  lemma StartupMoves(w: World, s: State) returns (step: Step)
    requires w.Lawful() && AlignedInv(w, s) && StartupReads(s.client)
    requires s.clientOut == [] && s.helperOut == [] && s.pending == [] && s.toClient == []
    ensures (step.HelperRead? || step.HelperAdvance?) && Enabled(w, s, step) && Do(w, s, step) != s
  {
    hide Stream;
    hide Frame;
    hide ScriptInv;
    hide HelperInv;
    hide DoHelperRead;
    hide ReadByte;
    AllDelivered(w, s);
    NothingMonitored(w, s);
    if HelperReads(s.helper) {
      InitialPending(w, s);
      HelperFindsBytes(w, s);
      step := HelperRead;
      HelperReadConsumes(w, s);
    } else {
      step := HelperAdvance;
    }
  }

  lemma AllDelivered(w: World, s: State)
    requires ScriptInv(w, s) && s.helperOut == [] && s.pending == [] && s.toClient == []
    ensures s.emitted == s.popped
  {
    hide Stream;
    hide PartOf;
    hide P.RunPayloads;
    assert s.parser.buffer + [] + [] == s.parser.buffer;
    PartOfAll(s.parser.buffer, s.outbound);
  }

  lemma InitialPending(w: World, s: State)
    requires HelperInv(w, s) && StartupInv(w, s) && StartupReads(s.client)
    requires HelperReads(s.helper) && s.emitted == s.popped && |w.script| >= 3
    ensures s.inbound != []
  {
    hide Stream;
    hide ScriptInv;
    hide PartOf;
  }

  lemma HelperReadConsumes(w: World, s: State)
    requires s.toHelper != [] && HelperReads(s.helper)
    ensures |DoHelperRead(w, s).toHelper| == |s.toHelper| - 1
  {
  }

  lemma ReplyHasFrames(w: World, s: State, request: Request, a: Assembly, progress: seq<Bytes>)
    requires ExchangeInv(w, s, request, a, progress) && !s.helper.Running?
    ensures s.flight.None? ==> s.outbound != []
  {
    hide ReplyFrames;
    hide Receiver.AbsorbAll;
  }

  lemma FlightHasFrames(w: World, s: State)
    requires HelperInv(w, s) && s.helper.ReadRequest? && s.flight.Some? && !s.client.Closed?
    ensures s.inbound != []
  {
    hide RequestFrames;
    hide Receiver.AbsorbAll;
    hide Stream;
    hide PartOf;
  }

  lemma ReceivingMoves(w: World, s: State) returns (step: Step)
    requires w.Lawful() && AlignedInv(w, s) && s.client.Receiving? && !s.helper.Running?
    requires s.helperOut == [] && s.toClient == []
    ensures (step.HelperRead? || step.HelperAdvance?) && Enabled(w, s, step) && Do(w, s, step) != s
  {
    hide Stream;
    hide Frame;
    hide PartOf;
    hide ReplyFrames;
    hide RequestFrames;
    hide Receiver.AbsorbAll;
    assert s.clientIn + [] + [] == s.clientIn;
    ReplyHasFrames(w, s, s.client.request, s.client.a, s.client.progress);
    PartOfAll(s.clientIn, s.outbound);
    if s.helper.ReadRequest? {
      AwaitsNothing(w, s.flight, s.helper.a, s.inbound);
      FlightHasFrames(w, s);
      HelperFindsBytes(w, s);
      step := HelperRead;
    } else {
      NothingMonitored(w, s);
      step := HelperAdvance;
    }
  }

  // With pipes that hold at most `capacity` bytes, a full one delays its writer.
  ghost predicate EnabledWithin(w: World, capacity: nat, s: State, step: Step)
  {
    Enabled(w, s, step) && (step.ClientWrite? ==> |s.toHelper| < capacity) &&
    (step.HelperWrite? ==> |s.toClient| < capacity)
  }

  // The steps that only move bytes and react to them: no request, no reply, no cancellation.
  predicate Quiet(step: Step)
  {
    !step.SendRequest? && !step.EmitProgress? && !step.EmitReply? && !step.Cancel?
  }

  ghost predicate CanMove(w: World, capacity: nat, s: State)
  {
    exists step :: Quiet(step) && EnabledWithin(w, capacity, s, step) && Do(w, s, step) != s
  }

  // While the broker has bytes to write, a helper that does not read has nothing to
  // write either, unless the broker reads.
  lemma WriterMeetsReader(w: World, s: State)
    requires AlignedInv(w, s) && !s.client.Closed? && s.clientOut != [] && !HelperReads(s.helper)
    ensures s.monitored == [] && (s.helper.ReadyOut? || s.helper.NavigationOut? || s.helper.Replying?)
    ensures s.helperOut == [] || StartupReads(s.client)
  {
    hide PartOf, RequestFrames, ReplyFrames, Receiver.AbsorbAll, P.RunPayloads, EmittedFor, ExchangeInv;
    StreamEmpty(s.inbound);
    StreamEmpty(s.outbound);
    if s.client.Starting? {
      StartedEmptyHanded(w, s);
    } else if s.client.Sending? {
      SendingEmptyHanded(w, s);
    }
  }

  lemma StartedEmptyHanded(w: World, s: State)
    requires StartupInv(w, s) && s.client.Starting? && WaitsForStart(s.helper)
    ensures s.outbound == []
  {
    hide Stream, PartOf, P.RunPayloads;
  }

  lemma SendingEmptyHanded(w: World, s: State)
    requires s.client.Sending? && ExchangeInv(w, s, s.client.request, Assembly.Fresh, [])
    ensures s.flight.Some? ==> s.outbound == []
    ensures !s.helper.ReadyOut?
  {
    hide ReplyFrames, Receiver.AbsorbAll;
  }

  lemma FullPipeMoves(w: World, capacity: nat, s: State) returns (step: Step)
    requires 0 < capacity <= |s.toHelper| && AlignedInv(w, s) && !s.client.Closed? && s.clientOut != []
    ensures Quiet(step) && EnabledWithin(w, capacity, s, step) && Do(w, s, step) != s
  {
    hide AlignedInv;
    if HelperReads(s.helper) {
      step := HelperRead;
      HelperReadConsumes(w, s);
    } else {
      WriterMeetsReader(w, s);
      if s.helperOut == [] {
        step := HelperAdvance;
      } else if |s.toClient| < capacity {
        step := HelperWrite;
      } else {
        step := ClientRead;
        ReadConsumes(w, s);
      }
    }
  }

  // Without cancellation no run gets stuck, however small the pipes are: unless the
  // broker is between requests or the helper is working on one, some step that is
  // neither a request nor a reply changes the state.
  lemma NeverStuck(w: World, capacity: nat, states: seq<State>, i: nat)
    requires w.Lawful() && Run(w, states) && i < |states| && !states[i].client.Closed? && 0 < capacity
    requires !states[i].client.Idle? && !states[i].helper.Running?
    ensures CanMove(w, capacity, states[i])
  {
    hide *;
    RunKeepsInv(w, states, i);
    OpenSessionIsAligned(w, states[i]);
    AlignedMoves(w, capacity, states[i]);
  }

  lemma AlignedMoves(w: World, capacity: nat, s: State)
    requires w.Lawful() && AlignedInv(w, s) && !s.client.Closed? && 0 < capacity
    requires !s.client.Idle? && !s.helper.Running?
    ensures CanMove(w, capacity, s)
  {
    hide World.Lawful, HelperInv, ScriptInv, ExchangeInv, PartOf, Stream, Frame, DoClientRead, Requested;
    var step: Step;
    if s.clientOut != [] && |s.toHelper| < capacity {
      step := ClientWrite;
    } else if s.clientOut != [] {
      step := FullPipeMoves(w, capacity, s);
    } else if (StartupReads(s.client) || s.client.Receiving?) && s.toClient != [] {
      step := ClientRead;
      ReadConsumes(w, s);
    } else if s.helperOut != [] && |s.toClient| < capacity {
      step := HelperWrite;
    } else if s.helperOut == [] && StartupReads(s.client) && s.pending == [] {
      step := StartupMoves(w, s);
    } else if s.client.Receiving? {
      step := ReceivingMoves(w, s);
    } else {
      step := ClientAdvance;
    }
    assert Quiet(step) && EnabledWithin(w, capacity, s, step) && Do(w, s, step) != s;
  }

  lemma ReadConsumes(w: World, s: State)
    requires s.toClient != [] && (StartupReads(s.client) || s.client.Receiving?)
    ensures |DoClientRead(w, s).toClient| == |s.toClient| - 1
  {
  }
}
