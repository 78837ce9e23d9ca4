// A control monitor that was stopped in the middle of a cancel frame: what it has
// consumed is gone, and the helper never completes a frame from the rest.
module SessionDropped {
  import opened Strings
  import opened Framing
  import opened SessionTransport
  import opened SessionModel
  import opened SessionInvariant
  import P = StartupParser

  predicate Unwatched(helper: HelperPhase)
  {
    helper.ReadyOut? || helper.ReadStart? || helper.NavigationOut? || helper.Replying? || helper.ReadRequest?
  }

  // The length in the header, once it is there, is one the reader waits for.
  predicate Announces(buffer: Bytes, limit: nat)
  {
    FRAME_HEADER_BYTES <= |buffer| ==> FromBigEndian(buffer[..FRAME_HEADER_BYTES]) <= limit
  }

  ghost predicate DroppedInv(w: World, s: State)
  {
    s.client.Closed? && !s.spliced && s.monitored == [] && s.dropped != [] &&
    (s.helper.Ended? ||
     (Unwatched(s.helper) && (s.helperIn != [] ==> HelperReads(s.helper)) &&
      Announces(s.helperIn, HelperLimit(s.helper)) &&
      s.dropped + s.helperIn + s.toHelper + s.clientOut + s.unsent == Frame(w.cancel)))
  }

  // ---------- the rest of a cancel frame is no frame ----------

  lemma HeaderAtLeast(header: Bytes, i: nat)
    requires |header| == FRAME_HEADER_BYTES && i < 3
    ensures FromBigEndian(header) >= header[i] as int * 0x100
  {
  }

  // Read from behind its first byte, the frame announces more than it holds.
  lemma RestIsLong(w: World, k: nat)
    requires w.Lawful() && 0 < k && k + FRAME_HEADER_BYTES <= |Frame(w.cancel)|
    ensures FromBigEndian(Frame(w.cancel)[k..k + FRAME_HEADER_BYTES]) > |w.cancel|
  {
    hide World.Lawful, FromBigEndian, BigEndian;
    var frame := Frame(w.cancel);
    var header := frame[k..k + FRAME_HEADER_BYTES];
    CancelBytes(w);
    if k < FRAME_HEADER_BYTES {
      assert header[FRAME_HEADER_BYTES - 1 - k] == frame[FRAME_HEADER_BYTES - 1] == |w.cancel|;
      HeaderAtLeast(header, FRAME_HEADER_BYTES - 1 - k);
    } else {
      assert header[0] == w.cancel[k - FRAME_HEADER_BYTES];
      HeaderAtLeast(header, 0);
    }
  }

  lemma CancelBytes(w: World)
    requires w.Lawful()
    ensures 0 < |w.cancel| < 0x100 && 0 !in w.cancel && Frame(w.cancel)[FRAME_HEADER_BYTES - 1] == |w.cancel|
  {
  }

  lemma RestByte(w: World, s: State)
    requires w.Lawful() && DroppedInv(w, s) && Enabled(w, s, HelperRead)
    ensures var read := ReadByte(s.helperIn, s.toHelper[0], HelperLimit(s.helper));
      read.Bad? || (read == More(s.helperIn + [s.toHelper[0]]) && Announces(read.buffer, HelperLimit(s.helper)))
  {
    hide World.Lawful, FromBigEndian, Frame;
    var frame, k := Frame(w.cancel), |s.dropped|;
    var grown := s.helperIn + [s.toHelper[0]];
    var rest := s.toHelper[1..] + s.clientOut + s.unsent;
    assert s.toHelper == [s.toHelper[0]] + s.toHelper[1..];
    assert frame == s.dropped + (grown + rest);
    if FRAME_HEADER_BYTES <= |grown| {
      assert grown[..FRAME_HEADER_BYTES] == frame[k..k + FRAME_HEADER_BYTES];
      RestIsLong(w, k);
      FrameParts(w.cancel);
    }
  }

  // ---------- every step ----------

  lemma DroppedRead(w: World, s: State)
    requires w.Lawful() && DroppedInv(w, s) && Enabled(w, s, HelperRead)
    ensures DroppedInv(w, DoHelperRead(w, s))
  {
    hide World.Lawful, ReadByte, Frame, Announces;
    RestByte(w, s);
    var t := DoHelperRead(w, s);
    assert s.toHelper == [s.toHelper[0]] + s.toHelper[1..];
    assert !t.helper.Ended? ==> s.dropped + t.helperIn == s.dropped + s.helperIn + [s.toHelper[0]];
    assert !t.helper.Ended? ==> s.dropped + t.helperIn + t.toHelper == s.dropped + s.helperIn + s.toHelper;
  }

  lemma DroppedShift(w: World, s: State, t: State)
    requires DroppedInv(w, s) && t.client.Closed? && !t.spliced && t.monitored == []
    requires t.dropped == s.dropped && t.helperIn == s.helperIn && t.unsent == s.unsent
    requires t.toHelper + t.clientOut == s.toHelper + s.clientOut
    requires !t.helper.Ended? ==>
      !s.helper.Ended? && Unwatched(t.helper) && (HelperReads(s.helper) ==> t.helper == s.helper)
    ensures DroppedInv(w, t)
  {
    hide Frame, FromBigEndian;
    var head := s.dropped + s.helperIn;
    assert head + t.toHelper + t.clientOut == head + (t.toHelper + t.clientOut);
    assert head + s.toHelper + s.clientOut == head + (s.toHelper + s.clientOut);
  }

  // Such a helper ends or waits for the end of file, whatever happens next.
  lemma DroppedNext(w: World, s: State, step: Step)
    requires w.Lawful() && DroppedInv(w, s) && Enabled(w, s, step)
    ensures DroppedInv(w, Do(w, s, step))
  {
    hide World.Lawful, Frame, DoHelperRead, DoClientRead;
    if step.HelperRead? {
      DroppedRead(w, s);
    } else {
      assert step.ClientWrite? ==> s.clientOut == [s.clientOut[0]] + s.clientOut[1..];
      DroppedShift(w, s, Do(w, s, step));
    }
  }

  // A rest of four bytes and more can be waited for only behind the first byte.
  lemma RestIsTooLong(w: World, k: nat)
    requires w.Lawful() && 1 < k && k + FRAME_HEADER_BYTES <= |Frame(w.cancel)|
    ensures FromBigEndian(Frame(w.cancel)[k..k + FRAME_HEADER_BYTES]) > REQUESTS.frameLimit
  {
    hide World.Lawful, BigEndian, FromBigEndian;
    var frame := Frame(w.cancel);
    var header := frame[k..k + FRAME_HEADER_BYTES];
    CancelBytes(w);
    LargeHeader(header);
    if k == 2 {
      assert header[1] == frame[3] == |w.cancel| && header[2] == frame[4] == w.cancel[0];
      assert w.cancel[0] in w.cancel;
    } else if k == 3 {
      assert header[0] == frame[3] == |w.cancel|;
    } else {
      assert header[0] == frame[k] == w.cancel[k - FRAME_HEADER_BYTES];
      assert w.cancel[k - FRAME_HEADER_BYTES] in w.cancel;
    }
  }

  lemma LargeHeader(header: Bytes)
    requires |header| == FRAME_HEADER_BYTES
    ensures header[0] > 0 || (header[1] >= 2 && header[2] > 0) ==> FromBigEndian(header) > REQUESTS.frameLimit
  {
  }

  // Who waits for the end of file has the first byte missing, or all but three.
  lemma WaitsFor(w: World, s: State)
    requires w.Lawful() && DroppedInv(w, s) && HelperReads(s.helper)
    requires s.toHelper == [] && s.clientOut == [] && s.unsent == []
    ensures |s.dropped| == 1 || |s.dropped| > |w.cancel|
  {
    hide World.Lawful, Frame, FromBigEndian;
    var frame, k := Frame(w.cancel), |s.dropped|;
    assert s.dropped + s.helperIn + [] + [] + [] == s.dropped + s.helperIn;
    if 1 < k && k + FRAME_HEADER_BYTES <= |frame| {
      assert s.helperIn[..FRAME_HEADER_BYTES] == frame[k..k + FRAME_HEADER_BYTES];
      RestIsTooLong(w, k);
    }
  }

  // ---------- how it comes about ----------

  // What a monitor has not consumed of the cancel frame is still under way.
  lemma MonitoredFrame(w: World, s: State)
    requires AlignedInv(w, s) && MonitorActive(s.helper)
    ensures s.helperIn == []
    ensures s.monitored + s.toHelper + s.clientOut + s.unsent == if s.client.Closed? then Frame(w.cancel) else []
  {
    hide Frame, ClientInv;
    StreamOne(w.cancel);
    assert s.inbound == if s.client.Closed? then [w.cancel] else [];
    assert [] + s.monitored + s.toHelper + s.clientOut + s.unsent ==
      s.monitored + s.toHelper + s.clientOut + s.unsent;
  }

  // The monitor waits for a header, and then as long as what it has is the beginning of
  // a control frame.
  lemma RequestedExactly(monitored: Bytes)
    ensures !Requested(monitored) <==>
      |monitored| < 4 ||
      exists payload: Bytes :: 0 < |payload| <= 1024 && |monitored| < |Frame(payload)| && monitored <= Frame(payload)
  {
    hide FromBigEndian, BigEndian;
    if 4 <= |monitored| {
      var header := monitored[..FRAME_HEADER_BYTES];
      var length := FromBigEndian(header);
      if !Requested(monitored) {
        var payload := monitored[FRAME_HEADER_BYTES..] + seq(FRAME_HEADER_BYTES + length - |monitored|, _ => 0);
        HeaderRoundTrip(header);
        assert Frame(payload) == header + payload;
        assert monitored == header + monitored[FRAME_HEADER_BYTES..];
        assert monitored <= Frame(payload);
      }
      if payload: Bytes :| 0 < |payload| <= 1024 && |monitored| < |Frame(payload)| && monitored <= Frame(payload) {
        FrameParts(payload);
        assert header == Frame(payload)[..FRAME_HEADER_BYTES];
      }
    }
  }

  // A beginning of the cancel frame makes the monitor act if and only if it is all of it.
  lemma RequestedIsWhole(w: World, monitored: Bytes, more: Bytes)
    requires w.Lawful() && monitored + more == Frame(w.cancel)
    ensures Requested(monitored) <==> more == []
  {
    hide World.Lawful, FromBigEndian;
    CancelBytes(w);
    FrameParts(w.cancel);
    if FRAME_HEADER_BYTES <= |monitored| {
      assert monitored[..FRAME_HEADER_BYTES] == (monitored + more)[..FRAME_HEADER_BYTES];
    }
  }

  lemma KeepDrop(w: World, s: State, step: Step)
    requires AlignedInv(w, s) && Enabled(w, s, step) && Do(w, s, step).dropped != []
    ensures DroppedInv(w, Do(w, s, step))
  {
    hide World.Lawful, Frame, Requested;
    var t := Do(w, s, step);
    DropsMonitored(w, s, step);
    hide HelperInv, ClientInv, Do;
    MonitoredFrame(w, s);
    assert t.dropped + [] + t.toHelper + t.clientOut + t.unsent ==
      s.monitored + s.toHelper + s.clientOut + s.unsent;
  }

  // Only stopping a monitor drops anything, and then nothing else is touched.
  lemma DropsMonitored(w: World, s: State, step: Step)
    requires s.dropped == [] && Enabled(w, s, step) && Do(w, s, step).dropped != []
    ensures var t := Do(w, s, step);
      MonitorActive(s.helper) && s.monitored != [] && t.dropped == s.monitored && t.monitored == [] &&
      t.helperIn == s.helperIn && t.toHelper == s.toHelper && t.clientOut == s.clientOut && t.unsent == s.unsent &&
      t.client == s.client && t.spliced == s.spliced && Unwatched(t.helper)
  {
    hide World.Lawful, Frame, Requested, ReplyFrames, Stream, ValidReply, DoHelperAdvance;
    if step.HelperAdvance? {
      AdvanceDrops(w, s);
    } else if !step.EmitReply? && !step.Checkpoint? {
      OthersDropNothing(w, s, step);
    }
  }

  lemma OthersDropNothing(w: World, s: State, step: Step)
    requires Enabled(w, s, step) && !step.HelperAdvance? && !step.EmitReply? && !step.Checkpoint?
    ensures Do(w, s, step).dropped == s.dropped
  {
    hide World.Lawful, Frame, Requested, RequestFrames, Stream, ValidRequest, Sendable;
    hide DoHelperRead, DoClientRead, DoClientAdvance;
    ReadsDropNothing(w, s);
  }

  lemma ReadsDropNothing(w: World, s: State)
    ensures s.toHelper != [] ==> DoHelperRead(w, s).dropped == s.dropped
    ensures s.toClient != [] && (StartupReads(s.client) || s.client.Receiving?) ==>
      DoClientRead(w, s).dropped == s.dropped
    ensures DoClientAdvance(w, s).dropped == s.dropped
  {
    hide DoHelperRead, DoClientRead, Frame;
    HelperReadDropsNothing(w, s);
    ClientReadDropsNothing(w, s);
  }

  lemma HelperReadDropsNothing(w: World, s: State)
    ensures s.toHelper != [] ==> DoHelperRead(w, s).dropped == s.dropped
  {
    hide HelperAccept, ReadByte;
  }

  lemma ClientReadDropsNothing(w: World, s: State)
    ensures s.toClient != [] && (StartupReads(s.client) || s.client.Receiving?) ==>
      DoClientRead(w, s).dropped == s.dropped
  {
    hide BrokerAccept, ReadByte, P.Run;
  }

  lemma AdvanceDrops(w: World, s: State)
    ensures var t := DoHelperAdvance(w, s);
      t.dropped == s.dropped ||
      (MonitorActive(s.helper) && s.monitored != [] && t.dropped == s.monitored && t.monitored == [] &&
       t.helperIn == s.helperIn && t.toHelper == s.toHelper && t.clientOut == s.clientOut && t.unsent == s.unsent &&
       t.client == s.client && t.spliced == s.spliced && Unwatched(t.helper))
  {
    hide Frame;
  }
}
