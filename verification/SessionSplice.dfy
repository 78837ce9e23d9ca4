// A cancel frame that lands among the bytes of a request: the helper may still
// read whole chunks before it, but never completes the request.
module SessionSplice {
  import opened Strings
  import opened Framing
  import opened SessionTransport
  import opened SessionModel
  import opened SessionInvariant

  // Whatever frame the helper makes of these bytes, if any, it refuses.
  ghost predicate Poison(w: World, tail: Bytes)
  {
    FRAME_HEADER_BYTES <= |tail| ==>
      var length := FromBigEndian(tail[..FRAME_HEADER_BYTES]);
      0 < length <= REQUESTS.frameLimit && FRAME_HEADER_BYTES + length <= |tail| ==>
        Refused(w, tail[FRAME_HEADER_BYTES..FRAME_HEADER_BYTES + length])
  }

  ghost predicate Refused(w: World, payload: Bytes)
  {
    payload == w.cancel || 0 in payload
  }

  // `buffer` is a beginning of `tail` in which no frame has ended yet.
  ghost predicate Unfinished(tail: Bytes, buffer: Bytes)
  {
    buffer <= tail &&
    (FRAME_HEADER_BYTES <= |buffer| ==>
       var length := FromBigEndian(tail[..FRAME_HEADER_BYTES]);
       0 < length <= REQUESTS.frameLimit && |buffer| < FRAME_HEADER_BYTES + length)
  }

  predicate AtRequest(helper: HelperPhase)
  {
    helper.NavigationOut? || helper.Replying? || helper.ReadRequest?
  }

  function Absorbed(helper: HelperPhase): Assembly
  {
    if helper.ReadRequest? then helper.a else Assembly.Fresh
  }

  // The helper has absorbed j frames, the frames up to n are whole, the rest is not.
  ghost predicate DoomedBy(w: World, s: State, request: Request, j: nat, n: nat, tail: Bytes)
  {
    var frames := RequestFrames(w, request);
    ValidRequest(w, request) && j <= n < |frames| && Poison(w, tail) &&
    s.helperIn + s.toHelper + s.clientOut == Stream(frames[j..n]) + tail &&
    Absorbed(s.helper) == w.Helper().AbsorbAll(frames[..j]) &&
    if j < n then |s.helperIn| < |Frame(frames[j])| && s.helperIn == Frame(frames[j])[..|s.helperIn|]
    else Unfinished(tail, s.helperIn)
  }

  ghost predicate DoomedInv(w: World, s: State)
  {
    s.spliced && s.client.Closed? && s.monitored == [] &&
    (s.helper.Ended? ||
     (AtRequest(s.helper) && (s.helperIn != [] ==> s.helper.ReadRequest?) &&
      exists request, j, n, tail :: DoomedBy(w, s, request, j, n, tail)))
  }

  // ---------- the splice ----------

  lemma ShortHeader(n: nat)
    ensures n < 0x100_0000 ==> BigEndian(n)[0] == 0
    ensures n < 0x100 ==> BigEndian(n)[1] == 0 && BigEndian(n)[2] == 0
  {
    assert n < 0x100_0000 ==> n / 0x100 / 0x100 / 0x100 == 0;
    assert n < 0x100 ==> n / 0x100 == 0;
  }

  lemma ZeroHeader()
    ensures FromBigEndian([0, 0, 0, 0]) == 0
  {
  }

  // A cancel frame inside a frame leaves a zero byte in the payload, or no length.
  lemma SpliceIsPoison(w: World, payload: Bytes, r: nat, more: Bytes)
    requires w.Lawful() && Sendable(payload, REQUESTS.frameLimit) && r < |Frame(payload)|
    ensures Poison(w, Frame(payload)[..r] + Frame(w.cancel) + more)
  {
    var frame, cancel := Frame(payload), Frame(w.cancel);
    var tail := frame[..r] + cancel + more;
    hide World.Lawful, FromBigEndian, BigEndian;
    ShortHeader(|payload|);
    ShortHeader(|w.cancel|);
    assert |w.cancel| < 0x100 by { CancelIsShort(w); }
    var header := tail[..FRAME_HEADER_BYTES];
    if r == 0 {
      FrameParts(w.cancel);
      assert header == cancel[..FRAME_HEADER_BYTES];
      assert tail[FRAME_HEADER_BYTES..FRAME_HEADER_BYTES + |w.cancel|] == w.cancel;
    } else if r == 1 {
      assert header == [0, 0, 0, 0];
      ZeroHeader();
    } else if r < FRAME_HEADER_BYTES {
      assert tail[FRAME_HEADER_BYTES] == cancel[FRAME_HEADER_BYTES - r] == 0;
      ZeroInside(tail, FRAME_HEADER_BYTES);
    } else {
      FrameParts(payload);
      assert header == frame[..FRAME_HEADER_BYTES];
      assert tail[r] == cancel[0] == 0;
      ZeroInside(tail, r);
    }
  }

  // What is cut off behind the splice can only take frames away.
  lemma PoisonCut(w: World, tail: Bytes, n: nat)
    requires Poison(w, tail) && n <= |tail|
    ensures Poison(w, tail[..n])
  {
    hide FromBigEndian, Refused;
    var cut := tail[..n];
    if FRAME_HEADER_BYTES <= n {
      assert cut[..FRAME_HEADER_BYTES] == tail[..FRAME_HEADER_BYTES];
      var last := FRAME_HEADER_BYTES + FromBigEndian(tail[..FRAME_HEADER_BYTES]);
      assert last <= n ==> cut[FRAME_HEADER_BYTES..last] == tail[FRAME_HEADER_BYTES..last];
    }
  }

  // A cancel frame of which only a beginning got out, with nothing behind it.
  lemma PartIsPoison(w: World, payload: Bytes, r: nat, sent: nat, more: Bytes)
    requires w.Lawful() && Sendable(payload, REQUESTS.frameLimit) && r < |Frame(payload)|
    requires sent <= |Frame(w.cancel)| && (sent < |Frame(w.cancel)| ==> more == [])
    ensures Poison(w, Frame(payload)[..r] + (Frame(w.cancel)[..sent] + more))
  {
    hide Frame, Poison, World.Lawful;
    var head, cancel := Frame(payload)[..r], Frame(w.cancel);
    SpliceIsPoison(w, payload, r, more);
    if sent < |cancel| {
      PoisonCut(w, head + cancel + more, r + sent);
      assert (head + cancel + more)[..r + sent] == head + (cancel[..sent] + more);
    } else {
      assert cancel[..sent] == cancel;
      assert head + cancel + more == head + (cancel + more);
    }
  }

  lemma CancelIsShort(w: World)
    requires w.Lawful()
    ensures 0 < |w.cancel| < 0x100
  {
  }

  lemma ZeroInside(tail: Bytes, at: nat)
    requires FRAME_HEADER_BYTES <= at < |tail| && tail[at] == 0
    ensures var length := FromBigEndian(tail[..FRAME_HEADER_BYTES]);
      at < FRAME_HEADER_BYTES + length <= |tail| ==> 0 in tail[FRAME_HEADER_BYTES..FRAME_HEADER_BYTES + length]
  {
    hide FromBigEndian;
    var length := FromBigEndian(tail[..FRAME_HEADER_BYTES]);
    if at < FRAME_HEADER_BYTES + length <= |tail| {
      assert tail[FRAME_HEADER_BYTES..FRAME_HEADER_BYTES + length][at - FRAME_HEADER_BYTES] == 0;
    }
  }

  // The frame of a stream that a position falls into.
  lemma {:induction false} Locate(queue: seq<Bytes>, at: nat) returns (i: nat, r: nat)
    requires at < |Stream(queue)|
    ensures i < |queue| && r < |Frame(queue[i])| && at == |Stream(queue[..i])| + r
    ensures Stream(queue) == Stream(queue[..i]) + Frame(queue[i]) + Stream(queue[i + 1..])
    decreases |queue|
  {
    hide Frame;
    StreamFirst(queue);
    var first := |Frame(queue[0])|;
    assert queue[..0] == [];
    if at < first {
      i, r := 0, at;
      assert Stream(queue[..0]) + Frame(queue[0]) == Frame(queue[0]);
    } else {
      var i', r' := Locate(queue[1..], at - first);
      i, r := i' + 1, r';
      StreamFirst(queue[..i]);
      assert queue[..i][0] == queue[0] && queue[..i][1..] == queue[1..][..i'];
      assert queue[1..][i' + 1..] == queue[i + 1..];
    }
  }

  // The bytes of the first frames, then those up to the cut.
  lemma CutBytes(queue: seq<Bytes>, whole: Bytes, at: nat, i: nat, r: nat)
    requires whole == Stream(queue) && i < |queue| && r < |Frame(queue[i])| && at == |Stream(queue[..i])| + r
    requires Stream(queue) == Stream(queue[..i]) + Frame(queue[i]) + Stream(queue[i + 1..])
    ensures at <= |whole| && whole[..at] == Stream(queue[..i]) + Frame(queue[i])[..r]
  {
    hide Frame, Stream;
    var head, frame := Stream(queue[..i]), Frame(queue[i]);
    assert whole == (head + frame) + Stream(queue[i + 1..]);
    assert whole[..at] == (head + frame)[..at];
    assert (head + frame)[..at] == head + frame[..r];
  }

  // A request still being written has not been accepted.
  lemma SendingIsUnderWay(w: World, s: State) returns (request: Request, j: nat)
    requires w.Lawful() && AlignedInv(w, s) && s.client.Sending? && s.clientOut != []
    ensures ValidRequest(w, request) && UnderWay(w, request, Absorbed(s.helper), s.inbound, j)
    ensures AtRequest(s.helper) && s.monitored == [] && s.inbound != []
    ensures s.helperIn + s.toHelper + s.clientOut == Stream(s.inbound) && PartOf(s.helperIn, s.inbound)
    ensures s.helperIn != [] ==> s.helper.ReadRequest?
  {
    hide UnderWay, ReplyUnderWay, AllProgress, PartOf, Stream, World.Lawful, ValidRequest, ValidReply;
    StreamEmpty(s.inbound);
    assert s.helperIn + s.monitored + s.toHelper + s.clientOut != [];
    assert s.inbound != [] && Typed(s) == s.inbound;
    request := s.client.request;
    assert s.flight == Some(request);
    assert s.helperIn + [] + s.toHelper + s.clientOut == s.helperIn + s.toHelper + s.clientOut;
    j :| UnderWay(w, request, Absorbed(s.helper), s.inbound, j);
  }

  // Where the cancel frame lands, as a position in the frames under way.
  lemma SplicePlace(read: Bytes, unread: Bytes, at: nat, more: Bytes, queue: seq<Bytes>)
    returns (i: nat, r: nat)
    requires read + unread == Stream(queue) && at < |unread|
    ensures i < |queue| && r < |Frame(queue[i])| && |read| + at == |Stream(queue[..i])| + r
    ensures read + (unread[..at] + more) == Stream(queue[..i]) + (Frame(queue[i])[..r] + more)
  {
    hide Stream, Frame;
    var before := read + unread[..at];
    assert unread == unread[..at] + unread[at..];
    assert read + unread == before + unread[at..];
    i, r := Locate(queue, |before|);
    CutBytes(queue, Stream(queue), |before|, i, r);
    assert before == Stream(queue)[..|before|];
    assert read + (unread[..at] + more) == before + more;
    assert Stream(queue[..i]) + (Frame(queue[i])[..r] + more) == Stream(queue[..i]) + Frame(queue[i])[..r] + more;
  }

  lemma KeepSplice(w: World, s: State, at: nat, sent: nat, upTo: nat)
    requires w.Lawful() && AlignedInv(w, s) && Enabled(w, s, Cancel(at, sent, upTo)) && at < |s.clientOut|
    ensures DoomedInv(w, Do(w, s, Cancel(at, sent, upTo)))
  {
    hide UnderWay, PartOf, Stream, Frame, HelperInv, ClientInv, World.Lawful, ValidRequest, DoomedBy;
    var t := Do(w, s, Cancel(at, sent, upTo));
    var request, j := SendingIsUnderWay(w, s);
    var read, after := s.helperIn + s.toHelper, Frame(w.cancel)[..sent] + s.clientOut[at..upTo];
    var i, r := SplicePlace(read, s.clientOut, at, after, s.inbound);
    assert t.clientOut == s.clientOut[..at] + after;
    assert t.helperIn + t.toHelper + t.clientOut == read + t.clientOut;
    SplicedBy(w, s, t, request, j, i, r, sent, s.clientOut[at..upTo]);
  }

  lemma SplicedBy(
    w: World, s: State, t: State, request: Request, j: nat, i: nat, r: nat, sent: nat, more: Bytes)
    requires w.Lawful() && ValidRequest(w, request) && UnderWay(w, request, Absorbed(s.helper), s.inbound, j)
    requires PartOf(s.helperIn, s.inbound) && i < |s.inbound| && r < |Frame(s.inbound[i])|
    requires |s.helperIn| <= |Stream(s.inbound[..i])| + r
    requires t.helper == s.helper && t.helperIn == s.helperIn
    requires sent <= |Frame(w.cancel)| && (sent < |Frame(w.cancel)| ==> more == [])
    requires t.helperIn + t.toHelper + t.clientOut ==
      Stream(s.inbound[..i]) + (Frame(s.inbound[i])[..r] + (Frame(w.cancel)[..sent] + more))
    ensures DoomedBy(w, t, request, j, j + i, Frame(s.inbound[i])[..r] + (Frame(w.cancel)[..sent] + more))
  {
    hide Stream, World.Lawful, ValidRequest, FromBigEndian, RequestFrames, Receiver.AbsorbAll, Poison;
    var frames := RequestFrames(w, request);
    RequestFits(w, request);
    assert s.inbound == frames[j..];
    assert s.inbound[..i] == frames[j..j + i] && s.inbound[i] == frames[j + i];
    PartIsPoison(w, s.inbound[i], r, sent, more);
    if i == 0 {
      StreamOne([]);
      assert s.inbound[..0] == [];
      FrameParts(s.inbound[0]);
      PartStart(s.helperIn, s.inbound[0], r, Frame(w.cancel)[..sent] + more);
    }
  }

  // A part of a frame that ends before the cut is no finished frame of the damaged bytes.
  lemma PartStart(buffer: Bytes, payload: Bytes, r: nat, more: Bytes)
    requires Sendable(payload, REQUESTS.frameLimit) && |buffer| <= r < |Frame(payload)|
    requires buffer == Frame(payload)[..|buffer|]
    ensures Unfinished(Frame(payload)[..r] + more, buffer)
  {
    hide FromBigEndian;
    var tail := Frame(payload)[..r] + more;
    FrameParts(payload);
    assert tail[..|buffer|] == buffer;
    if FRAME_HEADER_BYTES <= |buffer| {
      assert tail[..FRAME_HEADER_BYTES] == Frame(payload)[..FRAME_HEADER_BYTES];
    }
  }

  // ---------- the doomed helper ----------

  lemma OpenAssembly(w: World, request: Request, j: nat)
    requires w.Lawful() && ValidRequest(w, request) && j < |RequestFrames(w, request)|
    ensures var a := w.Helper().AbsorbAll(RequestFrames(w, request)[..j]); a.Fresh? || a.Partial?
  {
    hide Receiver.AbsorbAll, Chunks;
    var frames := RequestFrames(w, request);
    if j == 0 {
      AbsorbNothing(w.Helper());
      assert frames[..0] == [];
    } else {
      ReassemblyRoundTrip(w.Helper(), request.identity, request.raw, frames, j);
    }
  }

  lemma RefusedHangsUp(w: World, a: Assembly, payload: Bytes)
    requires w.Lawful() && Refused(w, payload) && (a.Fresh? || a.Partial?)
    ensures HelperAccept(w, a, payload).Hangup?
  {
    assert w.requestOf(payload).None? && w.codec.decode(payload).None?;
    hide World.Lawful;
    assert w.Helper().DecodeChunk(payload).Err?;
  }

  // One more byte of a whole frame.
  lemma FrameByte(buffer: Bytes, next: byte, rest: Bytes, payload: Bytes, after: Bytes)
    requires Sendable(payload, REQUESTS.frameLimit)
    requires |buffer| < |Frame(payload)| && buffer == Frame(payload)[..|buffer|]
    requires buffer + [next] + rest == Frame(payload) + after
    ensures var read := ReadByte(buffer, next, REQUESTS.frameLimit);
      (read == More(buffer + [next]) && |buffer| + 1 < |Frame(payload)| &&
       buffer + [next] == Frame(payload)[..|buffer| + 1]) ||
      (read == Got(payload) && rest == after)
  {
    hide FromBigEndian;
    var frame, grown := Frame(payload), buffer + [next];
    FrameParts(payload);
    assert grown == (grown + rest)[..|grown|] == (frame + after)[..|grown|] == frame[..|grown|];
    if |grown| >= FRAME_HEADER_BYTES {
      assert grown[..FRAME_HEADER_BYTES] == frame[..FRAME_HEADER_BYTES];
    }
    if |grown| == |frame| {
      assert grown == frame;
      assert rest == (grown + rest)[|grown|..] == (frame + after)[|frame|..] == after;
    }
  }

  // One more byte of the damaged rest.
  lemma TailByte(w: World, buffer: Bytes, next: byte, rest: Bytes, tail: Bytes)
    requires Poison(w, tail) && Unfinished(tail, buffer) && buffer + [next] + rest == tail
    ensures var read := ReadByte(buffer, next, REQUESTS.frameLimit);
      (read == More(buffer + [next]) && Unfinished(tail, buffer + [next])) ||
      read.Bad? || (read.Got? && Refused(w, read.payload))
  {
    hide FromBigEndian, Refused;
    var grown := buffer + [next];
    assert grown <= tail;
    if |grown| >= FRAME_HEADER_BYTES {
      assert grown[..FRAME_HEADER_BYTES] == tail[..FRAME_HEADER_BYTES];
      var length := FromBigEndian(tail[..FRAME_HEADER_BYTES]);
      assert |buffer| >= FRAME_HEADER_BYTES || |grown| == FRAME_HEADER_BYTES;
      if 0 < length <= REQUESTS.frameLimit && |grown| >= FRAME_HEADER_BYTES + length {
        assert |grown| == FRAME_HEADER_BYTES + length;
        assert grown[FRAME_HEADER_BYTES..] == tail[FRAME_HEADER_BYTES..FRAME_HEADER_BYTES + length];
      }
    }
  }

  lemma DoomedRead(w: World, s: State, request: Request, j: nat, n: nat, tail: Bytes)
    requires w.Lawful() && DoomedInv(w, s) && s.helper.ReadRequest? && s.toHelper != []
    requires DoomedBy(w, s, request, j, n, tail)
    ensures DoomedInv(w, DoHelperRead(w, s))
  {
    hide Stream, Frame, ReadByte, HelperAccept, World.Lawful, ValidRequest, RequestFrames, Poison, Unfinished;
    var next, rest := s.toHelper[0], s.toHelper[1..] + s.clientOut;
    assert s.toHelper == [next] + s.toHelper[1..];
    assert s.helperIn + [next] + rest == s.helperIn + s.toHelper + s.clientOut;
    if j < n {
      DoomedFrameRead(w, s, request, j, n, tail, rest);
    } else {
      DoomedTailRead(w, s, request, j, n, tail, rest);
    }
  }

  // A read byte, by what it makes of the frame; a refused frame ends the helper.
  lemma ReadCases(w: World, s: State)
    requires s.helper.ReadRequest? && s.toHelper != []
    ensures var read, t := ReadByte(s.helperIn, s.toHelper[0], REQUESTS.frameLimit), DoHelperRead(w, s);
      t.spliced == s.spliced && t.client == s.client && t.monitored == s.monitored &&
      (read.More? ==> t == s.(toHelper := s.toHelper[1..], helperIn := read.buffer)) &&
      (read.Bad? ==> t.helper.Ended?) &&
      (read.Got? && HelperAccept(w, s.helper.a, read.payload).Hangup? ==> t.helper.Ended?)
  {
    hide ReadByte, HelperAccept;
  }

  lemma DoomedTailRead(w: World, s: State, request: Request, j: nat, n: nat, tail: Bytes, rest: Bytes)
    requires w.Lawful() && DoomedInv(w, s) && s.helper.ReadRequest? && s.toHelper != []
    requires DoomedBy(w, s, request, j, n, tail) && j == n
    requires rest == s.toHelper[1..] + s.clientOut
    requires s.helperIn + [s.toHelper[0]] + rest == s.helperIn + s.toHelper + s.clientOut
    ensures DoomedInv(w, DoHelperRead(w, s))
  {
    hide Frame, Stream, ReadByte, HelperAccept, World.Lawful, ValidRequest, RequestFrames, Poison, Unfinished, Refused;
    hide DoHelperRead, Receiver.AbsorbAll;
    StreamOne([]);
    assert RequestFrames(w, request)[n..n] == [] && [] + tail == tail;
    TailByte(w, s.helperIn, s.toHelper[0], rest, tail);
    ReadCases(w, s);
    var read := ReadByte(s.helperIn, s.toHelper[0], REQUESTS.frameLimit);
    if read.Got? {
      OpenAssembly(w, request, j);
      RefusedHangsUp(w, s.helper.a, read.payload);
    } else if read.More? {
      var t := DoHelperRead(w, s);
      assert t.helperIn + t.toHelper + t.clientOut == s.helperIn + [s.toHelper[0]] + rest;
      assert DoomedBy(w, t, request, j, n, tail);
    }
  }

  lemma DoomedFrameRead(w: World, s: State, request: Request, j: nat, n: nat, tail: Bytes, rest: Bytes)
    requires w.Lawful() && DoomedInv(w, s) && s.helper.ReadRequest? && s.toHelper != []
    requires DoomedBy(w, s, request, j, n, tail) && j < n
    requires rest == s.toHelper[1..] + s.clientOut
    requires s.helperIn + [s.toHelper[0]] + rest == s.helperIn + s.toHelper + s.clientOut
    ensures DoomedInv(w, DoHelperRead(w, s))
  {
    hide Stream, Frame, ReadByte, HelperAccept, World.Lawful;
    hide ValidRequest, RequestFrames, Poison, Refused, Receiver.AbsorbAll;
    var frames := RequestFrames(w, request);
    var queue := frames[j..n];
    RequestFits(w, request);
    StreamFirst(queue);
    assert queue[0] == frames[j] && queue[1..] == frames[j + 1..n];
    var after := Stream(queue[1..]) + tail;
    assert Stream(queue) + tail == Frame(frames[j]) + after;
    FrameByte(s.helperIn, s.toHelper[0], rest, frames[j], after);
    var t := DoHelperRead(w, s);
    if ReadByte(s.helperIn, s.toHelper[0], REQUESTS.frameLimit).More? {
      assert t.helperIn + t.toHelper + t.clientOut == s.helperIn + [s.toHelper[0]] + rest;
      assert DoomedBy(w, t, request, j, n, tail);
    } else {
      HelperTakesFrame(w, request, s.helper.a, frames[j..], j);
      assert [] + s.toHelper[1..] + s.clientOut == rest;
      assert DoomedBy(w, t, request, j + 1, n, tail);
    }
  }

  lemma DoomedShift(w: World, s: State, t: State)
    requires DoomedInv(w, s)
    requires t.spliced && t.client.Closed? && t.monitored == [] && t.helperIn == s.helperIn
    requires t.toHelper + t.clientOut == s.toHelper + s.clientOut
    requires !t.helper.Ended? ==>
      !s.helper.Ended? && AtRequest(t.helper) && Absorbed(t.helper) == Absorbed(s.helper) &&
      (s.helper.ReadRequest? ==> t.helper.ReadRequest?)
    ensures DoomedInv(w, t)
  {
    hide Stream, Frame, Poison, Unfinished, RequestFrames, ValidRequest, Receiver.AbsorbAll;
    if !t.helper.Ended? {
      var request, j: nat, n: nat, tail :| DoomedBy(w, s, request, j, n, tail);
      assert t.helperIn + t.toHelper + t.clientOut == t.helperIn + (t.toHelper + t.clientOut);
      assert s.helperIn + s.toHelper + s.clientOut == s.helperIn + (s.toHelper + s.clientOut);
      assert DoomedBy(w, t, request, j, n, tail);
    }
  }

  // Every step of a doomed session leaves it doomed.
  lemma DoomedNext(w: World, s: State, step: Step)
    requires w.Lawful() && DoomedInv(w, s) && Enabled(w, s, step)
    ensures DoomedInv(w, Do(w, s, step))
  {
    hide DoomedBy, World.Lawful;
    if step.HelperRead? {
      var request, j: nat, n: nat, tail :| DoomedBy(w, s, request, j, n, tail);
      DoomedRead(w, s, request, j, n, tail);
    } else {
      hide DoHelperRead, DoClientRead;
      assert step.ClientWrite? ==> s.clientOut == [s.clientOut[0]] + s.clientOut[1..];
      DoomedShift(w, s, Do(w, s, step));
    }
  }
}
