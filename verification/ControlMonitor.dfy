// The control monitor: what the bytes on the helper's input mean once the start
// command has been read, however they arrive.
module ControlMonitor {
  import opened Strings
  import opened Framing
  import opened Cancellation

  const MAX_CONTROL_FRAME_BYTES := 1024

  // decode_control_frame accepts a payload.
  type Accepts = Bytes -> bool

  ghost predicate IsCancelFrame(accepts: Accepts, stream: Bytes)
  {
    exists payload: Bytes ::
      Sendable(payload, MAX_CONTROL_FRAME_BYTES) && accepts(payload) && stream == Frame(payload)
  }

  // End of file alone and one valid frame are a cancellation; anything else is a
  // protocol error.
  ghost function Verdict(accepts: Accepts, stream: Bytes): Code
  {
    if stream == [] || IsCancelFrame(accepts, stream) then Cancelled else ProtocolError
  }

  // A stream that cannot be extended to a single valid frame.
  ghost predicate Hopeless(accepts: Accepts, seen: Bytes)
  {
    seen != [] && forall future: Bytes :: !IsCancelFrame(accepts, seen + future)
  }

  lemma HopelessVerdict(accepts: Accepts, seen: Bytes, future: Bytes)
    requires Hopeless(accepts, seen)
    ensures Verdict(accepts, seen + future) == ProtocolError
  {
  }

  // The header decides the length of the only frame a stream can be.
  lemma FrameLength(seen: Bytes, future: Bytes, payload: Bytes)
    requires FRAME_HEADER_BYTES <= |seen| && |payload| < 0x1_0000_0000 && seen + future == Frame(payload)
    ensures FromBigEndian(seen[..FRAME_HEADER_BYTES]) == |payload|
    ensures |seen| >= FRAME_HEADER_BYTES + |payload| ==> seen == Frame(payload)
  {
    FrameParts(payload);
    assert (seen + future)[..FRAME_HEADER_BYTES] == seen[..FRAME_HEADER_BYTES];
    if |seen| >= FRAME_HEADER_BYTES + |payload| {
      assert future == [];
      assert seen + future == seen;
    }
  }

  lemma TooLongIsHopeless(accepts: Accepts, seen: Bytes)
    requires |seen| > FRAME_HEADER_BYTES + MAX_CONTROL_FRAME_BYTES
    ensures Hopeless(accepts, seen)
  {
  }

  lemma BadLengthIsHopeless(accepts: Accepts, seen: Bytes)
    requires FRAME_HEADER_BYTES <= |seen|
    requires var length := FromBigEndian(seen[..FRAME_HEADER_BYTES]); length == 0 || length > MAX_CONTROL_FRAME_BYTES
    ensures Hopeless(accepts, seen)
  {
    forall future: Bytes ensures !IsCancelFrame(accepts, seen + future) {
      if IsCancelFrame(accepts, seen + future) {
        var payload: Bytes :| Sendable(payload, MAX_CONTROL_FRAME_BYTES) && accepts(payload) &&
          seen + future == Frame(payload);
        FrameLength(seen, future, payload);
      }
    }
  }

  lemma FrameStart(payload: Bytes, rest: Bytes, future: Bytes, other: Bytes)
    requires Sendable(payload, MAX_CONTROL_FRAME_BYTES) && Sendable(other, MAX_CONTROL_FRAME_BYTES)
    requires Frame(payload) + rest + future == Frame(other)
    ensures other == payload && rest == []
  {
    var seen := Frame(payload) + rest;
    FrameLength(seen, future, other);
    FrameParts(payload);
    FrameParts(other);
    assert seen[..FRAME_HEADER_BYTES] == Frame(payload)[..FRAME_HEADER_BYTES];
    assert |other| == |payload|;
    assert Frame(other) == Frame(payload) + rest;
    assert rest == [];
    assert Frame(other) == Frame(payload);
  }

  // A complete frame settles everything that starts with it.
  lemma WholeFrame(accepts: Accepts, payload: Bytes, rest: Bytes)
    requires Sendable(payload, MAX_CONTROL_FRAME_BYTES)
    ensures rest != [] || !accepts(payload) ==> Hopeless(accepts, Frame(payload) + rest)
  {
    hide Frame;
    var seen := Frame(payload) + rest;
    if rest != [] || !accepts(payload) {
      forall future: Bytes ensures !IsCancelFrame(accepts, seen + future) {
        if other: Bytes :| Sendable(other, MAX_CONTROL_FRAME_BYTES) && accepts(other) && seen + future == Frame(other) {
          FrameStart(payload, rest, future, other);
        }
      }
    }
  }

  lemma Incomplete(accepts: Accepts, stream: Bytes)
    requires stream != []
    requires |stream| < FRAME_HEADER_BYTES ||
      |stream| < FRAME_HEADER_BYTES + FromBigEndian(stream[..FRAME_HEADER_BYTES])
    ensures Verdict(accepts, stream) == ProtocolError
  {
    if payload: Bytes :| Sendable(payload, MAX_CONTROL_FRAME_BYTES) && accepts(payload) && stream == Frame(payload) {
      assert stream + [] == stream;
      FrameLength(stream, [], payload);
    }
  }

  // A frame is its header and the bytes the header announces.
  lemma CutFrame(buffer: Bytes, length: nat)
    requires FRAME_HEADER_BYTES + length <= |buffer| && FromBigEndian(buffer[..FRAME_HEADER_BYTES]) == length
    ensures buffer == Frame(buffer[FRAME_HEADER_BYTES..FRAME_HEADER_BYTES + length]) +
      buffer[FRAME_HEADER_BYTES + length..]
  {
    HeaderRoundTrip(buffer[..FRAME_HEADER_BYTES]);
  }

  function JoinedAll(batches: seq<seq<Bytes>>): Bytes
  {
    if batches == [] then [] else JoinedAll(batches[..|batches| - 1]) + Joined(batches[|batches| - 1])
  }

  // What is buffered came right after one valid frame.
  ghost predicate Follows(accepts: Accepts, read: Bytes, buffer: Bytes)
  {
    exists payload: Bytes ::
      Sendable(payload, MAX_CONTROL_FRAME_BYTES) && accepts(payload) && read == Frame(payload) + buffer
  }

  lemma StillFollows(accepts: Accepts, read: Bytes, buffer: Bytes, more: Bytes)
    requires Follows(accepts, read, buffer)
    ensures Follows(accepts, read + more, buffer + more)
  {
    hide Frame;
    var payload: Bytes :| Sendable(payload, MAX_CONTROL_FRAME_BYTES) && accepts(payload) &&
      read == Frame(payload) + buffer;
    assert read + more == Frame(payload) + (buffer + more);
  }

  class Monitor {
    const accepts: Accepts
    const runtime: Runtime
    var buffer: Bytes
    var seenControl: bool
    // Everything read so far.
    ghost var read: Bytes

    constructor (accepts: Accepts, runtime: Runtime)
      ensures this.accepts == accepts && this.runtime == runtime && Valid() && read == [] && !seenControl
    {
      this.accepts, this.runtime := accepts, runtime;
      buffer, seenControl, read := [], false, [];
    }

    // Before the first frame nothing has left the buffer; after it exactly that
    // valid frame has.
    ghost predicate Valid()
      reads this
    {
      if !seenControl then read == buffer
      else Follows(accepts, read, buffer)
    }

    // The reads of one poll: everything available, or up to end of file.
    method ReadBatch(chunks: seq<Bytes>) returns (overflow: bool)
      requires Valid()
      modifies this`buffer, this`read
      ensures overflow ==> Hopeless(accepts, read) && read <= old(read) + Joined(chunks)
      ensures !overflow ==> Valid() && read == old(read) + Joined(chunks)
    {
      hide Follows, Hopeless;
      overflow := false;
      for i := 0 to |chunks|
        invariant Valid() && read == old(read) + Joined(chunks[..i])
      {
        assert chunks[..i + 1][..i] == chunks[..i];
        ghost var before := buffer;
        ghost var was := read;
        buffer, read := buffer + chunks[i], read + chunks[i];
        if seenControl {
          StillFollows(accepts, was, before, chunks[i]);
        }
        if |buffer| > FRAME_HEADER_BYTES + MAX_CONTROL_FRAME_BYTES {
          LongBufferIsHopeless();
          JoinedPrefix(chunks, i + 1);
          return true;
        }
      }
      assert chunks[..|chunks|] == chunks;
    }

    lemma LongBufferIsHopeless()
      requires Valid() && |buffer| > FRAME_HEADER_BYTES + MAX_CONTROL_FRAME_BYTES
      ensures Hopeless(accepts, read)
    {
      if seenControl {
        LeftoverIsHopeless();
      } else {
        TooLongIsHopeless(accepts, read);
      }
    }

    lemma LeftoverIsHopeless()
      requires Valid() && seenControl && buffer != []
      ensures Hopeless(accepts, read)
    {
      hide Hopeless, Frame;
      var payload: Bytes :| Sendable(payload, MAX_CONTROL_FRAME_BYTES) && accepts(payload) &&
          read == Frame(payload) + buffer;
      WholeFrame(accepts, payload, buffer);
    }

    lemma PartialAtEnd()
      requires Valid() && buffer != []
      requires |buffer| < FRAME_HEADER_BYTES ||
        |buffer| < FRAME_HEADER_BYTES + FromBigEndian(buffer[..FRAME_HEADER_BYTES])
      ensures Verdict(accepts, read) == ProtocolError
    {
      if seenControl {
        LeftoverIsHopeless();
        HopelessVerdict(accepts, read, []);
        assert read + [] == read;
      } else {
        Incomplete(accepts, read);
      }
    }

    lemma BadLength()
      requires Valid() && FRAME_HEADER_BYTES <= |buffer|
      requires var length := FromBigEndian(buffer[..FRAME_HEADER_BYTES]);
        length == 0 || length > MAX_CONTROL_FRAME_BYTES
      ensures Hopeless(accepts, read)
    {
      if seenControl {
        LeftoverIsHopeless();
      } else {
        BadLengthIsHopeless(accepts, read);
      }
    }

    // The parsing loop: stops the monitor on the first thing that is not the one
    // cancel frame.
    method Parse(eof: bool) returns (stopped: bool)
      requires Valid()
      modifies this`buffer, this`seenControl, runtime
      ensures stopped ==> runtime.requested && runtime.code == ProtocolError
      ensures stopped ==> Hopeless(accepts, read) || (eof && Verdict(accepts, read) == ProtocolError)
      ensures !stopped ==> Valid() && (eof ==> buffer == []) && runtime.code == old(runtime.code)
    {
      hide Hopeless, Frame, FromBigEndian, Verdict;
      stopped := false;
      while buffer != []
        invariant Valid() && runtime.code == old(runtime.code)
        decreases |buffer|
      {
        if |buffer| < FRAME_HEADER_BYTES {
          PartialAtEnd();
          if eof {
            runtime.RequestCancellation(ProtocolError);
            return true;
          }
          return;
        }
        var length := FromBigEndian(buffer[..FRAME_HEADER_BYTES]);
        if length == 0 || length > MAX_CONTROL_FRAME_BYTES {
          BadLength();
          runtime.RequestCancellation(ProtocolError);
          return true;
        }
        var total := FRAME_HEADER_BYTES + length;
        if |buffer| < total {
          PartialAtEnd();
          if eof {
            runtime.RequestCancellation(ProtocolError);
            return true;
          }
          return;
        }
        var payload := buffer[FRAME_HEADER_BYTES..total];
        CutFrame(buffer, length);
        if seenControl {
          LeftoverIsHopeless();
          runtime.RequestCancellation(ProtocolError);
          return true;
        }
        WholeFrame(accepts, payload, buffer[total..]);
        buffer, seenControl := buffer[total..], true;
        if !accepts(payload) {
          runtime.RequestCancellation(ProtocolError);
          return true;
        }
        runtime.RequestCancellation(Cancelled);
      }
    }

    lemma CleanEnd()
      requires Valid() && buffer == []
      ensures Verdict(accepts, read) == Cancelled
    {
      if seenControl {
        var payload: Bytes :| Sendable(payload, MAX_CONTROL_FRAME_BYTES) && accepts(payload) &&
            read == Frame(payload) + buffer;
        assert read == Frame(payload);
      }
    }

    // A run to end of file: however the bytes were cut into reads and polls, it
    // ends with the verdict on the whole stream.
    method Run(batches: seq<seq<Bytes>>)
      requires Valid() && read == [] && batches != []
      modifies this, runtime
      ensures runtime.requested
      ensures runtime.code == Escalate(old(runtime.code), Verdict(accepts, JoinedAll(batches)))
    {
      hide Hopeless, Verdict, Valid;
      for i := 0 to |batches|
        invariant Valid() && read == JoinedAll(batches[..i]) && runtime.code == old(runtime.code)
        invariant i == |batches| ==> buffer == []
      {
        assert batches[..i + 1][..i] == batches[..i];
        JoinedAllPrefix(batches, i + 1);
        var whole := JoinedAll(batches);
        var overflow := ReadBatch(batches[i]);
        if overflow {
          Rest(read, whole);
          HopelessVerdict(accepts, read, whole[|read|..]);
          runtime.RequestCancellation(ProtocolError);
          return;
        }
        var eof := i + 1 == |batches|;
        var stopped := Parse(eof);
        if stopped {
          Rest(read, whole);
          if Hopeless(accepts, read) {
            HopelessVerdict(accepts, read, whole[|read|..]);
          } else {
            assert batches[..i + 1] == batches;
          }
          return;
        }
      }
      assert batches[..|batches|] == batches;
      CleanEnd();
      runtime.RequestCancellation(Cancelled);
    }
  }

  lemma Rest(part: Bytes, whole: Bytes)
    ensures part <= whole ==> part + whole[|part|..] == whole
  {
  }

  lemma {:induction false} JoinedAllPrefix(batches: seq<seq<Bytes>>, i: nat)
    requires i <= |batches|
    ensures JoinedAll(batches[..i]) <= JoinedAll(batches)
    decreases |batches| - i
  {
    if i < |batches| {
      assert batches[..i + 1][..i] == batches[..i];
      JoinedAllPrefix(batches, i + 1);
    } else {
      assert batches[..i] == batches;
    }
  }
}
