// The incremental startup parser of protocol.py: bounded buffering, the frame
// order state machine, and what a whole accepted stream looks like.
module StartupParser {
  import opened Strings
  import opened Framing

  const MAX_STARTUP_FRAME_BYTES := 65536

  // A request id as a number; text that is not a canonical UUID, and the nil UUID, are 0.
  type Id = nat

  predicate IsValidRequestId(id: Id)
  {
    id != 0
  }

  datatype Kind = Ready | ResultPage | Done | Error | NavigationReady | NavigationResult | NavigationError | Unknown

  // A decoded JSON object: its ids, and whether its exact fields, its operation and
  // its remaining field types are as the frame kind demands.
  datatype Value = Value(kind: Kind, requestId: Id, sessionId: Id, fields: bool, operation: bool, types: bool)

  datatype Code =
    | MessageTooLarge | MalformedJson | MalformedFrame
    | InvalidOrder | InvalidSchema | InvalidRequestId | RequestIdMismatch

  datatype State = State(buffer: Bytes, ready: bool, done: bool, navigationReady: bool, requestId: Option<Id>)

  datatype Checked = Checked(state: State, error: Option<Code>)

  function CheckId(s: State, value: Value): Checked
  {
    if s.requestId.None? then
      if IsValidRequestId(value.requestId) then Checked(s.(requestId := Some(value.requestId)), None)
      else Checked(s, Some(InvalidRequestId))
    else if value.requestId != s.requestId.value then Checked(s, Some(RequestIdMismatch))
    else Checked(s, None)
  }

  function Validate(s: State, value: Value): Checked
  {
    match value.kind
    case Ready =>
      if s.ready || s.done then Checked(s, Some(InvalidOrder))
      else if !value.fields || !value.types then Checked(s, Some(InvalidSchema))
      else if !IsValidRequestId(value.requestId) then Checked(s, Some(InvalidRequestId))
      else
        var checked := CheckId(s, value);
        if checked.error.Some? then checked else Checked(checked.state.(ready := true), None)
    case ResultPage =>
      if !s.ready || s.done then Checked(s, Some(InvalidOrder))
      else if !value.fields then Checked(s, Some(InvalidSchema))
      else
        var checked := CheckId(s, value);
        if checked.error.Some? then checked
        else if !value.types then Checked(checked.state, Some(InvalidSchema))
        else checked
    case Done =>
      if !s.ready || s.done then Checked(s, Some(InvalidOrder))
      else if !value.fields then Checked(s, Some(InvalidSchema))
      else
        var checked := CheckId(s, value);
        if checked.error.Some? then checked else Checked(checked.state.(done := true), None)
    case Error =>
      if s.done then Checked(s, Some(InvalidOrder))
      else if !value.fields then Checked(s, Some(InvalidSchema))
      else
        var checked := CheckId(s, value);
        if checked.error.Some? then checked
        else if !value.types then Checked(checked.state, Some(InvalidSchema))
        else Checked(checked.state.(done := true), None)
    case NavigationReady =>
      if !s.done || s.navigationReady then Checked(s, Some(InvalidOrder))
      else if !value.fields then Checked(s, Some(InvalidSchema))
      else if s.requestId != Some(value.sessionId) then Checked(s, Some(RequestIdMismatch))
      else Checked(s.(navigationReady := true), None)
    case NavigationResult =>
      if !s.navigationReady then Checked(s, Some(InvalidOrder))
      else if !value.fields then Checked(s, Some(InvalidSchema))
      else if s.requestId != Some(value.sessionId) || !value.operation || !IsValidRequestId(value.requestId) then
        Checked(s, Some(RequestIdMismatch))
      else if !value.types then Checked(s, Some(InvalidSchema))
      else Checked(s, None)
    case NavigationError =>
      if !s.navigationReady then Checked(s, Some(InvalidOrder))
      else if !value.fields then Checked(s, Some(InvalidSchema))
      else if s.requestId != Some(value.sessionId) || !value.operation || !IsValidRequestId(value.requestId) then
        Checked(s, Some(RequestIdMismatch))
      else Checked(s, None)
    case Unknown => Checked(s, Some(InvalidSchema))
  }

  type Decoder = Bytes -> Option<Value>

  datatype Outcome = Outcome(state: State, frames: seq<Value>, error: Option<Code>)

  function DeclaredLength(buffer: Bytes): nat
    requires |buffer| >= FRAME_HEADER_BYTES
  {
    FromBigEndian(buffer[..FRAME_HEADER_BYTES])
  }

  // A buffer that still waits for bytes: the only kind kept between calls.
  predicate Open(buffer: Bytes)
  {
    |buffer| < FRAME_HEADER_BYTES ||
    (0 < DeclaredLength(buffer) <= MAX_STARTUP_FRAME_BYTES &&
     |buffer| < FRAME_HEADER_BYTES + DeclaredLength(buffer))
  }

  // Deal with a buffer that has just become a bad header or a whole frame.
  function Settle(decode: Decoder, s: State): Outcome
  {
    if |s.buffer| < FRAME_HEADER_BYTES then Outcome(s, [], None)
    else
      var length := DeclaredLength(s.buffer);
      if !(0 < length <= MAX_STARTUP_FRAME_BYTES) then Outcome(s, [], Some(MessageTooLarge))
      else if |s.buffer| < FRAME_HEADER_BYTES + length then Outcome(s, [], None)
      else
        var payload := s.buffer[FRAME_HEADER_BYTES..FRAME_HEADER_BYTES + length];
        Accept(decode, s.(buffer := s.buffer[FRAME_HEADER_BYTES + length..]), payload)
  }

  function Accept(decode: Decoder, s: State, payload: Bytes): Outcome
  {
    match decode(payload)
    case None => Outcome(s, [], Some(MalformedJson))
    case Some(value) =>
      var checked := Validate(s, value);
      Outcome(checked.state, if checked.error.None? then [value] else [], checked.error)
  }

  function Prepend(frames: seq<Value>, rest: Outcome): Outcome
  {
    Outcome(rest.state, frames + rest.frames, rest.error)
  }

  // The parser one byte at a time: what feeding must amount to.
  function Run(decode: Decoder, s: State, data: Bytes): Outcome
    decreases |data|
  {
    if data == [] then Outcome(s, [], None)
    else
      var first := Settle(decode, s.(buffer := s.buffer + [data[0]]));
      if first.error.Some? then first
      else Prepend(first.frames, Run(decode, first.state, data[1..]))
  }

  function Then(decode: Decoder, first: Outcome, data: Bytes): Outcome
  {
    if first.error.Some? then first else Prepend(first.frames, Run(decode, first.state, data))
  }

  lemma PrependTwice(a: seq<Value>, b: seq<Value>, rest: Outcome)
    ensures Prepend(a, Prepend(b, rest)) == Prepend(a + b, rest)
    ensures Prepend([], rest) == rest
  {
    assert a + (b + rest.frames) == a + b + rest.frames;
  }

  // Feeding in two pieces is feeding the concatenation.
  lemma {:induction false} RunConcat(decode: Decoder, s: State, a: Bytes, b: Bytes)
    ensures Run(decode, s, a + b) == Then(decode, Run(decode, s, a), b)
    decreases |a|
  {
    hide Settle;
    if a == [] {
      assert a + b == b;
      PrependTwice([], [], Run(decode, s, b));
    } else {
      var first := Settle(decode, s.(buffer := s.buffer + [a[0]]));
      assert (a + b)[0] == a[0] && (a + b)[1..] == a[1..] + b;
      if first.error.None? {
        RunConcat(decode, first.state, a[1..], b);
        var rest := Run(decode, first.state, a[1..]);
        PrependTwice(first.frames, rest.frames, Run(decode, rest.state, b));
      }
    }
  }

  // Taking several bytes at once is harmless while the buffer only completes at the end.
  lemma {:induction false} TakeBytes(decode: Decoder, s: State, taken: Bytes, rest: Bytes)
    requires taken != []
    requires forall k :: 0 <= k < |taken| ==> Open(s.buffer + taken[..k])
    ensures Run(decode, s, taken + rest) == Then(decode, Settle(decode, s.(buffer := s.buffer + taken)), rest)
    decreases |taken|
  {
    hide FromBigEndian;
    hide Accept;
    var head := s.(buffer := s.buffer + [taken[0]]);
    assert (taken + rest)[0] == taken[0] && (taken + rest)[1..] == taken[1..] + rest;
    if |taken| == 1 {
      assert taken == [taken[0]];
      assert taken[1..] + rest == rest;
    } else {
      assert taken[..1] == [taken[0]];
      assert Open(s.buffer + taken[..1]);
      forall k | 0 <= k < |taken| - 1 ensures Open(head.buffer + taken[1..][..k]) {
        assert head.buffer + taken[1..][..k] == s.buffer + taken[..k + 1];
      }
      TakeBytes(decode, head, taken[1..], rest);
      assert head.buffer + taken[1..] == s.buffer + taken;
      PrependTwice([], [], Run(decode, head, taken[1..] + rest));
    }
  }

  // What is still to happen when the buffer may hold a finished frame.
  function Resume(decode: Decoder, s: State, rest: Bytes): Outcome
  {
    Then(decode, Settle(decode, s), rest)
  }

  lemma ResumeOpen(decode: Decoder, s: State, rest: Bytes)
    requires Open(s.buffer)
    ensures Resume(decode, s, rest) == Run(decode, s, rest)
    ensures rest == [] ==> Resume(decode, s, rest) == Outcome(s, [], None)
  {
    hide FromBigEndian;
    PrependTwice([], [], Run(decode, s, rest));
  }

  lemma ResumeBadHeader(decode: Decoder, s: State, rest: Bytes)
    requires |s.buffer| >= FRAME_HEADER_BYTES
    requires !(0 < DeclaredLength(s.buffer) <= MAX_STARTUP_FRAME_BYTES)
    ensures Resume(decode, s, rest) == Outcome(s, [], Some(MessageTooLarge))
  {
  }

  // One whole frame in the buffer: it is decoded, checked and dropped.
  lemma ResumeFrame(decode: Decoder, s: State, rest: Bytes)
    requires |s.buffer| >= FRAME_HEADER_BYTES
    requires 0 < DeclaredLength(s.buffer) <= MAX_STARTUP_FRAME_BYTES
    requires |s.buffer| == FRAME_HEADER_BYTES + DeclaredLength(s.buffer)
    ensures var payload := s.buffer[FRAME_HEADER_BYTES..];
            var empty := s.(buffer := []);
            Resume(decode, s, rest) ==
            match decode(payload)
            case None => Outcome(empty, [], Some(MalformedJson))
            case Some(value) =>
              var checked := Validate(empty, value);
              if checked.error.Some? then Outcome(checked.state, [], checked.error)
              else Prepend([value], Resume(decode, checked.state, rest))
  {
    hide FromBigEndian;
    var payload := s.buffer[FRAME_HEADER_BYTES..];
    var empty := s.(buffer := []);
    assert s.buffer[FRAME_HEADER_BYTES..|s.buffer|] == payload;
    assert s.buffer[|s.buffer|..] == [];
    if decode(payload).Some? {
      ValidateKeepsBuffer(empty, decode(payload).value);
      ResumeOpen(decode, Validate(empty, decode(payload).value).state, rest);
    }
  }

  lemma ValidateKeepsBuffer(s: State, value: Value)
    ensures Validate(s, value).state.buffer == s.buffer
  {
  }

  lemma ResumeFill(decode: Decoder, s: State, taken: Bytes, rest: Bytes)
    requires Open(s.buffer) && taken != []
    requires |s.buffer| < FRAME_HEADER_BYTES ==> |s.buffer| + |taken| <= FRAME_HEADER_BYTES
    requires |s.buffer| >= FRAME_HEADER_BYTES ==>
               |s.buffer| + |taken| <= FRAME_HEADER_BYTES + DeclaredLength(s.buffer)
    ensures Resume(decode, s, taken + rest) == Resume(decode, s.(buffer := s.buffer + taken), rest)
    ensures |s.buffer| >= FRAME_HEADER_BYTES ==> DeclaredLength(s.buffer + taken) == DeclaredLength(s.buffer)
  {
    hide Settle;
    hide FromBigEndian;
    OpenWhileFilling(s.buffer, taken);
    TakeBytes(decode, s, taken, rest);
    ResumeOpen(decode, s, taken + rest);
    FillKeepsLength(s.buffer, taken);
  }

  class StartupFrameParser {
    const decode: Decoder
    var buffer: Bytes
    var ready: bool
    var done: bool
    var navigationReady: bool
    var requestId: Option<Id>

    ghost predicate Valid()
      reads this
    {
      Open(buffer)
    }

    function Snapshot(): State
      reads this
    {
      State(buffer, ready, done, navigationReady, requestId)
    }

    constructor (decode: Decoder, expected: Option<Id>)
      requires expected.Some? ==> IsValidRequestId(expected.value)
      ensures this.decode == decode && Valid()
      ensures Snapshot() == State([], false, false, false, expected)
    {
      this.decode := decode;
      buffer := [];
      ready, done, navigationReady := false, false, false;
      requestId := expected;
    }

    method Check(value: Value) returns (error: Option<Code>)
      modifies this
      ensures Checked(Snapshot(), error) == Validate(old(Snapshot()), value)
    {
      var checked := Validate(Snapshot(), value);
      ready, done := checked.state.ready, checked.state.done;
      navigationReady, requestId := checked.state.navigationReady, checked.state.requestId;
      error := checked.error;
    }

    method Feed(data: Bytes) returns (result: Result<seq<Value>, Code>)
      requires Valid()
      modifies this
      ensures var run := Run(decode, old(Snapshot()), data);
              Snapshot() == run.state &&
              result == if run.error.Some? then Err(run.error.value) else Ok(run.frames)
      ensures result.Ok? ==> Valid()
      ensures |buffer| <= FRAME_HEADER_BYTES + MAX_STARTUP_FRAME_BYTES
    {
      hide Run;
      hide Resume;
      hide Validate;
      hide FromBigEndian;
      ghost var start := Snapshot();
      var output: seq<Value>, position := [], 0;
      assert data[0..] == data;
      ResumeOpen(decode, start, data);
      PrependTwice([], [], Run(decode, start, data));
      while position < |data| || buffer != []
        invariant 0 <= position <= |data|
        invariant |buffer| <= FRAME_HEADER_BYTES + MAX_STARTUP_FRAME_BYTES
        invariant |buffer| > FRAME_HEADER_BYTES ==>
                    0 < DeclaredLength(buffer) <= MAX_STARTUP_FRAME_BYTES &&
                    |buffer| <= FRAME_HEADER_BYTES + DeclaredLength(buffer)
        invariant Run(decode, start, data) ==
                  Prepend(output, Resume(decode, Snapshot(), data[position..]))
        decreases |data| - position, |buffer|
      {
        ghost var entry, before := Snapshot(), output;
        ghost var rest := data[position..];
        if |buffer| >= FRAME_HEADER_BYTES &&
           (DeclaredLength(buffer) <= 0 || DeclaredLength(buffer) > MAX_STARTUP_FRAME_BYTES) {
          ResumeBadHeader(decode, entry, rest);
          return Err(MessageTooLarge);
        }
        var required :=
          if |buffer| >= FRAME_HEADER_BYTES then FRAME_HEADER_BYTES + DeclaredLength(buffer) else FRAME_HEADER_BYTES;
        if |buffer| >= FRAME_HEADER_BYTES && |buffer| >= required {
          var payload := buffer[FRAME_HEADER_BYTES..required];
          assert payload == entry.buffer[FRAME_HEADER_BYTES..];
          ResumeFrame(decode, entry, rest);
          buffer := buffer[required..];
          var value := decode(payload);
          if value.None? {
            return Err(MalformedJson);
          }
          ValidateKeepsBuffer(Snapshot(), value.value);
          var error := Check(value.value);
          if error.Some? {
            return Err(error.value);
          }
          output := output + [value.value];
          PrependTwice(before, [value.value], Resume(decode, Snapshot(), rest));
          continue;
        }
        var capacity := required - |buffer|;
        var take := if capacity < |data| - position then capacity else |data| - position;
        if take > 0 {
          ghost var taken := data[position..position + take];
          assert rest == taken + data[position + take..];
          ResumeFill(decode, entry, taken, data[position + take..]);
          buffer := buffer + data[position..position + take];
          position := position + take;
          continue;
        }
        ResumeOpen(decode, entry, rest);
        break;
      }
      if buffer == [] {
        ResumeOpen(decode, Snapshot(), data[position..]);
      }
      assert output + [] == output;
      return Ok(output);
    }

    method Finish() returns (error: Option<Code>)
      ensures error == if buffer != [] then Some(MalformedFrame) else None
    {
      error := if buffer != [] then Some(MalformedFrame) else None;
    }
  }

  lemma OpenWhileFilling(buffer: Bytes, taken: Bytes)
    requires Open(buffer)
    requires |buffer| < FRAME_HEADER_BYTES ==> |buffer| + |taken| <= FRAME_HEADER_BYTES
    requires |buffer| >= FRAME_HEADER_BYTES ==>
               |buffer| + |taken| <= FRAME_HEADER_BYTES + DeclaredLength(buffer)
    ensures forall k :: 0 <= k < |taken| ==> Open(buffer + taken[..k])
  {
    forall k | 0 <= k < |taken| ensures Open(buffer + taken[..k]) {
      FillKeepsLength(buffer, taken[..k]);
    }
  }

  lemma FillKeepsLength(buffer: Bytes, taken: Bytes)
    ensures |buffer| >= FRAME_HEADER_BYTES ==> DeclaredLength(buffer + taken) == DeclaredLength(buffer)
  {
    if |buffer| >= FRAME_HEADER_BYTES {
      assert (buffer + taken)[..FRAME_HEADER_BYTES] == buffer[..FRAME_HEADER_BYTES];
    }
  }

  // ---------- what an accepted byte stream is ----------

  function RunPayloads(decode: Decoder, s: State, payloads: seq<Bytes>): Outcome
    decreases |payloads|
  {
    if payloads == [] then Outcome(s, [], None)
    else
      var first := Accept(decode, s, payloads[0]);
      if first.error.Some? then first
      else Prepend(first.frames, RunPayloads(decode, first.state, payloads[1..]))
  }

  lemma AcceptKeepsBuffer(decode: Decoder, s: State, payload: Bytes)
    ensures Accept(decode, s, payload).state.buffer == s.buffer
  {
    if decode(payload).Some? {
      ValidateKeepsBuffer(s, decode(payload).value);
    }
  }

  lemma RunOneFrame(decode: Decoder, s: State, payload: Bytes, rest: Bytes)
    requires s.buffer == [] && Sendable(payload, MAX_STARTUP_FRAME_BYTES)
    ensures Run(decode, s, Frame(payload) + rest) == Then(decode, Accept(decode, s, payload), rest)
  {
    hide FromBigEndian;
    hide Accept;
    hide Run;
    var frame := Frame(payload);
    FrameParts(payload);
    forall k | 0 <= k < |frame| ensures Open(s.buffer + frame[..k]) {
      assert s.buffer + frame[..k] == frame[..k];
      if k >= FRAME_HEADER_BYTES {
        assert frame[..k][..FRAME_HEADER_BYTES] == frame[..FRAME_HEADER_BYTES];
      }
    }
    TakeBytes(decode, s, frame, rest);
    assert s.buffer + frame == frame;
    assert frame[FRAME_HEADER_BYTES..|frame|] == payload && frame[|frame|..] == [];
    assert s.(buffer := []) == s;
  }

  // Feeding the frames of some payloads checks exactly those payloads, in order.
  lemma {:induction false} RunFrames(decode: Decoder, s: State, payloads: seq<Bytes>, tail: Bytes)
    requires s.buffer == [] && AllSendable(payloads, MAX_STARTUP_FRAME_BYTES)
    ensures Run(decode, s, Stream(payloads) + tail) ==
            Then(decode, RunPayloads(decode, s, payloads), tail)
    decreases |payloads|
  {
    hide FromBigEndian;
    hide Accept;
    hide Frame;
    hide Run;
    if payloads == [] {
      assert Stream(payloads) + tail == tail;
      PrependTwice([], [], Run(decode, s, tail));
    } else {
      var rest := Stream(payloads[1..]) + tail;
      assert Stream(payloads) + tail == Frame(payloads[0]) + rest;
      RunOneFrame(decode, s, payloads[0], rest);
      var first := Accept(decode, s, payloads[0]);
      if first.error.None? {
        AcceptKeepsBuffer(decode, s, payloads[0]);
        RunFrames(decode, first.state, payloads[1..], tail);
        var after := RunPayloads(decode, first.state, payloads[1..]);
        if after.error.None? {
          PrependTwice(first.frames, after.frames, Run(decode, after.state, tail));
        }
      }
    }
  }

  // An accepted stream is the frames of some payloads and an unfinished rest.
  lemma {:induction false} AcceptedIsFramed(decode: Decoder, s: State, data: Bytes) returns (payloads: seq<Bytes>)
    requires Open(s.buffer) && Run(decode, s, data).error.None?
    ensures AllSendable(payloads, MAX_STARTUP_FRAME_BYTES)
    ensures s.buffer + data == Stream(payloads) + Run(decode, s, data).state.buffer
    ensures Open(Run(decode, s, data).state.buffer)
    ensures |Run(decode, s, data).frames| == |payloads|
    decreases |data|
  {
    hide FromBigEndian;
    hide Accept;
    if data == [] {
      payloads := [];
      assert s.buffer + data == [] + s.buffer;
    } else {
      var grown := s.(buffer := s.buffer + [data[0]]);
      var first := Settle(decode, grown);
      assert s.buffer + data == grown.buffer + data[1..];
      if Open(grown.buffer) {
        assert first == Outcome(grown, [], None);
        payloads := AcceptedIsFramed(decode, grown, data[1..]);
      } else {
        var payload := CompletedFrame(s.buffer, data[0]);
        assert grown.buffer[FRAME_HEADER_BYTES..|grown.buffer|] == payload;
        assert grown.buffer[|grown.buffer|..] == [];
        assert first == Accept(decode, s.(buffer := []), payload);
        AcceptedOne(decode, s.(buffer := []), payload);
        var more := AcceptedIsFramed(decode, first.state, data[1..]);
        payloads := [payload] + more;
        assert payloads[1..] == more;
        assert first.state.buffer + data[1..] == data[1..];
      }
    }
  }

  lemma AcceptedOne(decode: Decoder, s: State, payload: Bytes)
    ensures Accept(decode, s, payload).state.buffer == s.buffer
    ensures Accept(decode, s, payload).error.None? ==> |Accept(decode, s, payload).frames| == 1
  {
    AcceptKeepsBuffer(decode, s, payload);
  }

  // The byte that closes an open buffer without a bad header completes one frame.
  lemma CompletedFrame(buffer: Bytes, last: byte) returns (payload: Bytes)
    requires Open(buffer) && !Open(buffer + [last])
    requires 0 < DeclaredLength(buffer + [last]) <= MAX_STARTUP_FRAME_BYTES
    ensures Sendable(payload, MAX_STARTUP_FRAME_BYTES)
    ensures Frame(payload) == buffer + [last] && payload == (buffer + [last])[FRAME_HEADER_BYTES..]
    ensures |buffer + [last]| == FRAME_HEADER_BYTES + DeclaredLength(buffer + [last])
  {
    var grown := buffer + [last];
    FillKeepsLength(buffer, [last]);
    payload := grown[FRAME_HEADER_BYTES..];
    HeaderRoundTrip(grown[..FRAME_HEADER_BYTES]);
    assert Frame(payload) == grown[..FRAME_HEADER_BYTES] + payload;
  }

  lemma {:induction false} RunPayloadsConcat(decode: Decoder, s: State, a: seq<Bytes>, b: seq<Bytes>)
    ensures var first := RunPayloads(decode, s, a);
            RunPayloads(decode, s, a + b) ==
            if first.error.Some? then first else Prepend(first.frames, RunPayloads(decode, first.state, b))
    decreases |a|
  {
    hide Accept;
    if a == [] {
      assert a + b == b;
      PrependTwice([], [], RunPayloads(decode, s, b));
    } else {
      assert (a + b)[0] == a[0] && (a + b)[1..] == a[1..] + b;
      var first := Accept(decode, s, a[0]);
      if first.error.None? {
        RunPayloadsConcat(decode, first.state, a[1..], b);
        var rest := RunPayloads(decode, first.state, a[1..]);
        PrependTwice(first.frames, rest.frames, RunPayloads(decode, rest.state, b));
      }
    }
  }

  // Every beginning of an accepted payload list is accepted, and so is its next payload.
  lemma AcceptedStep(decode: Decoder, s: State, payloads: seq<Bytes>, n: nat)
    requires n < |payloads| && RunPayloads(decode, s, payloads).error.None?
    ensures var before := RunPayloads(decode, s, payloads[..n]);
            var next := Accept(decode, before.state, payloads[n]);
            before.error.None? && next.error.None? && decode(payloads[n]).Some? &&
            next.frames == [decode(payloads[n]).value] &&
            RunPayloads(decode, s, payloads[..n + 1]).state == next.state &&
            next.state.buffer == before.state.buffer
  {
    assert payloads == payloads[..n] + payloads[n..];
    RunPayloadsConcat(decode, s, payloads[..n], payloads[n..]);
    assert payloads[..n + 1] == payloads[..n] + [payloads[n]];
    var single := [payloads[n]];
    assert single[1..] == [];
    RunPayloadsConcat(decode, s, payloads[..n], single);
    AcceptKeepsBuffer(decode, RunPayloads(decode, s, payloads[..n]).state, payloads[n]);
    assert payloads[n..][0] == payloads[n];
  }
}
