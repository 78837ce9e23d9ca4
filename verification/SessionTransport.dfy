// Chunked transport of large session messages: the chunk envelopes of
// protocol.py and the ordered reassembly done by the helper and by the broker.
module SessionTransport {
  import opened Strings
  import opened Framing
  import Base64
  import Numerals

  // A canonical non-nil UUID as its 128-bit number; every other id text is 0.
  type Id = n: nat | n < 0x1_00000000_00000000_00000000_00000000

  const UUID_TEXT_LENGTH := 36

  const PHASE2_OPERATIONS: set<string> := {
    "inspect", "backup", "restore-staging", "restore-inplace", "packages-install", "maintenance"
  }

  datatype Identity = Identity(request: Id, operation: string)

  datatype Envelope = Envelope(kind: string, session: Id, identity: Identity, index: int, count: int, data: string)

  datatype Code =
    | MessageTooLarge | InvalidSchema | InvalidSession | InvalidRequestId | UnknownOperation
    | RequestIdMismatch | InvalidChunkSequence | MalformedFrame

  datatype Transport = Transport(kind: string, chunkBytes: nat, frameLimit: nat, assembledLimit: nat)

  const REQUESTS := Transport("session-request-chunk", 65536, 131072, 67108864)
  const RESPONSES := Transport("session-response-chunk", 131072, 262144, 67108864)

  predicate IsTransport(t: Transport)
  {
    t == REQUESTS || t == RESPONSES
  }

  function MaxChunks(t: Transport): nat
    requires t.chunkBytes > 0
  {
    (t.assembledLimit + t.chunkBytes - 1) / t.chunkBytes
  }

  // ---------- envelope text ----------

  // Length of the compact JSON text; ids print as 36 characters, and neither the
  // operation names nor base64 text need escapes.
  function EnvelopeLength(e: Envelope): nat
    requires e.index >= 0 && e.count >= 0
  {
    |"{\"type\":\""| + |e.kind| + |"\",\"session_id\":\""| + UUID_TEXT_LENGTH +
    |"\",\"request_id\":\""| + UUID_TEXT_LENGTH + |"\",\"operation\":\""| + |e.identity.operation| +
    |"\",\"index\":"| + Numerals.Digits(e.index) + |",\"count\":"| + Numerals.Digits(e.count) +
    |",\"data\":\""| + |e.data| + |"\"}"|
  }

  // What the encoders build: a known kind and operation, and base64 data.
  predicate Built(e: Envelope)
  {
    (e.kind == REQUESTS.kind || e.kind == RESPONSES.kind) && e.identity.operation in PHASE2_OPERATIONS &&
    0 <= e.index && 0 <= e.count && Base64.IsText(e.data)
  }

  // JSON as an injective encoder: what the helper and the broker rely on.
  datatype Codec = Codec(encode: Envelope -> Bytes, decode: Bytes -> Option<Envelope>) {
    ghost predicate Lawful()
    {
      forall e: Envelope :: Built(e) ==> decode(encode(e)) == Some(e) && |encode(e)| == EnvelopeLength(e)
    }
  }

  // ---------- encoding ----------

  predicate IsChunkSize(size: nat)
  {
    size == REQUESTS.chunkBytes || size == RESPONSES.chunkBytes
  }

  // raw[i:i + size] for i in range(0, len(raw), size)
  function Chunks(raw: Bytes, size: nat): (chunks: seq<Bytes>)
    requires IsChunkSize(size)
    ensures |chunks| == (|raw| + size - 1) / size
    ensures forall k :: 0 <= k < |chunks| ==> 0 < |chunks[k]| <= size
    decreases |raw|
  {
    if raw == [] then []
    else if |raw| <= size then [raw]
    else [raw[..size]] + Chunks(raw[size..], size)
  }

  lemma {:induction false} ChunksJoin(raw: Bytes, size: nat)
    requires IsChunkSize(size)
    ensures Joined(Chunks(raw, size)) == raw
    ensures forall k :: 0 <= k < |Chunks(raw, size)| - 1 ==> |Chunks(raw, size)[k]| == size
    decreases |raw|
  {
    hide Joined;
    JoinedStep([], raw);
    if 0 < |raw| <= size {
      assert Chunks(raw, size) == [] + [raw];
    } else if raw != [] {
      ChunksJoin(raw[size..], size);
      JoinedFirst(raw[..size], Chunks(raw[size..], size));
      assert raw == raw[..size] + raw[size..];
    }
  }

  function ChunkEnvelope(t: Transport, session: Id, identity: Identity, chunks: seq<Bytes>, index: nat): Envelope
    requires index < |chunks|
  {
    Envelope(t.kind, session, identity, index, |chunks|, Base64.Encode(chunks[index]))
  }

  lemma ChunkEnvelopeIsBuilt(t: Transport, session: Id, identity: Identity, chunks: seq<Bytes>, index: nat)
    requires IsTransport(t) && identity.operation in PHASE2_OPERATIONS && index < |chunks|
    ensures Built(ChunkEnvelope(t, session, identity, chunks, index))
  {
    Base64.EncodeIsText(chunks[index]);
  }

  // The payloads one message travels as: itself, or its chunk envelopes.
  function FramesOf(codec: Codec, t: Transport, session: Id, identity: Identity, raw: Bytes): seq<Bytes>
    requires IsTransport(t)
  {
    if |raw| <= t.frameLimit then [raw]
    else
      var chunks := Chunks(raw, t.chunkBytes);
      seq(|chunks|, k requires 0 <= k < |chunks| => codec.encode(ChunkEnvelope(t, session, identity, chunks, k)))
  }

  // A request of up to 128 KiB and a reply of up to 256 KiB is one frame, and chunks
  // hold half as much.
  lemma FrameCounts(codec: Codec, session: Id, identity: Identity, raw: Bytes)
    ensures |FramesOf(codec, REQUESTS, session, identity, raw)| ==
      if |raw| <= 131072 then 1 else (|raw| + 65535) / 65536
    ensures |FramesOf(codec, RESPONSES, session, identity, raw)| ==
      if |raw| <= 262144 then 1 else (|raw| + 131071) / 131072
  {
  }

  method EncodeFrames(codec: Codec, t: Transport, session: Id, identity: Identity, raw: Bytes)
    returns (result: Result<seq<Bytes>, Code>)
    requires IsTransport(t) && identity.operation in PHASE2_OPERATIONS && codec.Lawful()
    ensures result == if 0 < |raw| <= 67108864 then Ok(FramesOf(codec, t, session, identity, raw))
                      else Err(MessageTooLarge)
  {
    hide FramesOf, Codec.Lawful, Chunks;
    if |raw| > t.assembledLimit || raw == [] {
      return Err(MessageTooLarge);
    }
    FramesAre(codec, t, session, identity, raw);
    if |raw| <= t.frameLimit {
      return Ok([raw]);
    }
    var chunks := Chunks(raw, t.chunkBytes);
    if chunks == [] || |chunks| > MaxChunks(t) {
      return Err(MessageTooLarge);
    }
    var frames: seq<Bytes> := [];
    for index := 0 to |chunks|
      invariant frames == FramesOf(codec, t, session, identity, raw)[..index]
    {
      var envelope := ChunkEnvelope(t, session, identity, chunks, index);
      var payload := codec.encode(envelope);
      EnvelopePayload(codec, t, session, identity, chunks, index);
      if !(0 < |payload| <= t.frameLimit) {
        return Err(MessageTooLarge);
      }
      frames := frames + [payload];
    }
    assert frames == FramesOf(codec, t, session, identity, raw);
    return Ok(frames);
  }

  lemma FramesAre(codec: Codec, t: Transport, session: Id, identity: Identity, raw: Bytes)
    requires IsTransport(t)
    ensures |raw| <= t.frameLimit ==> FramesOf(codec, t, session, identity, raw) == [raw]
    ensures |raw| > t.frameLimit ==>
      var chunks, frames := Chunks(raw, t.chunkBytes), FramesOf(codec, t, session, identity, raw);
      |frames| == |chunks| &&
      forall k :: 0 <= k < |chunks| ==> frames[k] == codec.encode(ChunkEnvelope(t, session, identity, chunks, k))
  {
    hide Chunks;
  }

  lemma EnvelopePayload(
    codec: Codec, t: Transport, session: Id, identity: Identity, chunks: seq<Bytes>, index: nat)
    requires IsTransport(t) && identity.operation in PHASE2_OPERATIONS && codec.Lawful()
    requires index < |chunks| <= MaxChunks(t) && 0 < |chunks[index]| <= t.chunkBytes
    ensures 0 < |codec.encode(ChunkEnvelope(t, session, identity, chunks, index))| <= t.frameLimit
  {
    ChunkEnvelopeIsBuilt(t, session, identity, chunks, index);
    EnvelopeFits(t, ChunkEnvelope(t, session, identity, chunks, index));
  }

  // Every legal message fits: the chunk count stays within its bound and every
  // payload within its frame.
  lemma FramesFit(codec: Codec, t: Transport, session: Id, identity: Identity, raw: Bytes)
    requires IsTransport(t) && identity.operation in PHASE2_OPERATIONS && codec.Lawful()
    requires 0 < |raw| <= t.assembledLimit
    ensures AllSendable(FramesOf(codec, t, session, identity, raw), t.frameLimit)
    ensures 1 <= |FramesOf(codec, t, session, identity, raw)| <= MaxChunks(t)
  {
    if |raw| > t.frameLimit {
      var chunks := Chunks(raw, t.chunkBytes);
      forall k | 0 <= k < |chunks|
        ensures Sendable(codec.encode(ChunkEnvelope(t, session, identity, chunks, k)), t.frameLimit)
      {
        ChunkEnvelopeIsBuilt(t, session, identity, chunks, k);
        EnvelopeFits(t, ChunkEnvelope(t, session, identity, chunks, k));
      }
    }
  }

  // Base64 of a full chunk, with the fixed text around it, stays below the frame limit.
  lemma EnvelopeFits(t: Transport, e: Envelope)
    requires IsTransport(t) && e.kind == t.kind && e.identity.operation in PHASE2_OPERATIONS
    requires 0 <= e.index <= 1024 && 0 <= e.count <= 1024
    requires |e.data| <= (t.chunkBytes + 2) / 3 * 4
    ensures 0 < EnvelopeLength(e) <= t.frameLimit
  {
    assert |e.identity.operation| <= 16;
    assert |e.kind| <= 22;
  }

  // ---------- receiving ----------

  datatype Chunk = Chunk(identity: Identity, index: nat, count: nat, data: Bytes)

  datatype Assembly =
    | Fresh
    | Partial(identity: Identity, count: nat, next: nat, data: Bytes)
    | Complete(identity: Identity, count: nat, data: Bytes)
    | Failed(code: Code)

  function Grow(identity: Identity, count: nat, next: nat, data: Bytes): Assembly
  {
    if next == count then Complete(identity, count, data) else Partial(identity, count, next, data)
  }

  // One end of the pipe. `expected` is None in the helper, which learns the identity
  // from the first chunk, and the request's own identity in the broker.
  datatype Receiver = Receiver(codec: Codec, t: Transport, session: Id, expected: Option<Identity>) {

    function DecodeChunk(raw: Bytes): (result: Result<Chunk, Code>)
      requires IsTransport(t)
      ensures result.Ok? ==> 0 <= result.value.index < result.value.count <= MaxChunks(t)
      ensures result.Ok? ==> 0 < |result.value.data| <= t.chunkBytes
      ensures result.Ok? && expected.Some? ==> result.value.identity == expected.value
    {
      if |raw| > t.frameLimit then Err(MessageTooLarge)
      else
        match codec.decode(raw)
        case None => Err(InvalidSchema)
        case Some(e) =>
          if e.kind != t.kind || e.session != session then Err(InvalidSession)
          else if expected.Some? && e.identity != expected.value then Err(RequestIdMismatch)
          else if e.identity.request == 0 then Err(InvalidRequestId)
          else if e.identity.operation !in PHASE2_OPERATIONS then Err(UnknownOperation)
          else if !(1 <= e.count <= MaxChunks(t)) || !(0 <= e.index < e.count) then Err(InvalidSchema)
          else
            match Base64.Decode(e.data)
            case None => Err(InvalidSchema)
            case Some(data) =>
              if data == [] || |data| > t.chunkBytes then Err(MessageTooLarge)
              else Ok(Chunk(e.identity, e.index, e.count, data))
    }

    // One received frame.
    function Absorb(a: Assembly, raw: Bytes): Assembly
      requires IsTransport(t)
    {
      match a
      case Fresh =>
        (match DecodeChunk(raw)
         case Err(code) => Failed(code)
         case Ok(chunk) =>
           if chunk.index != 0 then Failed(InvalidChunkSequence)
           else Grow(chunk.identity, chunk.count, 1, chunk.data))
      case Partial(identity, count, next, data) =>
        (match DecodeChunk(raw)
         case Err(code) => Failed(code)
         case Ok(chunk) =>
           if chunk.identity != identity || chunk.count != count || chunk.index != next then
             Failed(InvalidChunkSequence)
           else if |data| + |chunk.data| > t.assembledLimit then Failed(MessageTooLarge)
           else Grow(identity, count, next + 1, data + chunk.data))
      case Complete(_, _, _) => a
      case Failed(_) => a
    }

    function AbsorbAll(raws: seq<Bytes>): Assembly
      requires IsTransport(t)
    {
      if raws == [] then Fresh else Absorb(AbsorbAll(raws[..|raws| - 1]), raws[|raws| - 1])
    }

    lemma AbsorbStep(raws: seq<Bytes>, raw: Bytes)
      requires IsTransport(t)
      ensures AbsorbAll(raws + [raw]) == Absorb(AbsorbAll(raws), raw)
      ensures AbsorbAll([]) == Fresh
    {
      hide Absorb;
      assert (raws + [raw])[..|raws|] == raws;
    }

    // The loop that reads frames until the sequence is complete or wrong.
    method Reassemble(raws: seq<Bytes>) returns (result: Result<Bytes, Code>, consumed: nat)
      requires IsTransport(t)
      ensures consumed <= |raws|
      ensures result.Ok? ==>
                var a := AbsorbAll(raws[..consumed]);
                a.Complete? && a.data == result.value && a.count == consumed
      ensures result.Err? ==>
                AbsorbAll(raws[..consumed]) == Failed(result.error) ||
                (consumed == |raws| && result.error == MalformedFrame &&
                 (AbsorbAll(raws).Fresh? || AbsorbAll(raws).Partial?))
    {
      hide AbsorbAll;
      hide DecodeChunk;
      AbsorbStep([], []);
      if raws == [] {
        return Err(MalformedFrame), 0;
      }
      consumed := 1;
      AbsorbStep([], raws[0]);
      assert raws[..1] == [] + [raws[0]];
      var decoded := DecodeChunk(raws[0]);
      if decoded.Err? {
        return Err(decoded.error), 1;
      }
      var first := decoded.value;
      if first.index != 0 {
        return Err(InvalidChunkSequence), 1;
      }
      var data := first.data;
      var expectedIndex := 1;
      while expectedIndex < first.count
        invariant 1 <= expectedIndex <= first.count && consumed == expectedIndex <= |raws|
        invariant AbsorbAll(raws[..consumed]) == Grow(first.identity, first.count, expectedIndex, data)
      {
        if consumed == |raws| {
          assert raws[..consumed] == raws;
          return Err(MalformedFrame), consumed;
        }
        assert raws[..consumed + 1] == raws[..consumed] + [raws[consumed]];
        AbsorbStep(raws[..consumed], raws[consumed]);
        var next := DecodeChunk(raws[consumed]);
        consumed := consumed + 1;
        if next.Err? {
          return Err(next.error), consumed;
        }
        var chunk := next.value;
        if chunk.identity != first.identity || chunk.count != first.count || chunk.index != expectedIndex {
          return Err(InvalidChunkSequence), consumed;
        }
        if |data| + |chunk.data| > t.assembledLimit {
          return Err(MessageTooLarge), consumed;
        }
        data := data + chunk.data;
        expectedIndex := expectedIndex + 1;
      }
      return Ok(data), consumed;
    }

    // ---------- what is accepted ----------

    ghost predicate IsLink(raw: Bytes, identity: Identity, count: nat, index: nat)
      requires IsTransport(t)
    {
      var decoded := DecodeChunk(raw);
      decoded.Ok? && decoded.value.identity == identity && decoded.value.count == count && decoded.value.index == index
    }

    // What a frame must be to carry a chunk for this end of the pipe: of its own kind and
    // session, of the awaited request, and within all bounds.
    lemma ChunkExactly(raw: Bytes, chunk: Chunk)
      requires IsTransport(t)
      ensures DecodeChunk(raw) == Ok(chunk) <==>
        |raw| <= t.frameLimit && (expected.None? || chunk.identity == expected.value) &&
        chunk.identity.request != 0 && chunk.identity.operation in PHASE2_OPERATIONS &&
        0 <= chunk.index < chunk.count <= MaxChunks(t) && 0 < |chunk.data| <= t.chunkBytes &&
        exists text: string ::
          Base64.Decode(text) == Some(chunk.data) &&
          codec.decode(raw) == Some(Envelope(t.kind, session, chunk.identity, chunk.index, chunk.count, text))
    {
      hide Base64.Decode;
      if codec.decode(raw).Some? {
        var e := codec.decode(raw).value;
        assert e == Envelope(e.kind, e.session, e.identity, e.index, e.count, e.data);
      }
    }

    // A chunk envelope of this end's kind and session.
    ghost predicate Belongs(raw: Bytes)
    {
      |raw| <= t.frameLimit && codec.decode(raw).Some? &&
      codec.decode(raw).value.kind == t.kind && codec.decode(raw).value.session == session
    }

    // What the codes of a refusal say.
    lemma RefusalCodes(raw: Bytes)
      requires IsTransport(t)
      ensures DecodeChunk(raw) == Err(InvalidSession) <==>
        |raw| <= t.frameLimit && codec.decode(raw).Some? && !Belongs(raw)
      ensures DecodeChunk(raw) == Err(RequestIdMismatch) <==>
        Belongs(raw) && expected.Some? && codec.decode(raw).value.identity != expected.value
      ensures DecodeChunk(raw) == Err(InvalidRequestId) <==>
        Belongs(raw) && (expected.Some? ==> codec.decode(raw).value.identity == expected.value) &&
        codec.decode(raw).value.identity.request == 0
      ensures DecodeChunk(raw) == Err(UnknownOperation) <==>
        Belongs(raw) && (expected.Some? ==> codec.decode(raw).value.identity == expected.value) &&
        codec.decode(raw).value.identity.request != 0 &&
        codec.decode(raw).value.identity.operation !in PHASE2_OPERATIONS
      ensures DecodeChunk(raw).Err? && DecodeChunk(raw).error == MessageTooLarge ==>
        |raw| > t.frameLimit || (Belongs(raw) && Base64.Decode(codec.decode(raw).value.data).Some?)
      ensures |raw| > t.frameLimit ==> DecodeChunk(raw) == Err(MessageTooLarge)
      ensures |raw| <= t.frameLimit && codec.decode(raw).None? ==> DecodeChunk(raw) == Err(InvalidSchema)
    {
      hide Base64.Decode;
    }

    // Chunks 0, 1, 2, ... in order, with one identity and one count.
    ghost predicate IsRun(raws: seq<Bytes>, identity: Identity, count: nat)
      requires IsTransport(t)
    {
      forall k :: 0 <= k < |raws| ==> IsLink(raws[k], identity, count, k)
    }

    function Carried(raw: Bytes): Bytes
      requires IsTransport(t)
    {
      if DecodeChunk(raw).Ok? then DecodeChunk(raw).value.data else []
    }

    function RunData(raws: seq<Bytes>): Bytes
      requires IsTransport(t)
    {
      if raws == [] then [] else RunData(raws[..|raws| - 1]) + Carried(raws[|raws| - 1])
    }

    lemma RunDataStep(raws: seq<Bytes>, raw: Bytes)
      requires IsTransport(t)
      ensures RunData(raws + [raw]) == RunData(raws) + Carried(raw)
    {
      hide Carried;
      assert (raws + [raw])[..|raws|] == raws;
    }

    lemma RunStep(raws: seq<Bytes>, raw: Bytes, identity: Identity, count: nat)
      requires IsTransport(t)
      ensures IsRun(raws + [raw], identity, count) <==>
              IsRun(raws, identity, count) && IsLink(raw, identity, count, |raws|)
    {
      hide IsLink;
      var grown := raws + [raw];
      assert grown[|raws|] == raw;
      assert forall k :: 0 <= k < |raws| ==> grown[k] == raws[k];
    }

    // What the state says about the frames absorbed so far.
    ghost predicate Explains(a: Assembly, raws: seq<Bytes>)
      requires IsTransport(t)
    {
      match a
      case Fresh => raws == []
      case Partial(identity, count, next, data) =>
        next == |raws| && 1 <= next < count && data == RunData(raws) && |data| <= t.assembledLimit &&
        IsRun(raws, identity, count)
      case Complete(identity, count, data) => count <= |raws|
      case Failed(_) => true
    }

    lemma {:induction false} AssemblyExplains(raws: seq<Bytes>)
      requires IsTransport(t)
      ensures Explains(AbsorbAll(raws), raws)
    {
      hide DecodeChunk;
      hide RunData;
      hide IsRun;
      if raws != [] {
        var init, last := raws[..|raws| - 1], raws[|raws| - 1];
        AssemblyExplains(init);
        assert raws == init + [last];
        var a := AbsorbAll(init);
        if a.Fresh? {
          EmptyRun();
          RunDataStep([], last);
          if Absorb(a, last).Partial? {
            RunStep([], last, Absorb(a, last).identity, Absorb(a, last).count);
          }
          assert [] + Carried(last) == Carried(last);
        } else if a.Partial? {
          RunDataStep(init, last);
          RunStep(init, last, a.identity, a.count);
        }
      }
    }

    lemma EmptyRun()
      requires IsTransport(t)
      ensures RunData([]) == [] && forall identity, count :: IsRun([], identity, count)
    {
    }

    // A sequence is absorbed whole exactly when it is chunks 0..count-1 in order, with
    // one identity and one count, whose data respects the aggregate limit.
    lemma {:induction false} AcceptedRun(raws: seq<Bytes>, identity: Identity, count: nat)
      requires IsTransport(t) && 1 <= |raws| <= count
      ensures AbsorbAll(raws) == Grow(identity, count, |raws|, RunData(raws)) <==>
              IsRun(raws, identity, count) && |RunData(raws)| <= t.assembledLimit
    {
      hide DecodeChunk;
      hide RunData;
      hide IsRun;
      hide AbsorbAll;
      var init, last := raws[..|raws| - 1], raws[|raws| - 1];
      assert raws == init + [last];
      AbsorbStep(init, last);
      RunDataStep(init, last);
      RunStep(init, last, identity, count);
      EmptyRun();
      AssemblyExplains(init);
      if init == [] {
        assert [] + Carried(last) == Carried(last);
      } else {
        AcceptedRun(init, identity, count);
      }
    }
  }

  // ---------- round trip ----------

  lemma ChunkDecodes(receiver: Receiver, identity: Identity, chunks: seq<Bytes>, k: nat)
    requires var t := receiver.t; IsTransport(t) && k < |chunks| <= MaxChunks(t) && 0 < |chunks[k]| <= t.chunkBytes
    requires receiver.codec.Lawful()
    requires identity.request != 0 && identity.operation in PHASE2_OPERATIONS
    requires receiver.expected.Some? ==> receiver.expected.value == identity
    ensures receiver.DecodeChunk(
              receiver.codec.encode(ChunkEnvelope(receiver.t, receiver.session, identity, chunks, k))) ==
            Ok(Chunk(identity, k, |chunks|, chunks[k]))
  {
    var e := ChunkEnvelope(receiver.t, receiver.session, identity, chunks, k);
    assert MaxChunks(receiver.t) <= 1024;
    ChunkEnvelopeIsBuilt(receiver.t, receiver.session, identity, chunks, k);
    EnvelopeFits(receiver.t, e);
    Base64.RoundTrip(chunks[k]);
    assert receiver.codec.decode(receiver.codec.encode(e)) == Some(e);
  }

  // A chunk that was built for another session, another direction or another request.
  ghost predicate Foreign(receiver: Receiver, t: Transport, session: Id, identity: Identity)
  {
    t.kind != receiver.t.kind || session != receiver.session ||
    (receiver.expected.Some? && receiver.expected.value != identity)
  }

  // Frames of a message for somebody else are refused from the first one on.
  lemma {:induction false} ForeignFramesFail(
    receiver: Receiver, t: Transport, session: Id, identity: Identity, raw: Bytes, frames: seq<Bytes>, n: nat)
    requires IsTransport(receiver.t) && IsTransport(t) && receiver.codec.Lawful()
    requires identity.operation in PHASE2_OPERATIONS && t.frameLimit < |raw| <= t.assembledLimit
    requires Foreign(receiver, t, session, identity)
    requires frames == FramesOf(receiver.codec, t, session, identity, raw) && 1 <= n <= |frames|
    ensures receiver.AbsorbAll(frames[..n]).Failed?
  {
    hide Chunks, Receiver.DecodeChunk;
    assert frames[..n] == frames[..n - 1] + [frames[n - 1]];
    receiver.AbsorbStep(frames[..n - 1], frames[n - 1]);
    if n == 1 {
      assert frames[..0] == [];
      ForeignChunkFails(receiver, t, session, identity, Chunks(raw, t.chunkBytes), 0);
    } else {
      ForeignFramesFail(receiver, t, session, identity, raw, frames, n - 1);
    }
  }

  lemma ForeignChunkFails(
    receiver: Receiver, t: Transport, session: Id, identity: Identity, chunks: seq<Bytes>, k: nat)
    requires IsTransport(receiver.t) && IsTransport(t) && receiver.codec.Lawful()
    requires identity.operation in PHASE2_OPERATIONS && k < |chunks| && Foreign(receiver, t, session, identity)
    ensures receiver.DecodeChunk(receiver.codec.encode(ChunkEnvelope(t, session, identity, chunks, k))).Err?
  {
    hide Base64.Encode, Base64.Decode;
    ChunkEnvelopeIsBuilt(t, session, identity, chunks, k);
    var e := ChunkEnvelope(t, session, identity, chunks, k);
    assert receiver.codec.decode(receiver.codec.encode(e)) == Some(e);
  }

  lemma {:induction false} EncodedData(
    receiver: Receiver, identity: Identity, chunks: seq<Bytes>, frames: seq<Bytes>, n: nat)
    requires IsTransport(receiver.t) && |frames| == |chunks| && n <= |chunks|
    requires forall k :: 0 <= k < |frames| ==>
               receiver.DecodeChunk(frames[k]) == Ok(Chunk(identity, k, |chunks|, chunks[k]))
    ensures receiver.RunData(frames[..n]) == Joined(chunks[..n])
  {
    hide Receiver.DecodeChunk;
    hide Joined;
    hide Receiver.RunData;
    if n == 0 {
      receiver.EmptyRun();
      assert frames[..0] == [] && chunks[..0] == [];
      JoinedStep([], []);
    } else {
      EncodedData(receiver, identity, chunks, frames, n - 1);
      assert frames[..n] == frames[..n - 1] + [frames[n - 1]];
      receiver.RunDataStep(frames[..n - 1], frames[n - 1]);
      assert chunks[..n] == chunks[..n - 1] + [chunks[n - 1]];
      JoinedStep(chunks[..n - 1], chunks[n - 1]);
    }
  }

  // Frames made from a large message reassemble to exactly its bytes, and no proper
  // prefix of them does.
  lemma ReassemblyRoundTrip(receiver: Receiver, identity: Identity, raw: Bytes, frames: seq<Bytes>, n: nat)
    requires IsTransport(receiver.t) && receiver.codec.Lawful()
    requires identity.request != 0 && identity.operation in PHASE2_OPERATIONS
    requires receiver.expected.Some? ==> receiver.expected.value == identity
    requires receiver.t.frameLimit < |raw| <= receiver.t.assembledLimit
    requires frames == FramesOf(receiver.codec, receiver.t, receiver.session, identity, raw)
    requires 1 <= n <= |frames|
    ensures receiver.AbsorbAll(frames[..n]) ==
            if n == |frames| then Complete(identity, |frames|, raw)
            else Partial(identity, |frames|, n, Joined(Chunks(raw, receiver.t.chunkBytes)[..n]))
  {
    hide Receiver.DecodeChunk;
    hide Receiver.AbsorbAll;
    hide Receiver.RunData;
    hide Joined;
    hide Chunks;
    var chunks := Chunks(raw, receiver.t.chunkBytes);
    forall k | 0 <= k < |frames|
      ensures receiver.DecodeChunk(frames[k]) == Ok(Chunk(identity, k, |chunks|, chunks[k]))
    {
      ChunkDecodes(receiver, identity, chunks, k);
    }
    EncodedData(receiver, identity, chunks, frames, n);
    ChunksJoin(raw, receiver.t.chunkBytes);
    JoinedPrefix(chunks, n);
    receiver.AcceptedRun(frames[..n], identity, |frames|);
    assert n == |frames| ==> chunks[..n] == chunks;
  }
}
