// Length-prefixed frames: a 4-byte big-endian length, then the payload.
module Framing {

  type byte = b: int | 0 <= b < 256

  type Bytes = seq<byte>

  const FRAME_HEADER_BYTES := 4

  function LowByte(n: nat): byte
  {
    n % 0x100
  }

  function BigEndian(n: nat): (header: Bytes)
    ensures |header| == FRAME_HEADER_BYTES
  {
    var high := n / 0x100;
    var higher := high / 0x100;
    [LowByte(higher / 0x100), LowByte(higher), LowByte(high), LowByte(n)]
  }

  function FromBigEndian(header: Bytes): (n: nat)
    requires |header| == FRAME_HEADER_BYTES
    ensures n < 0x1_0000_0000
  {
    var a: int, b: int, c: int, d: int := header[0], header[1], header[2], header[3];
    ((a * 0x100 + b) * 0x100 + c) * 0x100 + d
  }

  lemma LowByteSplits(n: nat)
    ensures n == n / 0x100 * 0x100 + LowByte(n)
  {
  }

  lemma LowByteOf(high: nat, low: byte)
    ensures (high * 0x100 + low) / 0x100 == high && LowByte(high * 0x100 + low) == low
  {
  }

  lemma BigEndianRoundTrip(n: nat)
    requires n < 0x1_0000_0000
    ensures FromBigEndian(BigEndian(n)) == n
  {
    hide LowByte;
    LowByteSplits(n);
    LowByteSplits(n / 0x100);
    LowByteSplits(n / 0x100 / 0x100);
    TopByte(n / 0x100 / 0x100 / 0x100);
  }

  lemma TopByte(n: nat)
    requires n < 0x100
    ensures LowByte(n) == n
  {
  }

  lemma HeaderRoundTrip(header: Bytes)
    requires |header| == FRAME_HEADER_BYTES
    ensures BigEndian(FromBigEndian(header)) == header
  {
    hide LowByte;
    var a: int, b: int, c: int := header[0], header[1], header[2];
    LowByteOf((a * 0x100 + b) * 0x100 + c, header[3]);
    LowByteOf(a * 0x100 + b, header[2]);
    LowByteOf(a, header[1]);
    TopByte(a);
  }

  // A payload the sender frames: not empty and at most `limit` bytes.
  predicate Sendable(payload: Bytes, limit: nat)
  {
    0 < |payload| <= limit && |payload| < 0x1_0000_0000
  }

  // Senders check Sendable first, so the length always fits its four bytes.
  function Frame(payload: Bytes): (frame: Bytes)
    ensures |frame| == FRAME_HEADER_BYTES + |payload|
  {
    BigEndian(|payload|) + payload
  }

  lemma FrameParts(payload: Bytes)
    requires |payload| < 0x1_0000_0000
    ensures FromBigEndian(Frame(payload)[..FRAME_HEADER_BYTES]) == |payload|
    ensures Frame(payload)[FRAME_HEADER_BYTES..] == payload
  {
    BigEndianRoundTrip(|payload|);
    assert Frame(payload)[..FRAME_HEADER_BYTES] == BigEndian(|payload|);
  }

  ghost predicate AllSendable(payloads: seq<Bytes>, limit: nat)
  {
    forall i :: 0 <= i < |payloads| ==> Sendable(payloads[i], limit)
  }

  // What a sender writes for a list of payloads.
  function Stream(payloads: seq<Bytes>): Bytes
  {
    if payloads == [] then [] else Frame(payloads[0]) + Stream(payloads[1..])
  }

  lemma {:induction false} StreamConcat(a: seq<Bytes>, b: seq<Bytes>)
    ensures Stream(a + b) == Stream(a) + Stream(b)
  {
    hide Frame;
    if a == [] {
      assert a + b == b;
    } else {
      StreamConcat(a[1..], b);
      assert (a + b)[1..] == a[1..] + b;
    }
  }

  // ---------- pieces of a stream ----------

  function Joined(pieces: seq<Bytes>): Bytes
  {
    if pieces == [] then [] else Joined(pieces[..|pieces| - 1]) + pieces[|pieces| - 1]
  }

  lemma JoinedStep(pieces: seq<Bytes>, piece: Bytes)
    ensures Joined([]) == []
    ensures Joined(pieces + [piece]) == Joined(pieces) + piece
  {
    assert (pieces + [piece])[..|pieces|] == pieces;
  }

  lemma {:induction false} JoinedFirst(piece: Bytes, pieces: seq<Bytes>)
    ensures Joined([piece] + pieces) == piece + Joined(pieces)
  {
    hide Joined;
    JoinedStep([], piece);
    if pieces == [] {
      assert [piece] + pieces == [] + [piece];
    } else {
      var init, last := pieces[..|pieces| - 1], pieces[|pieces| - 1];
      JoinedFirst(piece, init);
      JoinedStep([piece] + init, last);
      JoinedStep(init, last);
      assert [piece] + pieces == ([piece] + init) + [last] && pieces == init + [last];
    }
  }

  lemma {:induction false} JoinedPrefix(pieces: seq<Bytes>, n: nat)
    requires n <= |pieces|
    ensures Joined(pieces[..n]) <= Joined(pieces)
    decreases |pieces| - n
  {
    if n < |pieces| {
      assert pieces[..n + 1][..n] == pieces[..n];
      JoinedPrefix(pieces, n + 1);
    } else {
      assert pieces[..n] == pieces;
    }
  }

  // ---------- reading one frame from a pipe ----------

  // What the writer of a pipe will ever have written, minus what has been read;
  // an empty rest is end of file.
  class Pipe {
    var rest: Bytes

    constructor (bytes: Bytes)
      ensures rest == bytes
    {
      rest := bytes;
    }

    // os.read: some, but not more than `size`, of the next bytes.
    method Read(size: nat) returns (chunk: Bytes)
      requires size > 0
      modifies this
      ensures |chunk| <= size && old(rest) == chunk + rest
      ensures chunk == [] <==> old(rest) == []
    {
      if rest == [] {
        return [];
      }
      var most := if size < |rest| then size else |rest|;
      var count :| 1 <= count <= most;
      chunk, rest := rest[..count], rest[count..];
    }
  }

  datatype ReadResult = EndOfFile | Truncated | TooLarge | Payload(bytes: Bytes)

  // Reading one frame, whatever the pipe's fragmentation: no byte beyond the frame is taken.
  method ReadFrame(pipe: Pipe, limit: nat, allowEof: bool) returns (result: ReadResult)
    modifies pipe
    ensures var all := old(pipe.rest);
            if |all| < FRAME_HEADER_BYTES then
              result == (if all == [] && allowEof then EndOfFile else Truncated)
            else
              var length := FromBigEndian(all[..FRAME_HEADER_BYTES]);
              if length == 0 || length > limit then
                result == TooLarge && pipe.rest == all[FRAME_HEADER_BYTES..]
              else if |all| < FRAME_HEADER_BYTES + length then result == Truncated
              else
                result == Payload(all[FRAME_HEADER_BYTES..FRAME_HEADER_BYTES + length]) &&
                pipe.rest == all[FRAME_HEADER_BYTES + length..]
  {
    hide FromBigEndian;
    ghost var all := pipe.rest;
    var data: Bytes := [];
    while |data| < FRAME_HEADER_BYTES
      invariant |data| <= FRAME_HEADER_BYTES && all == data + pipe.rest
      decreases |pipe.rest|
    {
      var chunk := pipe.Read(FRAME_HEADER_BYTES - |data|);
      if chunk == [] {
        return if data == [] && allowEof then EndOfFile else Truncated;
      }
      assert data + chunk + pipe.rest == data + (chunk + pipe.rest);
      data := data + chunk;
    }
    assert all[..FRAME_HEADER_BYTES] == data;
    var length := FromBigEndian(data);
    if length <= 0 || length > limit {
      return TooLarge;
    }
    while |data| < FRAME_HEADER_BYTES + length
      invariant FRAME_HEADER_BYTES <= |data| <= FRAME_HEADER_BYTES + length && all == data + pipe.rest
      decreases |pipe.rest|
    {
      var chunk := pipe.Read(FRAME_HEADER_BYTES + length - |data|);
      if chunk == [] {
        return Truncated;
      }
      assert data + chunk + pipe.rest == data + (chunk + pipe.rest);
      data := data + chunk;
    }
    assert data[FRAME_HEADER_BYTES..] == all[FRAME_HEADER_BYTES..FRAME_HEADER_BYTES + length];
    return Payload(data[FRAME_HEADER_BYTES..]);
  }
}
