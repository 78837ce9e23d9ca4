// The compact JSON text of a chunk envelope: it has the length the transport
// counts with, and no two envelopes share it. So lawful codecs, and with them
// sessions of the kind the safety theorems speak about, exist.
module SessionCodec {
  import opened Strings
  import opened Framing
  import opened SessionTransport
  import opened SessionModel
  import Base64
  import Numerals
  import P = StartupParser

  function UuidText(id: Id): (text: string)
    ensures |text| == UUID_TEXT_LENGTH
  {
    var hex := Numerals.Hex(id, 32);
    hex[..8] + "-" + hex[8..12] + "-" + hex[12..16] + "-" + hex[16..20] + "-" + hex[20..]
  }

  function DataPart(e: Envelope): (text: string)
    ensures text != "" && text[0] == ','
  {
    ",\"data\":\"" + (e.data + "\"}")
  }

  function CountPart(e: Envelope): (text: string)
    requires e.count >= 0
    ensures text != "" && text[0] == ','
  {
    ",\"count\":" + (Numerals.Decimal(e.count) + DataPart(e))
  }

  function IndexPart(e: Envelope): (text: string)
    requires e.index >= 0 && e.count >= 0
    ensures text != "" && text[0] == '"'
  {
    "\",\"index\":" + (Numerals.Decimal(e.index) + CountPart(e))
  }

  function OperationPart(e: Envelope): string
    requires e.index >= 0 && e.count >= 0
  {
    "\",\"operation\":\"" + (e.identity.operation + IndexPart(e))
  }

  function RequestPart(e: Envelope): string
    requires e.index >= 0 && e.count >= 0
  {
    "\",\"request_id\":\"" + (UuidText(e.identity.request) + OperationPart(e))
  }

  function SessionPart(e: Envelope): (text: string)
    requires e.index >= 0 && e.count >= 0
    ensures text != "" && text[0] == '"'
  {
    "\",\"session_id\":\"" + (UuidText(e.session) + RequestPart(e))
  }

  function EnvelopeText(e: Envelope): string
    requires e.index >= 0 && e.count >= 0
  {
    "{\"type\":\"" + (e.kind + SessionPart(e))
  }

  lemma TextLength(e: Envelope)
    requires e.index >= 0 && e.count >= 0
    ensures |EnvelopeText(e)| == EnvelopeLength(e)
  {
    hide Numerals.Digits, Numerals.Decimal, UuidText;
    Numerals.DecimalLength(e.index);
    Numerals.DecimalLength(e.count);
  }

  // ---------- reading the text back ----------

  // Two pieces that do not hold the delimiter, each followed by it.
  lemma Delimited(a: string, x: string, b: string, y: string, delimiter: char)
    requires a + x == b + y && delimiter !in a && delimiter !in b
    requires x != [] && y != [] && x[0] == delimiter && y[0] == delimiter
    ensures a == b && x == y
  {
    var whole := a + x;
    assert whole[|a|] == delimiter && (b + y)[|b|] == delimiter;
    assert forall k :: 0 <= k < |a| ==> whole[k] == a[k] && a[k] in a;
    assert forall k :: 0 <= k < |b| ==> (b + y)[k] == b[k] && b[k] in b;
    assert |a| == |b|;
    Fixed(a, x, b, y);
  }

  lemma Fixed(a: string, x: string, b: string, y: string)
    requires a + x == b + y && |a| == |b|
    ensures a == b && x == y
  {
    assert (a + x)[..|a|] == a && (b + y)[..|b|] == b;
    assert (a + x)[|a|..] == x && (b + y)[|b|..] == y;
  }

  // Five pieces of equal lengths with dashes between them.
  lemma DashedInjective(s: string, t: string)
    requires |s| == |t| == 32
    requires s[..8] + "-" + s[8..12] + "-" + s[12..16] + "-" + s[16..20] + "-" + s[20..] ==
             t[..8] + "-" + t[8..12] + "-" + t[12..16] + "-" + t[16..20] + "-" + t[20..]
    ensures s == t
  {
    Fixed(s[..8] + "-" + s[8..12] + "-" + s[12..16] + "-" + s[16..20] + "-", s[20..],
          t[..8] + "-" + t[8..12] + "-" + t[12..16] + "-" + t[16..20] + "-", t[20..]);
    Fixed(s[..8] + "-" + s[8..12] + "-" + s[12..16] + "-" + s[16..20], "-",
          t[..8] + "-" + t[8..12] + "-" + t[12..16] + "-" + t[16..20], "-");
    Fixed(s[..8] + "-" + s[8..12] + "-" + s[12..16] + "-", s[16..20],
          t[..8] + "-" + t[8..12] + "-" + t[12..16] + "-", t[16..20]);
    Fixed(s[..8] + "-" + s[8..12] + "-" + s[12..16], "-", t[..8] + "-" + t[8..12] + "-" + t[12..16], "-");
    Fixed(s[..8] + "-" + s[8..12] + "-", s[12..16], t[..8] + "-" + t[8..12] + "-", t[12..16]);
    Fixed(s[..8] + "-" + s[8..12], "-", t[..8] + "-" + t[8..12], "-");
    Fixed(s[..8] + "-", s[8..12], t[..8] + "-", t[8..12]);
    Fixed(s[..8], "-", t[..8], "-");
    assert s == s[..8] + s[8..12] + s[12..16] + s[16..20] + s[20..];
    assert t == t[..8] + t[8..12] + t[12..16] + t[16..20] + t[20..];
  }

  lemma UuidInjective(a: Id, b: Id)
    requires UuidText(a) == UuidText(b)
    ensures a == b
  {
    hide Numerals.Hex;
    var s, t := Numerals.Hex(a, 32), Numerals.Hex(b, 32);
    DashedInjective(s, t);
    IdFits();
    Numerals.HexInjective(a, b, 32);
  }

  lemma IdFits()
    ensures Numerals.Power16(32) == 0x1_00000000_00000000_00000000_00000000
  {
    assert Numerals.Power16(4) == 0x10000;
    assert Numerals.Power16(8) == 0x1_00000000;
    assert Numerals.Power16(12) == 0x1_0000_00000000;
    assert Numerals.Power16(16) == 0x1_00000000_00000000;
    assert Numerals.Power16(20) == 0x1_0000_00000000_00000000;
    assert Numerals.Power16(24) == 0x1_00000000_00000000_00000000;
    assert Numerals.Power16(28) == 0x1_0000_00000000_00000000_00000000;
  }

  // A kind or an operation holds no quote and only ASCII characters.
  predicate Plain(text: string)
  {
    forall k :: 0 <= k < |text| ==> text[k] != '"' && 0 < (text[k] as int) < 128
  }

  lemma PlainOperations()
    ensures Plain("inspect") && Plain("backup") && Plain("maintenance")
  {
  }

  lemma PlainRestores()
    ensures Plain("restore-staging") && Plain("restore-inplace") && Plain("packages-install")
  {
  }

  lemma PlainKinds()
    ensures Plain("session-request-chunk") && Plain("session-response-chunk")
  {
  }

  lemma KnownNamesArePlain(e: Envelope)
    requires Built(e)
    ensures Plain(e.kind) && Plain(e.identity.operation)
  {
    hide Plain, Base64.IsText;
    PlainOperations();
    PlainRestores();
    PlainKinds();
  }

  lemma DataInjective(d: Envelope, e: Envelope)
    requires DataPart(d) == DataPart(e)
    ensures d.data == e.data
  {
    var head := ",\"data\":\"";
    Fixed(head, d.data + "\"}", head, e.data + "\"}");
    Fixed(d.data, "\"}", e.data, "\"}");
  }

  lemma NumeralInjective(m: nat, x: string, n: nat, y: string, delimiter: char)
    requires Numerals.Decimal(m) + x == Numerals.Decimal(n) + y
    requires x != "" && y != "" && x[0] == y[0] == delimiter && !('0' <= delimiter <= '9')
    ensures m == n && x == y
  {
    hide Numerals.Decimal;
    Numerals.DecimalChars(m);
    Numerals.DecimalChars(n);
    Delimited(Numerals.Decimal(m), x, Numerals.Decimal(n), y, delimiter);
    Numerals.DecimalInjective(m, n);
  }

  lemma CountInjective(d: Envelope, e: Envelope)
    requires d.count >= 0 && e.count >= 0 && CountPart(d) == CountPart(e)
    ensures d.count == e.count && d.data == e.data
  {
    hide DataPart, Numerals.Decimal;
    var head := ",\"count\":";
    Fixed(head, Numerals.Decimal(d.count) + DataPart(d), head, Numerals.Decimal(e.count) + DataPart(e));
    NumeralInjective(d.count, DataPart(d), e.count, DataPart(e), ',');
    DataInjective(d, e);
  }

  lemma IndexInjective(d: Envelope, e: Envelope)
    requires d.count >= 0 && e.count >= 0 && d.index >= 0 && e.index >= 0 && IndexPart(d) == IndexPart(e)
    ensures d.index == e.index && d.count == e.count && d.data == e.data
  {
    hide CountPart, Numerals.Decimal;
    var head := "\",\"index\":";
    Fixed(head, Numerals.Decimal(d.index) + CountPart(d), head, Numerals.Decimal(e.index) + CountPart(e));
    NumeralInjective(d.index, CountPart(d), e.index, CountPart(e), ',');
    CountInjective(d, e);
  }

  lemma OperationInjective(d: Envelope, e: Envelope)
    requires d.count >= 0 && e.count >= 0 && d.index >= 0 && e.index >= 0
    requires Plain(d.identity.operation) && Plain(e.identity.operation) && OperationPart(d) == OperationPart(e)
    ensures d.identity.operation == e.identity.operation
    ensures d.index == e.index && d.count == e.count && d.data == e.data
  {
    hide IndexPart;
    var head := "\",\"operation\":\"";
    Fixed(head, d.identity.operation + IndexPart(d), head, e.identity.operation + IndexPart(e));
    Delimited(d.identity.operation, IndexPart(d), e.identity.operation, IndexPart(e), '"');
    IndexInjective(d, e);
  }

  lemma RequestInjective(d: Envelope, e: Envelope)
    requires d.count >= 0 && e.count >= 0 && d.index >= 0 && e.index >= 0 && RequestPart(d) == RequestPart(e)
    ensures d.identity.request == e.identity.request && OperationPart(d) == OperationPart(e)
  {
    hide OperationPart, UuidText;
    var head := "\",\"request_id\":\"";
    var a, b := UuidText(d.identity.request), UuidText(e.identity.request);
    Fixed(head, a + OperationPart(d), head, b + OperationPart(e));
    Fixed(a, OperationPart(d), b, OperationPart(e));
    UuidInjective(d.identity.request, e.identity.request);
  }

  lemma SessionInjective(d: Envelope, e: Envelope)
    requires d.count >= 0 && e.count >= 0 && d.index >= 0 && e.index >= 0 && SessionPart(d) == SessionPart(e)
    ensures d.session == e.session && RequestPart(d) == RequestPart(e)
  {
    hide RequestPart, UuidText;
    var head := "\",\"session_id\":\"";
    var a, b := UuidText(d.session), UuidText(e.session);
    Fixed(head, a + RequestPart(d), head, b + RequestPart(e));
    Fixed(a, RequestPart(d), b, RequestPart(e));
    UuidInjective(d.session, e.session);
  }

  // No two envelopes an encoder builds have the same text.
  lemma TextInjective(d: Envelope, e: Envelope)
    requires Built(d) && Built(e) && EnvelopeText(d) == EnvelopeText(e)
    ensures d == e
  {
    KnownNamesArePlain(d);
    KnownNamesArePlain(e);
    hide SessionPart, RequestPart, OperationPart, Base64.IsText;
    var head := "{\"type\":\"";
    Fixed(head, d.kind + SessionPart(d), head, e.kind + SessionPart(e));
    Delimited(d.kind, SessionPart(d), e.kind, SessionPart(e), '"');
    SessionInjective(d, e);
    RequestInjective(d, e);
    OperationInjective(d, e);
  }

  // ---------- a lawful codec ----------

  // ASCII without the NUL character.
  predicate Ascii(text: string)
  {
    forall k :: 0 <= k < |text| ==> 0 < (text[k] as int) < 128
  }

  function ToBytes(text: string): (bytes: Bytes)
    ensures |bytes| == |text|
  {
    seq(|text|, k requires 0 <= k < |text| => LowByte(text[k] as int))
  }

  lemma ToBytesInjective(a: string, b: string)
    requires Ascii(a) && Ascii(b) && ToBytes(a) == ToBytes(b)
    ensures a == b
  {
    assert |a| == |b|;
    forall k | 0 <= k < |a| ensures a[k] == b[k] {
      assert ToBytes(a)[k] == ToBytes(b)[k];
      assert LowByte(a[k] as int) == a[k] as int && LowByte(b[k] as int) == b[k] as int;
    }
  }

  lemma TextIsAscii(e: Envelope)
    requires Built(e)
    ensures Ascii(EnvelopeText(e))
  {
    KnownNamesArePlain(e);
    AsciiLabels();
    NumeralIsAscii(e.index);
    NumeralIsAscii(e.count);
    UuidIsAscii(e.session);
    UuidIsAscii(e.identity.request);
    hide Numerals.Decimal, UuidText, Built;
    DataIsAscii(e);
    AsciiJoin(Numerals.Decimal(e.count), DataPart(e));
    AsciiJoin(",\"count\":", Numerals.Decimal(e.count) + DataPart(e));
    AsciiJoin(Numerals.Decimal(e.index), CountPart(e));
    AsciiJoin("\",\"index\":", Numerals.Decimal(e.index) + CountPart(e));
    AsciiJoin(e.identity.operation, IndexPart(e));
    AsciiJoin("\",\"operation\":\"", e.identity.operation + IndexPart(e));
    AsciiJoin(UuidText(e.identity.request), OperationPart(e));
    AsciiJoin("\",\"request_id\":\"", UuidText(e.identity.request) + OperationPart(e));
    AsciiJoin(UuidText(e.session), RequestPart(e));
    AsciiJoin("\",\"session_id\":\"", UuidText(e.session) + RequestPart(e));
    AsciiJoin(e.kind, SessionPart(e));
    AsciiJoin("{\"type\":\"", e.kind + SessionPart(e));
  }

  lemma AsciiLabels()
    ensures Ascii(",\"data\":\"") && Ascii("\"}") && Ascii(",\"count\":") && Ascii("\",\"index\":")
    ensures Ascii("\",\"operation\":\"") && Ascii("\",\"request_id\":\"")
    ensures Ascii("\",\"session_id\":\"") && Ascii("{\"type\":\"")
  {
  }

  lemma AsciiJoin(a: string, b: string)
    requires Ascii(a) && Ascii(b)
    ensures Ascii(a + b)
  {
  }

  lemma NumeralIsAscii(n: nat)
    ensures Ascii(Numerals.Decimal(n))
  {
    Numerals.DecimalChars(n);
  }

  lemma UuidIsAscii(id: Id)
    ensures Ascii(UuidText(id))
  {
    Numerals.HexChars(id, 32);
    hide Numerals.Hex;
  }

  lemma DataIsAscii(e: Envelope)
    requires Base64.IsText(e.data)
    ensures Ascii(DataPart(e))
  {
    AsciiLabels();
    assert Ascii(e.data);
    AsciiJoin(e.data, "\"}");
    AsciiJoin(",\"data\":\"", e.data + "\"}");
  }

  function Encode(e: Envelope): Bytes
  {
    if e.index >= 0 && e.count >= 0 then ToBytes(EnvelopeText(e)) else ToBytes("{}")
  }

  ghost function Decode(raw: Bytes): Option<Envelope>
  {
    if exists e: Envelope :: Built(e) && Encode(e) == raw then
      var e: Envelope :| Built(e) && Encode(e) == raw;
      Some(e)
    else None
  }

  ghost function JsonCodec(): Codec
  {
    Codec(Encode, raw => Decode(raw))
  }

  lemma EncodeInjective(d: Envelope, e: Envelope)
    requires Built(d) && Built(e) && Encode(d) == Encode(e)
    ensures d == e
  {
    hide EnvelopeText, Base64.IsText;
    TextIsAscii(d);
    TextIsAscii(e);
    ToBytesInjective(EnvelopeText(d), EnvelopeText(e));
    TextInjective(d, e);
  }

  lemma EncodedLength(e: Envelope)
    requires Built(e)
    ensures |Encode(e)| == EnvelopeLength(e)
  {
    hide EnvelopeText, EnvelopeLength;
    TextLength(e);
  }

  lemma DecodesBack(e: Envelope)
    requires Built(e)
    ensures Decode(Encode(e)) == Some(e)
  {
    hide Encode, Built;
    var found := Decode(Encode(e));
    assert found.Some? && Built(found.value) && Encode(found.value) == Encode(e);
    EncodeInjective(found.value, e);
  }

  // The compact JSON text is a lawful codec.
  lemma JsonCodecIsLawful()
    ensures JsonCodec().Lawful()
  {
    hide Encode, Decode, EnvelopeLength;
    forall e: Envelope | Built(e)
      ensures JsonCodec().decode(JsonCodec().encode(e)) == Some(e) && |JsonCodec().encode(e)| == EnvelopeLength(e)
    {
      EncodedLength(e);
      DecodesBack(e);
    }
  }

  // ---------- a lawful session ----------

  ghost function StartupValue(raw: Bytes, session: Id): Option<P.Value>
  {
    if raw == [1] then Some(P.Value(P.Ready, session, session, true, true, true))
    else if raw == [2] then Some(P.Value(P.Done, session, session, true, true, true))
    else if raw == [3] then Some(P.Value(P.NavigationReady, session, session, true, true, true))
    else None
  }

  ghost function RequestAt(raw: Bytes): Option<Identity>
  {
    if raw == [7] then Some(Identity(1, "inspect")) else None
  }

  ghost function MessageAt(raw: Bytes): Option<Message>
  {
    if raw == [8] then Some(Reply(Identity(1, "inspect"))) else None
  }

  ghost function SomeWorld(session: Id): World
  {
    World(session, JsonCodec(), raw => StartupValue(raw, session), raw => RequestAt(raw), raw => MessageAt(raw),
          [4], [5], [6], [[1], [2], [3]])
  }

  lemma ScriptRuns(session: Id)
    requires session != 0
    ensures var w := SomeWorld(session); P.RunPayloads(w.startup, w.Fresh(), w.script).error.None?
  {
    hide JsonCodec;
    var w := SomeWorld(session);
    var tail: seq<Bytes> := [[2], [3]];
    assert w.script[1..] == tail && tail[1..] == [[3]] && [[3]][1..] == [];
    var ready := P.Accept(w.startup, w.Fresh(), [1]);
    assert ready.error.None? && ready.state == w.Fresh().(ready := true);
    var done := P.Accept(w.startup, ready.state, [2]);
    assert done.error.None? && done.state == ready.state.(done := true);
    var navigation := P.Accept(w.startup, done.state, [3]);
    assert navigation.error.None?;
    hide P.Accept;
    assert P.RunPayloads(w.startup, done.state, [[3]]).error.None?;
    assert P.RunPayloads(w.startup, ready.state, tail).error.None?;
  }

  // An envelope's text begins with a brace.
  lemma CodecStart(e: Envelope)
    requires Built(e)
    ensures Encode(e) != [] && Encode(e)[0] == 123
  {
    hide SessionPart;
    var text := EnvelopeText(e);
    assert text[0] == '{';
  }

  lemma TextHasNoZero(raw: Bytes)
    ensures Decode(raw).Some? ==> 0 !in raw
  {
    hide EnvelopeText, Built;
    if Decode(raw).Some? {
      var e := Decode(raw).value;
      TextIsAscii(e);
      BuiltIsCounted(e);
      var text := EnvelopeText(e);
      assert raw == ToBytes(text);
      forall k | 0 <= k < |raw| ensures raw[k] != 0 {
        assert LowByte(text[k] as int) == text[k] as int;
      }
    }
  }

  lemma BuiltIsCounted(e: Envelope)
    requires Built(e)
    ensures e.index >= 0 && e.count >= 0
  {
  }

  lemma CodecRefuses()
    ensures Decode([6]).None?
  {
    hide Encode;
    if Decode([6]).Some? {
      CodecStart(Decode([6]).value);
    }
  }

  // Sessions of the kind the safety theorems speak about exist.
  lemma LawfulWorldExists(session: Id)
    requires session != 0
    ensures SomeWorld(session).Lawful()
    ensures ValidRequest(SomeWorld(session), Request(Identity(1, "inspect"), [7]))
    ensures ValidReply(SomeWorld(session), Identity(1, "inspect"), [8])
  {
    hide Encode, Decode, P.RunPayloads, EnvelopeLength, Built;
    JsonCodecIsLawful();
    var w := SomeWorld(session);
    ScriptRuns(session);
    forall e: Envelope | Built(e) ensures w.requestOf(w.codec.encode(e)).None? && w.messageOf(w.codec.encode(e)).None? {
      CodecStart(e);
      assert w.codec.encode(e) == Encode(e);
    }
    CodecRefuses();
    forall raw ensures w.codec.decode(raw).Some? ==> 0 !in raw {
      TextHasNoZero(raw);
      assert w.codec.decode(raw) == Decode(raw);
    }
    assert w.codec.decode(w.cancel) == Decode([6]);
    assert w.codec.Lawful() && w.IsScript();
  }
}
