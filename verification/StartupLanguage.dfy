// Which frame sequences the startup parser accepts over a whole session.
module StartupLanguage {
  import opened Strings
  import opened Framing
  import opened StartupParser

  function Kinds(values: seq<Value>): (kinds: seq<Kind>)
    ensures |kinds| == |values|
    ensures forall i :: 0 <= i < |values| ==> kinds[i] == values[i].kind
  {
    seq(|values|, i requires 0 <= i < |values| => values[i].kind)
  }

  // Check the values one after the other, stopping at the first error.
  function RunValues(s: State, values: seq<Value>): Checked
    decreases |values|
  {
    if values == [] then Checked(s, None)
    else
      var before := RunValues(s, values[..|values| - 1]);
      if before.error.Some? then before else Validate(before.state, values[|values| - 1])
  }

  function Initial(expected: Option<Id>): State
  {
    State([], false, false, false, expected)
  }

  // ---------- the language ----------

  // ready result*
  ghost predicate Streaming(kinds: seq<Kind>)
  {
    kinds != [] && kinds[0] == Ready && forall i :: 1 <= i < |kinds| ==> kinds[i] == ResultPage
  }

  // error | ready result* (done | error)
  ghost predicate Complete(kinds: seq<Kind>)
  {
    kinds == [Error] ||
    (kinds != [] && Streaming(kinds[..|kinds| - 1]) && kinds[|kinds| - 1] in {Done, Error})
  }

  // navigation-ready (navigation-result | navigation-error)*
  ghost predicate Navigating(kinds: seq<Kind>)
  {
    kinds != [] && kinds[0] == NavigationReady &&
    forall i :: 1 <= i < |kinds| ==> kinds[i] in {NavigationResult, NavigationError}
  }

  ghost predicate NavigatingAfter(kinds: seq<Kind>, split: int)
  {
    0 <= split <= |kinds| && Complete(kinds[..split]) && Navigating(kinds[split..])
  }

  ghost predicate Language(kinds: seq<Kind>)
  {
    kinds == [] || Streaming(kinds) || Complete(kinds) || exists split :: NavigatingAfter(kinds, split)
  }

  // ---------- well-formed values of one session ----------

  predicate IsNavigation(kind: Kind)
  {
    kind in {NavigationReady, NavigationResult, NavigationError}
  }

  predicate WellFormed(value: Value)
  {
    value.kind != Unknown && value.fields &&
    (value.kind in {Ready, ResultPage, Error, NavigationResult} ==> value.types) &&
    (value.kind in {NavigationResult, NavigationError} ==>
       value.operation && IsValidRequestId(value.requestId))
  }

  predicate Pinned(value: Value, session: Id)
  {
    (if IsNavigation(value.kind) then value.sessionId else value.requestId) == session
  }

  ghost predicate AllPinned(values: seq<Value>, session: Id)
  {
    forall i :: 0 <= i < |values| ==> Pinned(values[i], session)
  }

  // ---------- the state after an accepted sequence ----------

  lemma LanguageStep(kinds: seq<Kind>, kind: Kind)
    ensures Streaming(kinds + [kind]) <==> (kinds == [] && kind == Ready) || (Streaming(kinds) && kind == ResultPage)
    ensures Complete(kinds + [kind]) <==> (kinds == [] && kind == Error) || (Streaming(kinds) && kind in {Done, Error})
    ensures (exists split :: NavigatingAfter(kinds + [kind], split)) <==>
            (Complete(kinds) && kind == NavigationReady) ||
            ((exists split :: NavigatingAfter(kinds, split)) && kind in {NavigationResult, NavigationError})
  {
    var grown := kinds + [kind];
    assert grown[..|kinds|] == kinds;
    assert grown[|kinds|] == kind;
    assert kinds != [] ==> kinds[0] == grown[0];
    assert Streaming(grown) ==> forall i :: 1 <= i < |kinds| ==> kinds[i] == grown[i];
    NavigationStep(kinds, kind);
  }

  lemma NavigationStep(kinds: seq<Kind>, kind: Kind)
    ensures (exists split :: NavigatingAfter(kinds + [kind], split)) <==>
            (Complete(kinds) && kind == NavigationReady) ||
            ((exists split :: NavigatingAfter(kinds, split)) && kind in {NavigationResult, NavigationError})
  {
    hide Complete;
    var grown := kinds + [kind];
    if split :| NavigatingAfter(grown, split) {
      assert split < |grown|;
      assert grown[..split] == kinds[..split];
      if split == |kinds| {
        assert kinds[..split] == kinds;
        assert grown[split..] == [kind];
      } else {
        assert grown[split..] == kinds[split..] + [kind];
        assert kinds[split..][0] == grown[split..][0];
        assert grown[split..][|kinds| - split] == kind;
        assert forall i :: 1 <= i < |kinds[split..]| ==> kinds[split..][i] == grown[split..][i];
        assert NavigatingAfter(kinds, split);
      }
    }
    if Complete(kinds) && kind == NavigationReady {
      assert grown[..|kinds|] == kinds && grown[|kinds|..] == [kind];
      assert NavigatingAfter(grown, |kinds|);
    }
    if split :| NavigatingAfter(kinds, split) && kind in {NavigationResult, NavigationError} {
      assert grown[..split] == kinds[..split];
      assert grown[split..] == kinds[split..] + [kind];
      assert NavigatingAfter(grown, split);
    }
  }

  // A complete exchange ends in done or error, a streaming one never does.
  lemma Distinct(kinds: seq<Kind>)
    ensures Streaming(kinds) ==> kinds[|kinds| - 1] in {Ready, ResultPage}
    ensures Complete(kinds) ==> kinds[|kinds| - 1] in {Done, Error}
    ensures forall split :: NavigatingAfter(kinds, split) ==> kinds != [] && IsNavigation(kinds[|kinds| - 1])
  {
    forall split | NavigatingAfter(kinds, split) ensures kinds != [] && IsNavigation(kinds[|kinds| - 1]) {
      var tail := kinds[split..];
      assert kinds[|kinds| - 1] == tail[|tail| - 1];
    }
  }

  // What the flags say about the kinds read so far.
  ghost predicate Describes(s: State, kinds: seq<Kind>)
  {
    Language(kinds) &&
    (Streaming(kinds) <==> s.ready && !s.done) &&
    (kinds == [] <==> !s.ready && !s.done) &&
    (Complete(kinds) <==> s.done && !s.navigationReady) &&
    (s.navigationReady ==> s.done)
  }

  lemma DescribesStep(s: State, kinds: seq<Kind>, value: Value)
    requires Describes(s, kinds)
    requires s.requestId.Some? ==> IsValidRequestId(s.requestId.value)
    requires kinds != [] ==> s.requestId.Some?
    ensures var checked := Validate(s, value);
            checked.error.None? <==>
              Language(kinds + [value.kind]) && WellFormed(value) &&
              (IsNavigation(value.kind) || IsValidRequestId(value.requestId)) &&
              (s.requestId.Some? ==> Pinned(value, s.requestId.value))
    ensures var checked := Validate(s, value);
            checked.error.None? ==>
              Describes(checked.state, kinds + [value.kind]) &&
              checked.state.requestId ==
                (if s.requestId.Some? then s.requestId else Some(value.requestId))
  {
    hide Streaming;
    hide Complete;
    hide NavigatingAfter;
    LanguageStep(kinds, value.kind);
    Distinct(kinds);
    Distinct(kinds + [value.kind]);
  }

  // What the error codes say: an order error exactly if a known kind breaks the
  // language; after that a schema error or an id error says what is wrong with the value.
  lemma OrderErrors(s: State, kinds: seq<Kind>, value: Value)
    requires Describes(s, kinds)
    ensures Validate(s, value).error == Some(InvalidOrder) <==>
      value.kind != Unknown && !Language(kinds + [value.kind])
    ensures Validate(s, value).error != Some(InvalidOrder) && !value.fields ==>
      Validate(s, value).error == Some(InvalidSchema)
    ensures Validate(s, value).error == Some(InvalidSchema) ==>
      value.kind == Unknown || !value.fields || !value.types
    ensures Validate(s, value).error in {Some(InvalidRequestId), Some(RequestIdMismatch)} ==>
      value.fields && Language(kinds + [value.kind])
  {
    hide Streaming;
    hide Complete;
    hide NavigatingAfter;
    LanguageStep(kinds, value.kind);
    Distinct(kinds);
    Distinct(kinds + [value.kind]);
  }

  lemma LanguagePrefix(kinds: seq<Kind>, kind: Kind)
    requires Language(kinds + [kind])
    ensures Language(kinds)
  {
    hide Streaming;
    hide Complete;
    hide NavigatingAfter;
    LanguageStep(kinds, kind);
  }

  lemma KindsStep(values: seq<Value>)
    requires values != []
    ensures Kinds(values) == Kinds(values[..|values| - 1]) + [values[|values| - 1].kind]
  {
  }

  // After an accepted sequence the flags describe it and the pinned id is every value's.
  ghost predicate Settled(expected: Option<Id>, values: seq<Value>, s: State)
  {
    s.buffer == [] && Describes(s, Kinds(values)) &&
    (forall i :: 0 <= i < |values| ==> WellFormed(values[i])) &&
    (values == [] ==> s.requestId == expected) &&
    (values != [] ==> s.requestId.Some?) &&
    (s.requestId.Some? ==> IsValidRequestId(s.requestId.value) && AllPinned(values, s.requestId.value)) &&
    (expected.Some? ==> s.requestId == expected)
  }

  lemma EmptyDescribed(expected: Option<Id>)
    ensures Describes(Initial(expected), [])
  {
  }

  lemma {:induction false} AcceptedIsSettled(expected: Option<Id>, values: seq<Value>)
    requires expected.Some? ==> IsValidRequestId(expected.value)
    requires RunValues(Initial(expected), values).error.None?
    ensures Settled(expected, values, RunValues(Initial(expected), values).state)
    decreases |values|
  {
    hide Language;
    hide Describes;
    hide WellFormed;
    if values == [] {
      EmptyDescribed(expected);
      assert Kinds(values) == [];
    } else {
      var init, last := values[..|values| - 1], values[|values| - 1];
      AcceptedIsSettled(expected, init);
      KindsStep(values);
      var before := RunValues(Initial(expected), init).state;
      DescribesStep(before, Kinds(init), last);
      ValidateKeepsBuffer(before, last);
      if before.requestId.None? {
        FirstIsNotNavigation(before, last);
      }
    }
  }

  lemma FirstIsNotNavigation(s: State, value: Value)
    requires s.requestId.None? && Validate(s, value).error.None?
    ensures !IsNavigation(value.kind)
  {
  }

  lemma {:induction false} SentenceIsAccepted(expected: Option<Id>, values: seq<Value>, session: Id)
    requires expected.Some? ==> session == expected.value
    requires IsValidRequestId(session) && AllPinned(values, session) && Language(Kinds(values))
    requires forall i :: 0 <= i < |values| ==> WellFormed(values[i])
    ensures RunValues(Initial(expected), values).error.None?
    decreases |values|
  {
    hide Language;
    hide Describes;
    hide WellFormed;
    if values != [] {
      var init, last := values[..|values| - 1], values[|values| - 1];
      KindsStep(values);
      LanguagePrefix(Kinds(init), last.kind);
      SentenceIsAccepted(expected, init, session);
      AcceptedIsSettled(expected, init);
      var before := RunValues(Initial(expected), init).state;
      if init != [] {
        assert Pinned(init[0], session) && Pinned(init[0], before.requestId.value);
      }
      DescribesStep(before, Kinds(init), last);
    }
  }

  // The kinds form a sentence of the language, every value is well formed, and one
  // valid session id pins them all.
  ghost predicate Sentence(expected: Option<Id>, values: seq<Value>)
  {
    Language(Kinds(values)) && (forall i :: 0 <= i < |values| ==> WellFormed(values[i])) &&
    exists session :: IsValidRequestId(session) && AllPinned(values, session) &&
      (expected.Some? ==> session == expected.value)
  }

  lemma SentencesExactly(expected: Option<Id>, values: seq<Value>)
    requires expected.Some? ==> IsValidRequestId(expected.value)
    ensures RunValues(Initial(expected), values).error.None? <==> Sentence(expected, values)
  {
    hide WellFormed;
    hide RunValues;
    if RunValues(Initial(expected), values).error.None? {
      AcceptedIsSettled(expected, values);
      var s := RunValues(Initial(expected), values).state;
      var session := if s.requestId.Some? then s.requestId.value else 1;
      assert IsValidRequestId(session) && AllPinned(values, session);
    }
    if Language(Kinds(values)) && (forall i :: 0 <= i < |values| ==> WellFormed(values[i])) {
      if session: Id :| IsValidRequestId(session) && AllPinned(values, session) &&
                        (expected.Some? ==> session == expected.value) {
        SentenceIsAccepted(expected, values, session);
      }
    }
  }

  // ---------- the bytes the parser is fed ----------

  // The decoded payloads, if every one decodes.
  function DecodeAll(decode: Decoder, payloads: seq<Bytes>): Option<seq<Value>>
  {
    if payloads == [] then Some([])
    else
      var before, last := DecodeAll(decode, payloads[..|payloads| - 1]), decode(payloads[|payloads| - 1]);
      if before.None? || last.None? then None else Some(before.value + [last.value])
  }

  // Checking payloads one by one is decoding them all and checking the values.
  lemma {:induction false} PayloadsAreValues(decode: Decoder, s: State, payloads: seq<Bytes>)
    ensures var run, values := RunPayloads(decode, s, payloads), DecodeAll(decode, payloads);
      (run.error.None? <==> values.Some? && RunValues(s, values.value).error.None?) &&
      (run.error.None? ==> run.frames == values.value && run.state == RunValues(s, values.value).state)
  {
    hide Validate;
    if payloads != [] {
      var init, last := payloads[..|payloads| - 1], payloads[|payloads| - 1];
      PayloadsAreValues(decode, s, init);
      assert payloads == init + [last];
      RunPayloadsConcat(decode, s, init, [last]);
      if RunPayloads(decode, s, init).error.None? && decode(last).Some? {
        ValuesStep(s, DecodeAll(decode, init).value, decode(last).value);
      }
      OnePayload(decode, RunPayloads(decode, s, init).state, last);
    }
  }

  lemma ValuesStep(s: State, values: seq<Value>, value: Value)
    ensures var before := RunValues(s, values);
      RunValues(s, values + [value]) == if before.error.Some? then before else Validate(before.state, value)
  {
    hide Validate;
    assert (values + [value])[..|values|] == values;
  }

  lemma OnePayload(decode: Decoder, s: State, payload: Bytes)
    ensures RunPayloads(decode, s, [payload]) == Accept(decode, s, payload)
  {
    hide Validate;
    var first := Accept(decode, s, payload);
    assert [payload][1..] == [];
    assert first.frames + [] == first.frames;
  }

  // An open rest only waits in the buffer.
  lemma OpenRest(decode: Decoder, s: State, rest: Bytes)
    requires s.buffer == [] && Open(rest)
    ensures Run(decode, s, rest) == Outcome(s.(buffer := rest), [], None)
  {
    hide Run, FromBigEndian, Accept;
    EmptyRun(decode, s);
    EmptyRun(decode, s.(buffer := rest));
    if rest != [] {
      forall k | 0 <= k < |rest| ensures Open(s.buffer + rest[..k]) {
        assert s.buffer + rest[..k] == rest[..k] && rest == rest[..k] + rest[k..];
        FillKeepsLength(rest[..k], rest[k..]);
      }
      TakeBytes(decode, s, rest, []);
      assert rest + [] == rest && s.buffer + rest == rest;
    } else {
      assert s.(buffer := rest) == s;
    }
  }

  lemma EmptyRun(decode: Decoder, s: State)
    ensures Run(decode, s, []) == Outcome(s, [], None)
  {
  }

  // Feeding the frames of some payloads and an open rest succeeds exactly if the
  // payloads decode to a sentence; then it yields the sentence, keeps the rest,
  // and the parser's flags say where in the language it stands.
  lemma StreamAccepted(decode: Decoder, expected: Option<Id>, payloads: seq<Bytes>, rest: Bytes)
    requires expected.Some? ==> IsValidRequestId(expected.value)
    requires AllSendable(payloads, MAX_STARTUP_FRAME_BYTES) && Open(rest)
    ensures var run, values := Run(decode, Initial(expected), Stream(payloads) + rest), DecodeAll(decode, payloads);
      (run.error.None? <==> values.Some? && Sentence(expected, values.value)) &&
      (run.error.None? ==> run.frames == values.value && run.state.buffer == rest &&
                           Settled(expected, values.value, run.state.(buffer := [])))
  {
    hide Run, RunPayloads, RunValues, Sentence, Settled, Open, Stream, DecodeAll;
    var start := Initial(expected);
    RunFrames(decode, start, payloads, rest);
    PayloadsAreValues(decode, start, payloads);
    var checked := RunPayloads(decode, start, payloads);
    if DecodeAll(decode, payloads).Some? {
      SentencesExactly(expected, DecodeAll(decode, payloads).value);
    }
    if checked.error.None? {
      var values := DecodeAll(decode, payloads).value;
      AcceptedIsSettled(expected, values);
      SettledBuffer(expected, values, checked.state);
      OpenRest(decode, checked.state, rest);
      assert checked.frames + [] == checked.frames;
      assert checked.state.(buffer := rest).(buffer := []) == checked.state;
    }
  }

  lemma SettledBuffer(expected: Option<Id>, values: seq<Value>, s: State)
    requires Settled(expected, values, s)
    ensures s.buffer == []
  {
  }

  // How a byte stream can be read: the frames of a sentence, and an open rest.
  ghost predicate ReadsAs(decode: Decoder, expected: Option<Id>, data: Bytes, payloads: seq<Bytes>, rest: Bytes)
  {
    AllSendable(payloads, 65536) && Open(rest) && data == Stream(payloads) + rest &&
    DecodeAll(decode, payloads).Some? && Sentence(expected, DecodeAll(decode, payloads).value)
  }

  // Any bytes at all are accepted exactly if they can be read so.
  lemma AcceptedExactly(decode: Decoder, expected: Option<Id>, data: Bytes)
    requires expected.Some? ==> IsValidRequestId(expected.value)
    ensures Run(decode, Initial(expected), data).error.None? <==>
      exists payloads, rest :: ReadsAs(decode, expected, data, payloads, rest)
  {
    hide Run, Sentence, Settled, Open, Stream, DecodeAll;
    if payloads, rest :| ReadsAs(decode, expected, data, payloads, rest) {
      StreamAccepted(decode, expected, payloads, rest);
    }
    if Run(decode, Initial(expected), data).error.None? {
      NothingIsOpen();
      var payloads := AcceptedIsFramed(decode, Initial(expected), data);
      var rest := Run(decode, Initial(expected), data).state.buffer;
      assert Initial(expected).buffer + data == data;
      StreamAccepted(decode, expected, payloads, rest);
      assert ReadsAs(decode, expected, data, payloads, rest);
    }
  }

  lemma NothingIsOpen()
    ensures Open([])
  {
  }
}
