// Result pages of the startup stream: _emit's greedy pages and _emit_root's
// fixed windows over the sorted root directory.
module Paging {
  import opened Strings
  import opened Listing
  import Numerals
  import SessionTransport
  import StartupParser

  const PAGE_SIZE := 500

  // The UTF-8 JSON text of one record, a byte per character.
  type JsonText = text: string | text != "" witness "0"

  datatype Page = Page(records: seq<JsonText>, offset: nat, next: Option<nat>, final: bool, truncated: bool)

  datatype EmitError = ResponseTooLarge | MessageTooLarge

  datatype Emission = Emission(pages: seq<Page>, error: Option<EmitError>)

  // ---------- frame lengths ----------

  // The records joined by commas.
  function JoinedLength(records: seq<JsonText>): nat
  {
    if records == [] then 0
    else if |records| == 1 then |records[0]|
    else JoinedLength(records[..|records| - 1]) + 1 + |records[|records| - 1]|
  }

  function FlagLength(flag: bool): nat
  {
    if flag then |"true"| else |"false"|
  }

  // Length of the compact JSON object of a result frame.
  function FrameLength(section: string, page: Page): nat
  {
    |"{\"type\":\"result\",\"request_id\":\""| + SessionTransport.UUID_TEXT_LENGTH +
    |"\",\"section\":\""| + |section| + |"\",\"records\":["| + JoinedLength(page.records) +
    |"],\"offset\":"| + Numerals.Digits(page.offset) +
    |",\"next_offset\":"| + (if page.next.None? then |"null"| else Numerals.Digits(page.next.value)) +
    |",\"final\":"| + FlagLength(page.final) + |",\"truncated\":"| + FlagLength(page.truncated) + |"}"|
  }

  predicate Fits(section: string, page: Page)
  {
    FrameLength(section, page) <= StartupParser.MAX_STARTUP_FRAME_BYTES
  }

  lemma {:induction false} DigitsGrow(a: nat, b: nat)
    requires a <= b
    ensures Numerals.Digits(a) <= Numerals.Digits(b) <= Numerals.Digits(a) + (b - a)
    decreases b
  {
    if b >= 1000 {
      if a >= 1000 {
        DigitsGrow(a / 10, b / 10);
      } else {
        DigitsGrow(100, b / 10);
        assert Numerals.Digits(100) == 3 && b / 10 - 100 <= b - 1000;
      }
    }
  }

  // ---------- _emit ----------

  // The frame _emit tries before it accepts one more record.
  function Probe(records: seq<JsonText>, base: nat, start: nat, count: nat): Page
    requires start + count <= |records|
  {
    Page(records[start..start + count], base + start, Some(base + start + count), false, false)
  }

  // The page length the inner loop reaches from `count` records.
  function Grow(section: string, records: seq<JsonText>, base: nat, start: nat, count: nat): (grown: nat)
    requires start + count <= |records| && count <= PAGE_SIZE
    ensures count <= grown <= PAGE_SIZE && start + grown <= |records|
    decreases PAGE_SIZE - count
  {
    if start + count < |records| && count < PAGE_SIZE && Fits(section, Probe(records, base, start, count + 1))
    then Grow(section, records, base, start, count + 1)
    else count
  }

  // The frame actually sent for a page of `count` records.
  function Sent(records: seq<JsonText>, base: nat, start: nat, count: nat): Page
    requires start + count <= |records|
  {
    if start + count == |records| then Page(records[start..], base + start, None, true, false)
    else Probe(records, base, start, count)
  }

  function EmitFrom(section: string, records: seq<JsonText>, base: nat, start: nat): Emission
    requires start <= |records|
    decreases |records| - start
  {
    if start == |records| then Emission([], None)
    else
      var count := Grow(section, records, base, start, 0);
      if count == 0 then Emission([], Some(ResponseTooLarge))
      else if !Fits(section, Sent(records, base, start, count)) then Emission([], Some(MessageTooLarge))
      else
        var later := EmitFrom(section, records, base, start + count);
        Emission([Sent(records, base, start, count)] + later.pages, later.error)
  }

  function EmptyPage(base: nat): Page
  {
    Page([], base, None, true, false)
  }

  function Emitted(section: string, records: seq<JsonText>, base: nat): Emission
  {
    if records != [] then EmitFrom(section, records, base, 0)
    else if Fits(section, EmptyPage(base)) then Emission([EmptyPage(base)], None)
    else Emission([], Some(MessageTooLarge))
  }

  lemma EmitStep(section: string, records: seq<JsonText>, base: nat, start: nat)
    requires start < |records|
    ensures var count := Grow(section, records, base, start, 0);
      var sent := EmitFrom(section, records, base, start);
      if count == 0 then sent == Emission([], Some(ResponseTooLarge))
      else if !Fits(section, Sent(records, base, start, count)) then sent == Emission([], Some(MessageTooLarge))
      else
        var later := EmitFrom(section, records, base, start + count);
        sent == Emission([Sent(records, base, start, count)] + later.pages, later.error)
  {
    hide Fits, Grow, Sent;
  }

  lemma GrowStep(section: string, records: seq<JsonText>, base: nat, start: nat, count: nat)
    requires start + count < |records| && count < PAGE_SIZE
    ensures Grow(section, records, base, start, count) ==
      if !Fits(section, Probe(records, base, start, count + 1)) then count
      else Grow(section, records, base, start, count + 1)
  {
    hide Fits, Probe;
  }

  lemma EmitEnds(section: string, records: seq<JsonText>, base: nat)
    ensures EmitFrom(section, records, base, |records|) == Emission([], None)
  {
  }

  lemma GrowEnds(section: string, records: seq<JsonText>, base: nat, start: nat)
    requires start < |records|
    ensures |records| - start <= PAGE_SIZE ==>
      Grow(section, records, base, start, |records| - start) == |records| - start
    ensures PAGE_SIZE <= |records| - start ==> Grow(section, records, base, start, PAGE_SIZE) == PAGE_SIZE
  {
  }

  // The inner loop of _emit: an empty page means its first record did not fit.
  method FillPage(section: string, records: seq<JsonText>, base: nat, index: nat) returns (page: seq<JsonText>)
    requires index < |records|
    ensures |page| == Grow(section, records, base, index, 0)
    ensures page == records[index..index + |page|]
  {
    hide Fits, Grow;
    GrowEnds(section, records, base, index);
    page := [];
    while index + |page| < |records| && |page| < PAGE_SIZE
      invariant |page| <= PAGE_SIZE && index + |page| <= |records|
      invariant page == records[index..index + |page|]
      invariant Grow(section, records, base, index, |page|) == Grow(section, records, base, index, 0)
      decreases |records| - |page|
    {
      var candidate := page + [records[index + |page|]];
      assert candidate == records[index..index + |page| + 1];
      GrowStep(section, records, base, index, |page|);
      if !Fits(section, Page(candidate, base + index, Some(base + index + |candidate|), false, false)) {
        return;
      }
      page := candidate;
    }
    assert index + |page| == |records| || |page| == PAGE_SIZE;
  }

  method Emit(section: string, records: seq<JsonText>, base: nat) returns (sent: Emission)
    ensures sent == Emitted(section, records, base)
  {
    hide EmitFrom, Fits, Grow;
    EmitEnds(section, records, base);
    if records == [] {
      var page := EmptyPage(base);
      return if Fits(section, page) then Emission([page], None) else Emission([], Some(MessageTooLarge));
    }
    ghost var whole := EmitFrom(section, records, base, 0);
    var pages, index := [], 0;
    while index < |records|
      invariant 0 <= index <= |records|
      invariant EmitFrom(section, records, base, index).error == whole.error
      invariant pages + EmitFrom(section, records, base, index).pages == whole.pages
    {
      EmitStep(section, records, base, index);
      var page := FillPage(section, records, base, index);
      if page == [] {
        return Emission(pages, Some(ResponseTooLarge));
      }
      var next := base + index + |page|;
      var final := next >= base + |records|;
      var frame := Page(page, base + index, if final then None else Some(next), final, false);
      assert frame == Sent(records, base, index, |page|);
      if !Fits(section, frame) {
        return Emission(pages, Some(MessageTooLarge));
      }
      pages := pages + [frame];
      index := index + |page|;
    }
    return Emission(pages, None);
  }

  // ---------- what a page stream must be ----------

  function Records(pages: seq<Page>): seq<JsonText>
  {
    if pages == [] then [] else pages[0].records + Records(pages[1..])
  }

  // Pages follow one another from `base`; none of them is final.
  ghost predicate Contiguous(pages: seq<Page>, base: nat)
  {
    pages == [] ||
    (pages[0].offset == base && |pages[0].records| <= PAGE_SIZE && pages[0].next == Some(base + |pages[0].records|) &&
     !pages[0].final && !pages[0].truncated && Contiguous(pages[1..], base + |pages[0].records|))
  }

  // A complete stream: contiguous pages and then exactly one final page.
  ghost predicate Complete(pages: seq<Page>, base: nat, truncated: bool)
  {
    pages != [] &&
    var last := pages[|pages| - 1];
    Contiguous(pages[..|pages| - 1], base) && last.offset == base + |Records(pages[..|pages| - 1])| &&
    |last.records| <= PAGE_SIZE && last.next == None && last.final && last.truncated == truncated
  }

  ghost predicate AllFit(section: string, pages: seq<Page>)
  {
    forall page :: page in pages ==> Fits(section, page)
  }

  lemma CompletePrepend(page: Page, pages: seq<Page>, truncated: bool)
    requires Complete(pages, page.offset + |page.records|, truncated)
    requires |page.records| <= PAGE_SIZE && page.next == Some(page.offset + |page.records|)
    requires !page.final && !page.truncated
    ensures Complete([page] + pages, page.offset, truncated)
  {
    var all := [page] + pages;
    assert all[..|all| - 1] == [page] + pages[..|pages| - 1];
    assert all[..|all| - 1][1..] == pages[..|pages| - 1];
  }

  lemma {:induction false} EmitFromFits(section: string, records: seq<JsonText>, base: nat, start: nat)
    requires start <= |records|
    ensures AllFit(section, EmitFrom(section, records, base, start).pages)
    decreases |records| - start
  {
    hide Fits, Grow, Sent;
    if start < |records| {
      var count := Grow(section, records, base, start, 0);
      if count > 0 {
        EmitFromFits(section, records, base, start + count);
      }
    }
  }

  lemma NoRecords()
    ensures Records([]) == []
  {
  }

  lemma NoPages(base: nat)
    ensures Contiguous([], base)
  {
  }

  lemma RecordsPrepend(page: Page, pages: seq<Page>)
    ensures Records([page] + pages) == page.records + Records(pages)
  {
    assert ([page] + pages)[1..] == pages;
  }

  lemma {:induction false} EmitFromCarries(section: string, records: seq<JsonText>, base: nat, start: nat)
    requires start <= |records|
    ensures var sent := EmitFrom(section, records, base, start);
      Records(sent.pages) <= records[start..] && (sent.error == None ==> Records(sent.pages) == records[start..])
    decreases |records| - start
  {
    hide Fits, Grow, Records;
    NoRecords();
    if start < |records| {
      EmitStep(section, records, base, start);
      hide EmitFrom;
      var count := Grow(section, records, base, start, 0);
      var later := EmitFrom(section, records, base, start + count);
      if count > 0 {
        EmitFromCarries(section, records, base, start + count);
        RecordsPrepend(Sent(records, base, start, count), later.pages);
        assert records[start..] == Sent(records, base, start, count).records + records[start + count..];
      }
    }
  }

  lemma ContiguousPrepend(page: Page, pages: seq<Page>)
    requires Contiguous(pages, page.offset + |page.records|)
    requires |page.records| <= PAGE_SIZE && page.next == Some(page.offset + |page.records|)
    requires !page.final && !page.truncated
    ensures Contiguous([page] + pages, page.offset)
  {
    assert ([page] + pages)[1..] == pages;
  }

  lemma CompleteSingle(page: Page)
    requires |page.records| <= PAGE_SIZE && page.next == None && page.final
    ensures Complete([page], page.offset, page.truncated)
  {
    assert [page][..0] == [];
  }

  lemma {:induction false} EmitFromFollows(section: string, records: seq<JsonText>, base: nat, start: nat)
    requires start < |records|
    ensures var sent := EmitFrom(section, records, base, start);
      if sent.error == None then Complete(sent.pages, base + start, false) else Contiguous(sent.pages, base + start)
    decreases |records| - start
  {
    hide Fits, Grow, Complete, Contiguous, EmitFrom;
    NoPages(base + start);
    EmitStep(section, records, base, start);
    EmitEnds(section, records, base);
    var count := Grow(section, records, base, start, 0);
    var page := Sent(records, base, start, count);
    var later := EmitFrom(section, records, base, start + count);
    if count > 0 && Fits(section, page) {
      if start + count == |records| {
        CompleteSingle(page);
        assert [page] + later.pages == [page];
      } else {
        EmitFromFollows(section, records, base, start + count);
        if later.error == None {
          CompletePrepend(page, later.pages, false);
        } else {
          ContiguousPrepend(page, later.pages);
        }
      }
    }
  }

  // Whatever happens, the pages sent carry a prefix of the records in order;
  // without an error they carry all of them and end in the one final page.
  lemma EmitConserves(section: string, records: seq<JsonText>, base: nat)
    ensures var sent := Emitted(section, records, base);
      AllFit(section, sent.pages) && Records(sent.pages) <= records &&
      (sent.error == None ==> Records(sent.pages) == records && Complete(sent.pages, base, false)) &&
      (sent.error != None ==> Contiguous(sent.pages, base))
  {
    hide Fits, EmitFrom;
    assert records[0..] == records;
    if records == [] {
      assert [EmptyPage(base)][..0] == [] && [EmptyPage(base)][1..] == [];
    } else {
      EmitFromFits(section, records, base, 0);
      EmitFromCarries(section, records, base, 0);
      EmitFromFollows(section, records, base, 0);
    }
  }

  // ---------- when _emit succeeds ----------

  ghost predicate FitsAlone(section: string, records: seq<JsonText>, base: nat, j: nat)
    requires j < |records|
  {
    Fits(section, Probe(records, base, j, 1))
  }

  lemma {:induction false} JoinedLengthBounds(records: seq<JsonText>)
    requires records != []
    ensures JoinedLength(records) >= |records[|records| - 1]| + 2 * (|records| - 1)
  {
    if |records| > 1 {
      JoinedLengthBounds(records[..|records| - 1]);
    }
  }

  // A record that does not fit on a page of its own fits on no page.
  lemma AloneIsEasiest(section: string, records: seq<JsonText>, base: nat, start: nat, count: nat)
    requires 0 < count && start + count <= |records|
    requires Fits(section, Probe(records, base, start, count))
    ensures FitsAlone(section, records, base, start + count - 1)
  {
    var j := start + count - 1;
    assert records[j..j + 1] == [records[j]];
    JoinedLengthBounds(records[start..start + count]);
    DigitsGrow(base + start, base + j);
  }

  // Pages are maximal: they stop at PAGE_SIZE, at the end, or before a record
  // whose probe would not fit.
  lemma {:induction false} GrowFits(section: string, records: seq<JsonText>, base: nat, start: nat, count: nat)
    requires start + count <= |records| && count <= PAGE_SIZE
    requires forall k :: 0 < k <= count ==> Fits(section, Probe(records, base, start, k))
    ensures var grown := Grow(section, records, base, start, count);
      (forall k :: 0 < k <= grown ==> Fits(section, Probe(records, base, start, k))) &&
      (start + grown == |records| || grown == PAGE_SIZE || !Fits(section, Probe(records, base, start, grown + 1)))
    decreases PAGE_SIZE - count
  {
    hide Fits, Probe;
    if start + count < |records| && count < PAGE_SIZE && Fits(section, Probe(records, base, start, count + 1)) {
      GrowFits(section, records, base, start, count + 1);
    }
  }

  // Where the last page starts, if every record fits alone.
  function LastStart(section: string, records: seq<JsonText>, base: nat, start: nat): (last: nat)
    requires start < |records|
    ensures start <= last < |records|
    decreases |records| - start
  {
    var count := Grow(section, records, base, start, 0);
    if count == 0 || start + count == |records| then start
    else LastStart(section, records, base, start + count)
  }

  function LastPage(section: string, records: seq<JsonText>, base: nat): Page
    requires records != []
  {
    var start := LastStart(section, records, base, 0);
    Page(records[start..], base + start, None, true, false)
  }

  // The final frame writes null and true where its probe wrote digits and false.
  lemma FinalFrameGrowth(section: string, records: seq<JsonText>, base: nat, start: nat)
    requires start < |records|
    ensures FrameLength(section, Sent(records, base, start, |records| - start)) + Numerals.Digits(base + |records|) ==
      FrameLength(section, Probe(records, base, start, |records| - start)) + 3
  {
    assert records[start..] == records[start..start + (|records| - start)];
  }

  lemma {:induction false} EmitFromSucceeds(section: string, records: seq<JsonText>, base: nat, start: nat)
    requires start < |records|
    ensures EmitFrom(section, records, base, start).error == None <==>
      ((forall j :: start <= j < |records| ==> FitsAlone(section, records, base, j)) &&
       var last := LastStart(section, records, base, start);
       Fits(section, Page(records[last..], base + last, None, true, false)))
    ensures EmitFrom(section, records, base, start).error == Some(ResponseTooLarge) <==>
      !forall j :: start <= j < |records| ==> FitsAlone(section, records, base, j)
    decreases |records| - start
  {
    hide Fits, Probe, Grow, EmitFrom, LastStart;
    var count := Grow(section, records, base, start, 0);
    EmitCases(section, records, base, start);
    GrowFits(section, records, base, start, 0);
    forall j | start <= j < start + count ensures FitsAlone(section, records, base, j) {
      AloneIsEasiest(section, records, base, start, j - start + 1);
    }
    if count == 0 {
      assert !FitsAlone(section, records, base, start);
    } else if start + count < |records| {
      EmitFromSucceeds(section, records, base, start + count);
      assert Fits(section, Sent(records, base, start, count));
    }
  }

  // A page that is not the last could not have taken one more record.
  ghost predicate Full(section: string, records: seq<JsonText>, base: nat, page: Page)
  {
    page.offset >= base && page.offset - base + |page.records| < |records| &&
    (|page.records| == 500 ||
     !Fits(section, Probe(records, base, page.offset - base, |page.records| + 1)))
  }

  // Why emission stopped at record n, if it stopped.
  ghost predicate StopsAt(section: string, records: seq<JsonText>, base: nat, error: Option<EmitError>, n: nat)
  {
    match error
    case None => n == |records|
    case Some(ResponseTooLarge) => n < |records| && !FitsAlone(section, records, base, n)
    case Some(MessageTooLarge) =>
      n < |records| <= n + PAGE_SIZE && !Fits(section, Page(records[n..], base + n, None, true, false))
  }

  lemma {:induction false} EmitFromGreedy(section: string, records: seq<JsonText>, base: nat, start: nat)
    requires start <= |records|
    ensures var sent := EmitFrom(section, records, base, start);
      (forall page :: page in sent.pages ==> page.final || Full(section, records, base, page)) &&
      StopsAt(section, records, base, sent.error, start + |Records(sent.pages)|)
    decreases |records| - start
  {
    hide Fits, Probe, Grow, EmitFrom, Records, Full;
    NoRecords();
    EmitEnds(section, records, base);
    if start < |records| {
      EmitStep(section, records, base, start);
      var count := Grow(section, records, base, start, 0);
      GrowFits(section, records, base, start, 0);
      var page := Sent(records, base, start, count);
      if count == 0 {
        assert !FitsAlone(section, records, base, start);
      } else if Fits(section, page) {
        EmitFromGreedy(section, records, base, start + count);
        RecordsPrepend(page, EmitFrom(section, records, base, start + count).pages);
        if start + count < |records| {
          SentIsFull(section, records, base, start, count);
        }
        SentCount(records, base, start, count);
      } else {
        ProbeFits(section, records, base, start, count);
      }
    }
  }

  lemma SentCount(records: seq<JsonText>, base: nat, start: nat, count: nat)
    requires start + count <= |records|
    ensures |Sent(records, base, start, count).records| == count
    ensures start + count == |records| ==> Sent(records, base, start, count).final
  {
  }

  lemma SentIsFull(section: string, records: seq<JsonText>, base: nat, start: nat, count: nat)
    requires start + count < |records| && count <= PAGE_SIZE
    requires count == PAGE_SIZE || !Fits(section, Probe(records, base, start, count + 1))
    ensures Full(section, records, base, Sent(records, base, start, count))
  {
    hide Fits;
  }

  // Only the final frame can be too long: a page before it is sent as it was probed.
  lemma ProbeFits(section: string, records: seq<JsonText>, base: nat, start: nat, count: nat)
    requires 0 < count <= PAGE_SIZE && start + count <= |records|
    requires Fits(section, Probe(records, base, start, count)) && !Fits(section, Sent(records, base, start, count))
    ensures start + count == |records| &&
      Sent(records, base, start, count) == Page(records[start..], base + start, None, true, false)
  {
    hide Fits;
  }

  // The pages of _emit are greedy, and it stops exactly where it must: at a record that
  // fits no frame of its own, or at a last page whose final frame is too long.
  lemma EmitIsGreedy(section: string, records: seq<JsonText>, base: nat)
    requires records != []
    ensures var sent := Emitted(section, records, base);
      (forall page :: page in sent.pages ==> page.final || Full(section, records, base, page)) &&
      StopsAt(section, records, base, sent.error, |Records(sent.pages)|)
  {
    hide Fits, EmitFrom, Records, Full, StopsAt;
    EmitFromGreedy(section, records, base, 0);
  }

  lemma EmitCases(section: string, records: seq<JsonText>, base: nat, start: nat)
    requires start < |records|
    ensures var count := Grow(section, records, base, start, 0);
      EmitFrom(section, records, base, start).error ==
        (if count == 0 then Some(ResponseTooLarge)
         else if !Fits(section, Sent(records, base, start, count)) then Some(MessageTooLarge)
         else EmitFrom(section, records, base, start + count).error) &&
      LastStart(section, records, base, start) ==
        if count == 0 || start + count == |records| then start else LastStart(section, records, base, start + count)
    ensures EmitFrom(section, records, base, |records|).error == None
  {
    hide Fits, Probe, Grow;
  }

  // _emit succeeds exactly when every record fits a frame of its own and the
  // last greedy page still fits once it is written as the final frame.
  lemma EmitSucceeds(section: string, records: seq<JsonText>, base: nat)
    requires records != []
    ensures Emitted(section, records, base).error == None <==>
      ((forall j :: 0 <= j < |records| ==> FitsAlone(section, records, base, j)) &&
       Fits(section, LastPage(section, records, base)))
  {
    hide Fits, FitsAlone, EmitFrom, LastStart;
    EmitFromSucceeds(section, records, base, 0);
  }

  // From a hundred records on, the final frame is never the problem.
  lemma {:induction false} LongStreamsFinish(section: string, records: seq<JsonText>, base: nat, start: nat)
    requires start < |records| && base + |records| >= 100
    requires forall j :: start <= j < |records| ==> FitsAlone(section, records, base, j)
    ensures EmitFrom(section, records, base, start).error == None
    decreases |records| - start
  {
    hide FrameLength, Grow, EmitFrom, Probe, LastStart;
    var count := Grow(section, records, base, start, 0);
    EmitCases(section, records, base, start);
    GrowFits(section, records, base, start, 0);
    assert FitsAlone(section, records, base, start);
    assert Fits(section, Probe(records, base, start, count));
    if start + count == |records| {
      FinalFrameGrowth(section, records, base, start);
      DigitsGrow(100, base + |records|);
      assert Numerals.Digits(100) == 3;
    } else {
      LongStreamsFinish(section, records, base, start + count);
    }
  }

  // The probe does not promise the frame: one record whose probe exactly fills
  // a frame is refused when it is sent as the final page.
  lemma ProbeIsNotEnough(section: string)
    requires |section| <= 1000
    ensures exists record: JsonText ::
      FitsAlone(section, [record], 0, 0) && Emitted(section, [record], 0) == Emission([], Some(MessageTooLarge))
  {
    var frame := FrameLength(section, Probe(["0"], 0, 0, 1));
    assert ["0"][0..1] == ["0"];
    assert frame < 2000;
    var record: JsonText := seq(StartupParser.MAX_STARTUP_FRAME_BYTES - frame + 1, _ => '0');
    var records := [record];
    assert records[0..1] == records;
    assert FrameLength(section, Probe(records, 0, 0, 1)) == StartupParser.MAX_STARTUP_FRAME_BYTES;
    assert Grow(section, records, 0, 0, 1) == 1;
    FinalFrameGrowth(section, records, 0, 0);
    assert FitsAlone(section, records, 0, 0);
    assert Emitted(section, records, 0) == Emission([], Some(MessageTooLarge));
  }

  // ---------- _emit_root ----------

  function Texts(entries: seq<Entry>, describe: Entry -> JsonText): (texts: seq<JsonText>)
    ensures |texts| == |entries|
    ensures forall k :: 0 <= k < |entries| ==> texts[k] == describe(entries[k])
  {
    seq(|entries|, k requires 0 <= k < |entries| => describe(entries[k]))
  }

  // The page at `offset` of a sorted directory.
  function RootPage(texts: seq<JsonText>, offset: nat): Page
    requires offset <= |texts| && offset < MAX_DIRECTORY_NODES
  {
    if |texts| <= offset + PAGE_SIZE then Page(texts[offset..], offset, None, true, false)
    else if offset + PAGE_SIZE < MAX_DIRECTORY_NODES then
      Page(texts[offset..offset + PAGE_SIZE], offset, Some(offset + PAGE_SIZE), false, false)
    else Page(texts[offset..offset + PAGE_SIZE], offset, None, true, true)
  }

  function RootPages(texts: seq<JsonText>, offset: nat): seq<Page>
    requires offset <= |texts| && offset < MAX_DIRECTORY_NODES
    decreases MAX_DIRECTORY_NODES - offset
  {
    var page := RootPage(texts, offset);
    if page.final then [page] else [page] + RootPages(texts, offset + PAGE_SIZE)
  }

  // The pages sent before the first one that does not fit its frame.
  function Deliver(section: string, pages: seq<Page>): Emission
  {
    if pages == [] then Emission([], None)
    else if !Fits(section, pages[0]) then Emission([], Some(MessageTooLarge))
    else
      var later := Deliver(section, pages[1..]);
      Emission([pages[0]] + later.pages, later.error)
  }

  // The n-th page is the first that does not fit its frame.
  ghost predicate FirstTooLong(section: string, pages: seq<Page>, n: nat)
  {
    n < |pages| && !Fits(section, pages[n]) && forall k :: 0 <= k < n ==> Fits(section, pages[k])
  }

  lemma {:induction false} DeliverAll(section: string, pages: seq<Page>)
    ensures Deliver(section, pages).pages <= pages
    ensures Deliver(section, pages).error == None <==> AllFit(section, pages)
    ensures Deliver(section, pages).error == None ==> Deliver(section, pages).pages == pages
    ensures Deliver(section, pages).error != None ==>
      Deliver(section, pages).error == Some(MessageTooLarge) &&
      FirstTooLong(section, pages, |Deliver(section, pages).pages|)
  {
    hide Fits;
    if pages != [] {
      assert pages == [pages[0]] + pages[1..];
      DeliverAll(section, pages[1..]);
    }
  }

  lemma DeliverStep(section: string, texts: seq<JsonText>, offset: nat)
    requires offset <= |texts| && offset < MAX_DIRECTORY_NODES
    ensures var page := RootPage(texts, offset);
      var sent := Deliver(section, RootPages(texts, offset));
      if !Fits(section, page) then sent == Emission([], Some(MessageTooLarge))
      else if page.final then sent == Emission([page], None)
      else
        var later := Deliver(section, RootPages(texts, offset + PAGE_SIZE));
        sent == Emission([page] + later.pages, later.error)
  {
    hide Fits;
    var page := RootPage(texts, offset);
    if page.final {
      assert RootPages(texts, offset)[1..] == [];
    } else {
      assert RootPages(texts, offset)[1..] == RootPages(texts, offset + PAGE_SIZE);
    }
  }

  // Every page is listed anew; the directory is taken to be the same each time.
  method EmitRoot(section: string, entries: seq<Entry>, describe: Entry -> JsonText) returns (sent: Emission)
    requires DistinctKeys(entries)
    ensures sent == Deliver(section, RootPages(Texts(Sort(entries), describe), 0))
  {
    hide Sort, Fits, RootPages, Deliver;
    ghost var texts := Texts(Sort(entries), describe);
    ghost var whole := Deliver(section, RootPages(texts, 0));
    var pages, offset := [], 0;
    while true
      invariant offset % PAGE_SIZE == 0 && offset <= |texts| && offset < MAX_DIRECTORY_NODES
      invariant Deliver(section, RootPages(texts, offset)).error == whole.error
      invariant pages + Deliver(section, RootPages(texts, offset)).pages == whole.pages
      decreases MAX_DIRECTORY_NODES - offset
    {
      if offset >= MAX_DIRECTORY_NODES {
        assert false;
      }
      var limit := if PAGE_SIZE < MAX_DIRECTORY_NODES - offset then PAGE_SIZE else MAX_DIRECTORY_NODES - offset;
      assert limit == PAGE_SIZE;
      var listing := Children(entries, limit, offset, true);
      var records := Texts(listing.value, describe);
      var truncated := |records| > PAGE_SIZE;
      records := if truncated then records[..PAGE_SIZE] else records;
      var capped := offset + |records| >= MAX_DIRECTORY_NODES && truncated;
      var final := !truncated || capped;
      var page := Page(records, offset, if final then None else Some(offset + |records|), final, capped);
      assert page == RootPage(texts, offset);
      DeliverStep(section, texts, offset);
      if !Fits(section, page) {
        return Emission(pages, Some(MessageTooLarge));
      }
      pages := pages + [page];
      if final {
        return Emission(pages, None);
      }
      offset := offset + |records|;
    }
  }

  lemma {:induction false} RootPagesFrom(texts: seq<JsonText>, offset: nat)
    requires offset <= |texts| && offset < MAX_DIRECTORY_NODES && offset % PAGE_SIZE == 0
    ensures var total := if |texts| <= MAX_DIRECTORY_NODES then |texts| else MAX_DIRECTORY_NODES;
      offset <= total && Records(RootPages(texts, offset)) == texts[offset..total]
    ensures Complete(RootPages(texts, offset), offset, |texts| > MAX_DIRECTORY_NODES)
    ensures forall k :: 0 <= k < |RootPages(texts, offset)| - 1 ==> |RootPages(texts, offset)[k].records| == 500
    decreases MAX_DIRECTORY_NODES - offset
  {
    hide Complete, Records;
    NoRecords();
    assert offset + PAGE_SIZE <= MAX_DIRECTORY_NODES;
    var page := RootPage(texts, offset);
    var total := if |texts| <= MAX_DIRECTORY_NODES then |texts| else MAX_DIRECTORY_NODES;
    if page.final {
      CompleteSingle(page);
      RecordsPrepend(page, []);
      assert [page] + [] == [page];
      assert page.records == texts[offset..total];
    } else {
      var later := RootPages(texts, offset + PAGE_SIZE);
      RootPagesFrom(texts, offset + PAGE_SIZE);
      CompletePrepend(page, later, |texts| > MAX_DIRECTORY_NODES);
      RecordsPrepend(page, later);
      assert texts[offset..total] == page.records + texts[offset + PAGE_SIZE..total];
    }
  }

  // The root stream carries the first min(n, 10000) sorted entries in pages of 500
  // ending in one final page, marked truncated exactly when entries were left
  // out; it is delivered whole exactly when each page fits its frame.
  lemma RootStream(section: string, entries: seq<Entry>, describe: Entry -> JsonText)
    ensures var texts := Texts(Sort(entries), describe);
      var pages := RootPages(texts, 0);
      var total := if |entries| <= 10000 then |entries| else 10000;
      Records(pages) == texts[..total] && Complete(pages, 0, |entries| > MAX_DIRECTORY_NODES) &&
      (forall k :: 0 <= k < |pages| - 1 ==> |pages[k].records| == 500) &&
      (Deliver(section, pages).error == None <==> AllFit(section, pages)) &&
      (Deliver(section, pages).error == None ==> Deliver(section, pages).pages == pages) &&
      (Deliver(section, pages).error != None ==>
         Deliver(section, pages).pages <= pages &&
         FirstTooLong(section, pages, |Deliver(section, pages).pages|))
  {
    hide Sort, FrameLength, Complete, RootPages, Deliver;
    var texts := Texts(Sort(entries), describe);
    RootPagesFrom(texts, 0);
    DeliverAll(section, RootPages(texts, 0));
  }
}
