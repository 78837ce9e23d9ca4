// The JSON text of a result frame: it has the length that paging counts with, so every
// page that is sent fits its frame.
module PageText {
  import opened Strings
  import opened Paging
  import Numerals
  import SessionCodec
  import SessionTransport

  function JoinedText(records: seq<JsonText>): string
  {
    if records == [] then ""
    else if |records| == 1 then records[0]
    else JoinedText(records[..|records| - 1]) + "," + records[|records| - 1]
  }

  function FlagText(flag: bool): string
  {
    if flag then "true" else "false"
  }

  // The object of a result frame without spaces, its fields in the order in which they are written.
  function FrameText(id: SessionTransport.Id, section: string, page: Page): string
  {
    "{\"type\":\"result\",\"request_id\":\"" + SessionCodec.UuidText(id) +
    "\",\"section\":\"" + section + "\",\"records\":[" + JoinedText(page.records) +
    "],\"offset\":" + Numerals.Decimal(page.offset) +
    ",\"next_offset\":" + (if page.next.None? then "null" else Numerals.Decimal(page.next.value)) +
    ",\"final\":" + FlagText(page.final) + ",\"truncated\":" + FlagText(page.truncated) + "}"
  }

  lemma {:induction false} JoinedTextLength(records: seq<JsonText>)
    ensures |JoinedText(records)| == JoinedLength(records)
  {
    if |records| > 1 {
      JoinedTextLength(records[..|records| - 1]);
    }
  }

  lemma FrameTextLength(id: SessionTransport.Id, section: string, page: Page)
    ensures |FrameText(id, section, page)| == FrameLength(section, page)
  {
    hide Numerals.Decimal, Numerals.Digits, JoinedText, JoinedLength, SessionCodec.UuidText;
    JoinedTextLength(page.records);
    Numerals.DecimalLength(page.offset);
    if page.next.Some? {
      Numerals.DecimalLength(page.next.value);
    }
  }

  // Every frame that is sent fits.
  lemma SentFramesFit(id: SessionTransport.Id, section: string, records: seq<JsonText>, base: nat)
    ensures forall k :: 0 <= k < |Emitted(section, records, base).pages| ==>
      0 < |FrameText(id, section, Emitted(section, records, base).pages[k])| <= 65536
  {
    hide FrameText, FrameLength, Emitted;
    EmitConserves(section, records, base);
    var pages := Emitted(section, records, base).pages;
    forall k | 0 <= k < |pages| ensures 0 < |FrameText(id, section, pages[k])| <= 65536 {
      FrameTextLength(id, section, pages[k]);
      FrameNotEmpty(section, pages[k]);
      assert Fits(section, pages[k]);
    }
  }

  lemma FrameNotEmpty(section: string, page: Page)
    ensures FrameLength(section, page) > 0
  {
  }
}
