// The two exclusion matchers: the plain one of profiles.py and the compiled one
// of fs_scan.py, over a recursive definition of Python's fnmatchcase.
module Patterns {
  import opened Strings

  // ---------- fnmatchcase ----------

  // Whether `c` belongs to the bracket body `set` (without the leading `!`).
  // A hyphen between two characters makes a range; elsewhere it is literal.
  predicate InRanges(c: char, set_: string)
  {
    if set_ == [] then false
    else if |set_| > 2 && set_[1] == '-' then
      set_[0] <= c <= set_[2] || InRanges(c, set_[3..])
    else
      c == set_[0] || InRanges(c, set_[1..])
  }

  predicate InClass(c: char, body: string)
  {
    if body != [] && body[0] == '!' then !InRanges(c, body[1..]) else InRanges(c, body)
  }

  // First `]` at or after `from`, or |pattern| when there is none.
  function FindClose(pattern: string, from: nat): (end: nat)
    requires from <= |pattern|
    ensures from <= end <= |pattern|
    ensures end < |pattern| ==> pattern[end] == ']'
    decreases |pattern| - from
  {
    if from == |pattern| || pattern[from] == ']' then from else FindClose(pattern, from + 1)
  }

  // End of the bracket expression that starts `pattern`: a `]` right after `[`
  // or `[!` belongs to the body.
  function ClassEnd(pattern: string): (end: nat)
    requires pattern != [] && pattern[0] == '['
    ensures 1 <= end <= |pattern|
  {
    var i := if |pattern| > 1 && pattern[1] == '!' then 2 else 1;
    var j := if i < |pattern| && pattern[i] == ']' then i + 1 else i;
    FindClose(pattern, j)
  }

  predicate FnMatch(text: string, pattern: string)
    decreases |text| + |pattern|
  {
    if pattern == [] then text == []
    else if pattern[0] == '*' then
      FnMatch(text, pattern[1..]) || (text != [] && FnMatch(text[1..], pattern))
    else if text == [] then false
    else if pattern[0] == '?' then FnMatch(text[1..], pattern[1..])
    else if pattern[0] == '[' && ClassEnd(pattern) < |pattern| then
      InClass(text[0], pattern[1..ClassEnd(pattern)]) &&
      FnMatch(text[1..], pattern[ClassEnd(pattern) + 1..])
    else
      text[0] == pattern[0] && FnMatch(text[1..], pattern[1..])
  }

  const META := "*?[]{}"

  predicate MetaFree(s: string)
  {
    forall i :: 0 <= i < |s| ==> s[i] !in META
  }

  lemma {:induction false} FnMatchLiteralPrefix(text: string, literal: string, rest: string)
    requires MetaFree(literal)
    ensures FnMatch(text, literal + rest) <==> literal <= text && FnMatch(text[|literal|..], rest)
    decreases |literal|
  {
    if literal == [] {
      assert literal + rest == rest;
      assert text[0..] == text;
    } else {
      var p := literal + rest;
      assert p[0] == literal[0] && p[0] in literal;
      assert p[0] != '*' && p[0] != '?' && p[0] != '[' by {
        assert literal[0] !in META;
        assert META[0] == '*' && META[1] == '?' && META[2] == '[';
      }
      assert p[1..] == literal[1..] + rest;
      if text != [] {
        FnMatchLiteralPrefix(text[1..], literal[1..], rest);
        if literal[1..] <= text[1..] && text[0] == literal[0] {
          assert literal <= text;
        }
        if literal <= text {
          assert text[1..][|literal[1..]|..] == text[|literal|..];
        }
      }
    }
  }

  lemma FnMatchLiteral(text: string, literal: string)
    requires MetaFree(literal)
    ensures FnMatch(text, literal) <==> text == literal
  {
    assert literal + "" == literal;
    FnMatchLiteralPrefix(text, literal, "");
  }

  // Whatever follows a star matches some suffix of the text.
  lemma {:induction false} FnMatchAfterStar(text: string, rest: string) returns (k: nat)
    requires FnMatch(text, "*" + rest)
    ensures k <= |text| && FnMatch(text[k..], rest)
    decreases |text|
  {
    var p := "*" + rest;
    assert p[0] == '*' && p[1..] == rest;
    if FnMatch(text, rest) {
      assert text[0..] == text;
      k := 0;
    } else {
      var m := FnMatchAfterStar(text[1..], rest);
      assert text[1..][m..] == text[m + 1..];
      k := m + 1;
    }
  }

  // A star may skip any number of characters.
  lemma {:induction false} FnMatchSkips(text: string, k: nat, rest: string)
    requires k <= |text| && FnMatch(text[k..], rest)
    ensures FnMatch(text, "*" + rest)
    decreases k
  {
    var p := "*" + rest;
    assert p[0] == '*' && p[1..] == rest;
    if k == 0 {
      assert text[0..] == text;
    } else {
      assert text[1..][k - 1..] == text[k..];
      FnMatchSkips(text[1..], k - 1, rest);
    }
  }

  lemma {:induction false} StarMatchesAll(text: string)
    ensures FnMatch(text, "*")
    decreases |text|
  {
    assert "*"[1..] == "";
    if text != [] {
      StarMatchesAll(text[1..]);
    }
  }

  lemma DoubleStarMatchesAll(text: string)
    ensures FnMatch(text, "**")
  {
    StarMatchesAll(text);
    assert "**"[1..] == "*";
  }

  // A literal followed by "/**" matches exactly what lies below it.
  lemma FnMatchBelow(text: string, literal: string)
    requires MetaFree(literal)
    ensures FnMatch(text, literal + "/**") <==> literal + "/" <= text
  {
    var below := literal + "/";
    assert MetaFree(below);
    assert literal + "/**" == below + "**";
    FnMatchLiteralPrefix(text, below, "**");
    if below <= text {
      DoubleStarMatchesAll(text[|below|..]);
    }
  }

  // "**/n/**" with a literal n matches exactly the texts in which "/n/" occurs.
  lemma FnMatchSegment(text: string, needle: string)
    requires MetaFree(needle)
    ensures FnMatch(text, "**/" + needle + "/**") <==> Infix("/" + needle + "/", text)
  {
    hide FnMatch;
    var slashed := "/" + needle;
    var below := slashed + "/**";
    assert "**/" + needle + "/**" == "*" + ("*" + below);
    assert "/" + needle + "/" == slashed + "/";
    if FnMatch(text, "*" + ("*" + below)) {
      var j := FnMatchAfterStar(text, "*" + below);
      var k := FnMatchAfterStar(text[j..], below);
      var tail := text[j..][k..];
      FnMatchBelow(tail, slashed);
      assert tail == text[j + k..];
      assert OccursAt(slashed + "/", text, j + k);
    }
    if Infix(slashed + "/", text) {
      var i :| 0 <= i <= |text| && OccursAt(slashed + "/", text, i);
      FnMatchBelow(text[i..], slashed);
      FnMatchSkips(text, i, below);
      assert text[0..] == text;
      FnMatchSkips(text, 0, "*" + below);
    }
  }

  // ---------- the plain matcher ----------

  function Body(pattern: string): string
  {
    if "!" <= pattern then pattern[1..] else pattern
  }

  predicate Negative(pattern: string)
  {
    "!" <= pattern
  }

  predicate HasSegment(text: string, needle: string)
  {
    Infix("/" + needle + "/", RStrip(text) + "/") || EndsWith(text, "/" + needle)
  }

  // matches_resticish, for a path text that is already normalised.
  predicate Resticish(text: string, pattern: string)
  {
    var body := Body(pattern);
    FnMatch(text, body) ||
    (EndsWith(body, "/**") &&
     var base := body[..|body| - 3];
     if "**/" <= base then HasSegment(text, base[3..])
     else text == base || RStrip(base) + "/" <= text)
  }

  // ---------- the compiled matcher ----------

  datatype Compiled =
    | Segment(negative: bool, value: string)
    | Prefix(negative: bool, value: string)
    | Exact(negative: bool, value: string)
    | Glob(negative: bool, value: string)

  function Compile(raw: string): (c: Compiled)
    ensures c.negative == Negative(raw)
  {
    var negative := "!" <= raw;
    var pattern := if negative then raw[1..] else raw;
    if EndsWith(pattern, "/**") then
      var stripped := RStrip(pattern[..|pattern| - 3]);
      var base := if stripped == "" then "/" else stripped;
      if "**/" <= base && MetaFree(base[3..]) then Segment(negative, base[3..])
      else if !("**/" <= base) && MetaFree(base) then Prefix(negative, base)
      else if MetaFree(pattern) then Exact(negative, pattern)
      else Glob(negative, pattern)
    else if MetaFree(pattern) then Exact(negative, pattern)
    else Glob(negative, pattern)
  }

  predicate PatternMatches(text: string, c: Compiled)
  {
    match c
    case Prefix(_, value) => text == value || RStrip(value) + "/" <= text
    case Segment(_, value) => HasSegment(text, value)
    case Exact(_, value) => text == value
    case Glob(_, value) => FnMatch(text, value)
  }

  // Text of an absolute path as pathlib prints it: no empty and no "." component.
  predicate Normalized(text: string)
  {
    text == "/" ||
    ("/" <= text && !Infix("//", text + "/") && !Infix("/./", text + "/"))
  }

  // ---------- agreement ----------

  // A "/**" pattern whose base still ends in a slash: the plain matcher keeps the
  // slash, the compiled one strips it.
  predicate TrailingSlashBase(pattern: string)
  {
    var body := Body(pattern);
    EndsWith(body, "/**") && EndsWith(body[..|body| - 3], "/") && RStrip(body[..|body| - 3]) != ""
  }

  // The paths on which such a pattern is read differently.
  predicate Disputed(text: string, pattern: string)
    requires TrailingSlashBase(pattern)
  {
    var base := Body(pattern)[..|Body(pattern)| - 3];
    var stripped := RStrip(base);
    if "**/" <= stripped then MetaFree(stripped[3..]) && HasSegment(text, stripped[3..])
    else if "**/" <= base then base == "**/" && text == "/"
    else MetaFree(stripped) && text == stripped
  }

  lemma RootFacts()
    ensures RStrip("/") == "" && !Infix("//", "/")
  {
    assert "/"[..0] == "";
  }

  lemma NormalizedFacts(text: string)
    requires Normalized(text)
    ensures "/" <= text
    ensures text != "/" ==> !EndsWith(text, "/") && RStrip(text) == text
    ensures text == "/" ==> RStrip(text) == ""
    ensures !Infix("//", text)
  {
    hide Infix;
    if text == "/" {
      RootFacts();
    } else {
      EndSlashDoubles(text);
      RStripFixed(text);
      PrefixIsInfix(text, "/");
      if Infix("//", text) {
        InfixTransitive("//", text, text + "/");
      }
    }
  }

  lemma EndSlashDoubles(text: string)
    ensures text != [] && text[|text| - 1] == '/' ==> Infix("//", text + "/")
    ensures EndsWith(text, "/") ==> text != [] && text[|text| - 1] == '/'
  {
    if text != [] && text[|text| - 1] == '/' {
      assert OccursAt("//", text + "/", |text| - 1);
    }
    if EndsWith(text, "/") {
      assert text[|text| - 1..][0] == '/';
    }
  }

  lemma PrefixIsInfix(text: string, tail: string)
    ensures Infix(text, text + tail)
  {
    assert OccursAt(text, text + tail, 0);
  }

  lemma MetaSpreads(part: string, text: string)
    requires Infix(part, text) && MetaFree(text)
    ensures MetaFree(part)
  {
    var i :| 0 <= i <= |text| && OccursAt(part, text, i);
    forall k | 0 <= k < |part| ensures part[k] !in META {
      assert text[i..i + |part|][k] == text[i + k];
    }
  }

  lemma MetaNeedleMissing(text: string, needle: string)
    requires MetaFree(text) && HasSegment(text, needle)
    ensures MetaFree(needle)
  {
    var slashed := "/" + needle;
    var wrapped := slashed + "/";
    var padded := RStrip(text) + "/";
    if EndsWith(text, slashed) {
      assert OccursAt(slashed, text, |text| - |slashed|);
      MetaSpreads(slashed, text);
    } else {
      assert MetaFree(padded);
      MetaSpreads(wrapped, padded);
      assert OccursAt(slashed, wrapped, 0);
      MetaSpreads(slashed, wrapped);
    }
    assert forall k :: 0 <= k < |needle| ==> needle[k] == slashed[k + 1];
  }

  lemma MetaPrefix(text: string, base: string)
    requires MetaFree(text) && base <= text
    ensures MetaFree(base)
  {
  }

  // Matching "**/n/**" makes "n" a segment of a normalised path.
  lemma FnMatchImpliesSegment(text: string, needle: string)
    requires Normalized(text) && MetaFree(needle) && FnMatch(text, "**/" + needle + "/**")
    ensures HasSegment(text, needle)
  {
    FnMatchSegment(text, needle);
    SegmentOfPadded("/" + needle + "/", text);
  }

  lemma SegmentOfPadded(wrapped: string, text: string)
    requires Normalized(text) && Infix(wrapped, text) && |wrapped| >= 2
    ensures Infix(wrapped, RStrip(text) + "/")
  {
    NormalizedFacts(text);
    assert text != "/";
    assert OccursAt(text, text + "/", 0);
    InfixTransitive(wrapped, text, text + "/");
  }

  // A double slash inside `part` keeps it out of a normalised path.
  lemma DoubleSlashMissing(text: string, part: string, i: int)
    requires Normalized(text) && OccursAt("//", part, i)
    ensures !Infix(part, text) && !Infix(part, RStrip(text) + "/")
  {
    NormalizedFacts(text);
    if Infix(part, text) {
      InfixTransitive("//", part, text);
    }
    if Infix(part, RStrip(text) + "/") {
      InfixTransitive("//", part, RStrip(text) + "/");
      NoDoubleSlash(text);
    }
  }

  lemma NoDoubleSlash(text: string)
    requires Normalized(text)
    ensures !Infix("//", RStrip(text) + "/")
  {
    NormalizedFacts(text);
    if text == "/" {
      assert RStrip(text) + "/" == "/";
    }
  }

  // A segment needle that keeps a trailing slash, or is empty, occurs in no
  // normalised path, except that the root ends with the empty needle's slash.
  lemma SlashNeedle(text: string, needle: string)
    requires Normalized(text) && (needle == "" || needle[|needle| - 1] == '/')
    ensures HasSegment(text, needle) <==> needle == "" && text == "/"
  {
    NormalizedFacts(text);
    var slashed := "/" + needle;
    assert slashed[|needle|] == '/';
    DoubleSlashMissing(text, slashed + "/", |needle|);
    if needle == "" {
      assert EndsWith("/", slashed);
    } else {
      assert EndsWith(text, slashed) ==> EndsWith(text, "/");
      assert EndsWith(text, slashed) ==> |text| > 1;
    }
  }

  lemma SlashNeedleNoMatch(text: string, needle: string)
    requires Normalized(text) && MetaFree(needle) && (needle == "" || needle[|needle| - 1] == '/')
    ensures !FnMatch(text, "**/" + needle + "/**")
  {
    if FnMatch(text, "**/" + needle + "/**") {
      FnMatchSegment(text, needle);
      var wrapped := "/" + needle + "/";
      assert wrapped[|needle|] == '/' && wrapped[|needle| + 1] == '/';
      DoubleSlashMissing(text, wrapped, |needle|);
    }
  }

  // The parts of a "/**" pattern.
  lemma BelowPattern(pattern: string) returns (base: string)
    requires EndsWith(Body(pattern), "/**")
    ensures Body(pattern) == base + "/**" && base == Body(pattern)[..|Body(pattern)| - 3]
    ensures !MetaFree(Body(pattern))
  {
    base := Body(pattern)[..|Body(pattern)| - 3];
    assert Body(pattern) == base + "/**";
    assert Body(pattern)[|base| + 1] == '*';
  }

  lemma AgreePlainSegment(text: string, needle: string)
    requires Normalized(text) && MetaFree(text)
    ensures MetaFree(needle) && FnMatch(text, "**/" + needle + "/**") ==> HasSegment(text, needle)
    ensures !MetaFree(needle) ==> !HasSegment(text, needle)
  {
    if MetaFree(needle) && FnMatch(text, "**/" + needle + "/**") {
      FnMatchImpliesSegment(text, needle);
    }
    if HasSegment(text, needle) {
      MetaNeedleMissing(text, needle);
    }
  }

  lemma AgreePlainPrefix(text: string, base: string)
    requires MetaFree(text)
    ensures MetaFree(base) && FnMatch(text, base + "/**") ==> base + "/" <= text
    ensures !MetaFree(base) ==> text != base && !(base + "/" <= text)
  {
    if MetaFree(base) {
      FnMatchBelow(text, base);
    } else if base <= text {
      MetaPrefix(text, base);
    }
  }

  // "/**" itself, however many slashes its base has, matches every path both ways.
  lemma AgreeRootBase(text: string, pattern: string)
    requires Normalized(text) && EndsWith(Body(pattern), "/**")
    requires RStrip(Body(pattern)[..|Body(pattern)| - 3]) == ""
    ensures PatternMatches(text, Compile(pattern)) && Resticish(text, pattern)
  {
    hide FnMatch, HasSegment, Infix;
    var base := BelowPattern(pattern);
    NormalizedFacts(text);
    RootFacts();
    assert base != "" ==> base[0] == '/';
  }

  // Agreement for "/**" patterns whose base does not end in a slash.
  lemma AgreePlainBase(text: string, pattern: string)
    requires Normalized(text) && MetaFree(text)
    requires EndsWith(Body(pattern), "/**") && !TrailingSlashBase(pattern)
    requires RStrip(Body(pattern)[..|Body(pattern)| - 3]) != ""
    ensures PatternMatches(text, Compile(pattern)) <==> Resticish(text, pattern)
  {
    hide FnMatch;
    hide HasSegment;
    var base := BelowPattern(pattern);
    assert base[|base| - 1] != '/' by { assert !EndsWith(base, "/"); }
    RStripFixed(base);
    if "**/" <= base {
      var needle := base[3..];
      assert Body(pattern) == "**/" + needle + "/**";
      AgreePlainSegment(text, needle);
    } else {
      AgreePlainPrefix(text, base);
    }
  }

  lemma TrailingSegment(text: string, pattern: string, base: string, stripped: string)
    requires Normalized(text) && MetaFree(text) && TrailingSlashBase(pattern)
    requires Body(pattern) == base + "/**" && stripped == RStrip(base)
    requires "**/" <= base && "**/" <= stripped
    ensures Resticish(text, pattern) <==> FnMatch(text, Body(pattern))
    ensures MetaFree(stripped[3..]) ==> !FnMatch(text, Body(pattern))
  {
    var needle := base[3..];
    assert base == Body(pattern)[..|Body(pattern)| - 3];
    assert Body(pattern) == "**/" + needle + "/**";
    assert base[|base| - 1] == '/' by { assert EndsWith(base, "/"); }
    assert stripped[|stripped| - 1] != '/' && |stripped| > 3;
    SlashNeedle(text, needle);
    if MetaFree(stripped[3..]) {
      assert MetaFree(needle) by {
        forall k | 0 <= k < |needle| ensures needle[k] !in META {
          assert k < |stripped| - 3 ==> needle[k] == stripped[3..][k];
          assert k >= |stripped| - 3 ==> needle[k] == base[k + 3] == '/';
        }
      }
      SlashNeedleNoMatch(text, needle);
    }
  }

  lemma TrailingRoot(text: string, pattern: string, base: string, stripped: string)
    requires Normalized(text) && MetaFree(text) && TrailingSlashBase(pattern)
    requires Body(pattern) == base + "/**" && stripped == RStrip(base)
    requires "**/" <= base && !("**/" <= stripped)
    ensures !MetaFree(stripped)
    ensures !FnMatch(text, Body(pattern))
    ensures Resticish(text, pattern) <==> base == "**/" && text == "/"
  {
    var needle := base[3..];
    assert base == Body(pattern)[..|Body(pattern)| - 3];
    assert Body(pattern) == "**/" + needle + "/**";
    assert base[0] == '*' && base[1] == '*';
    assert |stripped| == 2;
    assert stripped[0] == '*';
    assert forall k :: 0 <= k < |needle| ==> needle[k] == base[k + 3] && needle[k] == '/';
    SlashNeedle(text, needle);
    SlashNeedleNoMatch(text, needle);
  }

  lemma TrailingPrefix(text: string, pattern: string, base: string, stripped: string)
    requires Normalized(text) && MetaFree(text) && TrailingSlashBase(pattern)
    requires Body(pattern) == base + "/**" && stripped == RStrip(base) && !("**/" <= base)
    ensures MetaFree(stripped) ==> (Resticish(text, pattern) <==> stripped + "/" <= text)
    ensures !MetaFree(stripped) ==> (Resticish(text, pattern) <==> FnMatch(text, Body(pattern)))
    ensures !("**/" <= stripped)
  {
    hide FnMatch;
    assert base == Body(pattern)[..|Body(pattern)| - 3];
    NormalizedFacts(text);
    assert base[|base| - 1] == '/' by { assert EndsWith(base, "/"); }
    assert |base| > 1;
    assert text != base by { assert text == base ==> EndsWith(text, "/"); }
    if MetaFree(stripped) {
      assert MetaFree(base);
      FnMatchBelow(text, base);
      assert (base + "/")[|base| - 1..|base| + 1] == "//";
      DoubleSlashMissing(text, base + "/", |base| - 1);
      assert base + "/" <= text ==> OccursAt(base + "/", text, 0);
    } else if stripped <= text {
      MetaPrefix(text, stripped);
    }
  }

  lemma AgreeTrailingSlash(text: string, pattern: string)
    requires Normalized(text) && MetaFree(text) && TrailingSlashBase(pattern)
    ensures (PatternMatches(text, Compile(pattern)) <==> Resticish(text, pattern)) <==> !Disputed(text, pattern)
  {
    hide FnMatch, Normalized, Resticish, HasSegment, Compile;
    var base := BelowPattern(pattern);
    var stripped := RStrip(base);
    TrailingCompiles(pattern, base, stripped);
    if "**/" <= base {
      if "**/" <= stripped {
        TrailingSegment(text, pattern, base, stripped);
      } else {
        TrailingRoot(text, pattern, base, stripped);
      }
    } else {
      TrailingPrefix(text, pattern, base, stripped);
      RStripFixed(stripped);
      assert !(stripped + "/" <= stripped);
    }
  }

  // What a trailing-slash pattern compiles to.
  lemma TrailingCompiles(pattern: string, base: string, stripped: string)
    requires TrailingSlashBase(pattern) && Body(pattern) == base + "/**" && stripped == RStrip(base)
    ensures stripped != "" && base == Body(pattern)[..|Body(pattern)| - 3] && EndsWith(Body(pattern), "/**")
    ensures Compile(pattern) ==
      if "**/" <= stripped && MetaFree(stripped[3..]) then Segment(Negative(pattern), stripped[3..])
      else if !("**/" <= stripped) && MetaFree(stripped) then Prefix(Negative(pattern), stripped)
      else Glob(Negative(pattern), Body(pattern))
  {
    hide FnMatch;
    assert base == Body(pattern)[..|Body(pattern)| - 3];
    assert Body(pattern)[|base| + 1] == '*';
  }

  lemma AgreeOther(text: string, pattern: string)
    requires !EndsWith(Body(pattern), "/**")
    ensures PatternMatches(text, Compile(pattern)) <==> Resticish(text, pattern)
  {
    if MetaFree(Body(pattern)) {
      FnMatchLiteral(text, Body(pattern));
    }
  }

  // The compiled matcher reads a normalised, glob-free path exactly as the plain
  // matcher does, except for the disputed paths of a trailing-slash base.
  lemma MatchersAgree(text: string, pattern: string)
    requires Normalized(text) && MetaFree(text)
    ensures (PatternMatches(text, Compile(pattern)) <==> Resticish(text, pattern)) <==>
            !(TrailingSlashBase(pattern) && Disputed(text, pattern))
  {
    if !EndsWith(Body(pattern), "/**") {
      AgreeOther(text, pattern);
    } else if TrailingSlashBase(pattern) {
      AgreeTrailingSlash(text, pattern);
    } else if RStrip(Body(pattern)[..|Body(pattern)| - 3]) == "" {
      AgreeRootBase(text, pattern);
    } else {
      AgreePlainBase(text, pattern);
    }
  }

  ghost predicate AgreeEverywhere(pattern: string)
  {
    forall text :: Normalized(text) && MetaFree(text) ==>
      (PatternMatches(text, Compile(pattern)) <==> Resticish(text, pattern))
  }

  // What a caller can check of the pattern alone: stripping the base's slashes
  // leaves the root marker or something that some path is spelled like.
  predicate Ambiguous(pattern: string)
  {
    TrailingSlashBase(pattern) &&
    var base := Body(pattern)[..|Body(pattern)| - 3];
    var stripped := RStrip(base);
    if "**/" <= stripped then MetaFree(stripped[3..]) && Normalized("/" + stripped[3..])
    else base == "**/" || (!("**/" <= base) && MetaFree(stripped) && Normalized(stripped))
  }

  lemma SegmentIsPath(text: string, needle: string)
    requires Normalized(text) && HasSegment(text, needle) && needle != ""
    requires needle[|needle| - 1] != '/'
    ensures Normalized("/" + needle)
  {
    NormalizedFacts(text);
    var wrapped := "/" + needle + "/";
    var path := "/" + needle;
    assert path + "/" == wrapped;
    if EndsWith(text, path) {
      assert OccursAt(wrapped, text + "/", |text| - |path|);
    }
    assert text != "/";
    assert RStrip(text) + "/" == text + "/";
    if Infix("//", wrapped) { InfixTransitive("//", wrapped, text + "/"); }
    if Infix("/./", wrapped) { InfixTransitive("/./", wrapped, text + "/"); }
  }

  lemma AmbiguousIsDisputed(pattern: string) returns (text: string)
    requires Ambiguous(pattern)
    ensures Normalized(text) && MetaFree(text) && Disputed(text, pattern)
  {
    hide FnMatch;
    var base := Body(pattern)[..|Body(pattern)| - 3];
    var stripped := RStrip(base);
    if "**/" <= stripped {
      text := "/" + stripped[3..];
      assert EndsWith(text, text);
    } else if base == "**/" {
      text := "/";
    } else {
      text := stripped;
    }
  }

  lemma DisputedIsAmbiguous(text: string, pattern: string)
    requires Normalized(text) && MetaFree(text) && TrailingSlashBase(pattern) && Disputed(text, pattern)
    ensures Ambiguous(pattern)
  {
    hide FnMatch;
    var stripped := RStrip(Body(pattern)[..|Body(pattern)| - 3]);
    if "**/" <= stripped {
      assert stripped[|stripped| - 1] != '/';
      assert |stripped| > 3;
      SegmentIsPath(text, stripped[3..]);
    }
  }

  lemma MatchersAgreeEverywhere(pattern: string)
    ensures AgreeEverywhere(pattern) <==> !Ambiguous(pattern)
  {
    hide PatternMatches;
    hide Resticish;
    hide Disputed;
    hide Normalized;
    hide MetaFree;
    if Ambiguous(pattern) {
      var text := AmbiguousIsDisputed(pattern);
      MatchersAgree(text, pattern);
    } else {
      forall text | Normalized(text) && MetaFree(text)
        ensures PatternMatches(text, Compile(pattern)) <==> Resticish(text, pattern)
      {
        MatchersAgree(text, pattern);
        if TrailingSlashBase(pattern) && Disputed(text, pattern) {
          DisputedIsAmbiguous(text, pattern);
        }
      }
    }
  }

  // On a path that may hold glob characters itself, the compiled matcher still never
  // matches where the plain one does not.
  lemma CompiledImpliesPlain(text: string, pattern: string)
    requires Normalized(text) && !Ambiguous(pattern) && PatternMatches(text, Compile(pattern))
    ensures Resticish(text, pattern)
  {
    hide FnMatch, HasSegment, Normalized, Compile, Ambiguous, Resticish, PatternMatches;
    if !EndsWith(Body(pattern), "/**") {
      AgreeOther(text, pattern);
    } else {
      var base := BelowPattern(pattern);
      if TrailingSlashBase(pattern) {
        TrailingImpliesPlain(text, pattern, base);
      } else {
        BelowImpliesPlain(text, pattern, base);
      }
    }
  }

  lemma TrailingImpliesPlain(text: string, pattern: string, base: string)
    requires Normalized(text) && TrailingSlashBase(pattern) && !Ambiguous(pattern)
    requires Body(pattern) == base + "/**" && PatternMatches(text, Compile(pattern))
    ensures Resticish(text, pattern)
  {
    hide FnMatch, HasSegment, Normalized, Compile, Ambiguous;
    var stripped := RStrip(base);
    TrailingCompiles(pattern, base, stripped);
    UnambiguousMisses(text, pattern, base, stripped);
  }

  lemma BelowImpliesPlain(text: string, pattern: string, base: string)
    requires Normalized(text) && !TrailingSlashBase(pattern)
    requires Body(pattern) == base + "/**" && EndsWith(Body(pattern), "/**") && PatternMatches(text, Compile(pattern))
    ensures Resticish(text, pattern)
  {
    hide FnMatch, HasSegment, Normalized, Compile, TrailingSlashBase;
    PlainCompiles(pattern, base);
    RootFacts();
    assert base == Body(pattern)[..|Body(pattern)| - 3];
  }

  // A "/**" pattern whose base does not end in a slash.
  lemma PlainCompiles(pattern: string, base: string)
    requires !TrailingSlashBase(pattern) && Body(pattern) == base + "/**" && EndsWith(Body(pattern), "/**")
    ensures RStrip(base) == "" ==> Compile(pattern) == Prefix(Negative(pattern), "/") && !("**/" <= base)
    ensures RStrip(base) != "" ==> RStrip(base) == base
    ensures RStrip(base) != "" ==>
      (Compile(pattern) ==
       if "**/" <= base && MetaFree(base[3..]) then Segment(Negative(pattern), base[3..])
       else if !("**/" <= base) && MetaFree(base) then Prefix(Negative(pattern), base)
       else Glob(Negative(pattern), Body(pattern)))
  {
    hide FnMatch;
    assert base == Body(pattern)[..|Body(pattern)| - 3];
    assert Body(pattern)[|base| + 1] == '*';
    assert RStrip(base) == "" && base != "" ==> base[0] == '/';
    if RStrip(base) != "" {
      assert base[|base| - 1] == '/' ==> EndsWith(base, "/");
      RStripFixed(base);
    }
  }

  // An unambiguous trailing-slash pattern that compiles to a segment or a prefix
  // spells no path, so it matches none.
  lemma UnambiguousMisses(text: string, pattern: string, base: string, stripped: string)
    requires Normalized(text) && TrailingSlashBase(pattern) && !Ambiguous(pattern)
    requires Body(pattern) == base + "/**" && stripped == RStrip(base) && stripped != ""
    ensures "**/" <= stripped && MetaFree(stripped[3..]) ==> !HasSegment(text, stripped[3..])
    ensures !("**/" <= stripped) && MetaFree(stripped) ==> text != stripped && !(RStrip(stripped) + "/" <= text)
  {
    hide FnMatch, HasSegment, Infix;
    assert base == Body(pattern)[..|Body(pattern)| - 3];
    RStripFixed(stripped);
    if "**/" <= stripped && MetaFree(stripped[3..]) {
      if HasSegment(text, stripped[3..]) {
        assert |stripped| > 3;
        SegmentIsPath(text, stripped[3..]);
      }
    } else if !("**/" <= stripped) && MetaFree(stripped) {
      StrippedBase(base, stripped);
      if stripped + "/" <= text {
        StartIsPath(text, stripped);
      }
    }
  }

  lemma StrippedBase(base: string, stripped: string)
    requires stripped == RStrip(base) && stripped != "" && MetaFree(stripped)
    ensures !("**/" <= base)
  {
    assert META[0] == '*';
    assert stripped[0] == base[0];
    assert stripped[0] !in META;
  }

  // A literal start of a normalised path, up to a slash, is a normalised path.
  lemma StartIsPath(text: string, start: string)
    requires Normalized(text) && start != "" && start + "/" <= text
    ensures Normalized(start)
  {
    NormalizedFacts(text);
    var after := text[|start| + 1..];
    assert text + "/" == (start + "/") + (after + "/");
    PrefixIsInfix(start + "/", after + "/");
    hide Infix;
    assert start[0] == text[0];
    assert |text| > 1;
    if Infix("//", start + "/") { InfixTransitive("//", start + "/", text + "/"); }
    if Infix("/./", start + "/") { InfixTransitive("/./", start + "/", text + "/"); }
  }

  // ---------- last match wins ----------

  // Whether an ordered pattern list excludes a path: the last pattern that
  // matches decides, and a leading "!" re-includes.
  predicate ExcludedBy(text: string, patterns: seq<string>)
  {
    if patterns == [] then false
    else
      var last := patterns[|patterns| - 1];
      if PatternMatches(text, Compile(last)) then !Negative(last)
      else ExcludedBy(text, patterns[..|patterns| - 1])
  }

  predicate AnyMatches(text: string, patterns: seq<string>)
  {
    exists p :: p in patterns && PatternMatches(text, Compile(p))
  }

  // Appending a block: if nothing in it matches, it changes nothing; if it only
  // holds re-inclusions and one matches, the path is not excluded.
  lemma {:induction false} ExcludedByAppend(text: string, before: seq<string>, block: seq<string>)
    ensures !AnyMatches(text, block) ==> ExcludedBy(text, before + block) == ExcludedBy(text, before)
    ensures (forall p :: p in block ==> Negative(p)) && AnyMatches(text, block) ==>
              !ExcludedBy(text, before + block)
    ensures (forall p :: p in block ==> !Negative(p)) && AnyMatches(text, block) ==>
              ExcludedBy(text, before + block)
  {
    hide PatternMatches, Compile;
    if block == [] {
      assert before + block == before;
    } else {
      var init, last := block[..|block| - 1], block[|block| - 1];
      ExcludedByAppend(text, before, init);
      assert (before + block)[..|before + block| - 1] == before + init;
      assert forall p :: p in block <==> p in init || p == last;
    }
  }
}
