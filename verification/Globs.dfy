// What each construct of a glob means, one lemma a construct: together they determine
// the matcher that the pattern lists rest on.
module Globs {
  import opened Strings
  import opened Patterns

  lemma Literally(text: string, c: char, rest: string)
    requires c != '*' && c != '?' && c != '['
    ensures FnMatch(text, [c] + rest) <==> text != "" && text[0] == c && FnMatch(text[1..], rest)
  {
    assert ([c] + rest)[1..] == rest;
  }

  lemma QuestionMark(text: string, rest: string)
    ensures FnMatch(text, "?" + rest) <==> text != "" && FnMatch(text[1..], rest)
  {
    assert ("?" + rest)[1..] == rest;
  }

  // A star stands for any beginning of the text, the empty one included.
  lemma Star(text: string, rest: string)
    ensures FnMatch(text, "*" + rest) <==> exists k: nat :: MatchesFrom(text, k, rest)
  {
    if FnMatch(text, "*" + rest) {
      var k := FnMatchAfterStar(text, rest);
      assert MatchesFrom(text, k, rest);
    }
    if k: nat :| MatchesFrom(text, k, rest) {
      FnMatchSkips(text, k, rest);
    }
  }

  ghost predicate MatchesFrom(text: string, k: nat, rest: string)
  {
    k <= |text| && FnMatch(text[k..], rest)
  }

  // Where the closing bracket may first stand: a "]" right after "[" or "[!" is a member.
  function FirstMember(body: string): nat
  {
    if "!" <= body then 1 else 0
  }

  // The text of a bracket expression: it has a member, and "]" can only be its first.
  ghost predicate IsBody(body: string)
  {
    |body| > FirstMember(body) && forall i :: FirstMember(body) < i < |body| ==> body[i] != ']'
  }

  lemma {:induction false} CloseAt(pattern: string, from: nat, end: nat)
    requires from <= end <= |pattern| && forall i :: from <= i < end ==> pattern[i] != ']'
    requires end < |pattern| ==> pattern[end] == ']'
    ensures FindClose(pattern, from) == end
    decreases end - from
  {
    if from < end {
      CloseAt(pattern, from + 1, end);
    }
  }

  lemma Bracket(text: string, body: string, rest: string)
    requires IsBody(body)
    ensures FnMatch(text, "[" + body + "]" + rest) <==> text != "" && InClass(text[0], body) && FnMatch(text[1..], rest)
  {
    hide InClass;
    var pattern := "[" + body + "]" + rest;
    BracketEnd(pattern, body, rest);
    assert pattern[1..|body| + 1] == body && pattern[|body| + 2..] == rest;
  }

  lemma BracketEnd(pattern: string, body: string, rest: string)
    requires IsBody(body) && pattern == "[" + body + "]" + rest
    ensures ClassEnd(pattern) == |body| + 1
  {
    assert forall i :: 0 <= i < |body| ==> pattern[i + 1] == body[i];
    assert pattern[|body| + 1] == ']';
    assert "!" <= body <==> pattern[1] == '!';
    var i := FirstMember(body) + 1;
    var j := if pattern[i] == ']' then i + 1 else i;
    assert forall k :: j <= k < |body| + 1 ==> pattern[k] == body[k - 1];
    CloseAt(pattern, j, |body| + 1);
  }

  // Without a closing bracket "[" is an ordinary character.
  lemma OpenBracket(text: string, rest: string)
    requires forall i :: FirstMember(rest) < i < |rest| ==> rest[i] != ']'
    ensures FnMatch(text, "[" + rest) <==> text != "" && text[0] == '[' && FnMatch(text[1..], rest)
  {
    var pattern := "[" + rest;
    assert pattern[1..] == rest;
    assert forall i :: 0 <= i < |rest| ==> pattern[i + 1] == rest[i];
    assert "!" <= rest <==> |pattern| > 1 && pattern[1] == '!';
    var i := FirstMember(rest) + 1;
    var j := if i < |pattern| && pattern[i] == ']' then i + 1 else i;
    assert forall k :: j <= k < |pattern| ==> pattern[k] == rest[k - 1];
    CloseAt(pattern, j, |pattern|);
  }

  // ---------- members ----------

  lemma Negation(c: char, members: string)
    ensures InClass(c, "!" + members) <==> !InRanges(c, members)
    ensures !("!" <= members) ==> (InClass(c, members) <==> InRanges(c, members))
  {
    assert ("!" + members)[1..] == members;
  }

  // Without a hyphen the members are the characters themselves.
  lemma {:induction false} PlainMembers(c: char, members: string)
    requires '-' !in members
    ensures InRanges(c, members) <==> c in members
  {
    if members != "" {
      assert |members| > 1 ==> members[1] in members;
      PlainMembers(c, members[1..]);
    }
  }

  // A hyphen between two characters makes a range with both ends.
  lemma Range(c: char, low: char, high: char, rest: string)
    ensures InRanges(c, [low, '-', high] + rest) <==> low <= c <= high || InRanges(c, rest)
  {
    assert ([low, '-', high] + rest)[3..] == rest;
  }

  // At the beginning or at the end it is a member.
  lemma HyphenAtEnds(c: char, members: string)
    requires '-' !in members
    ensures InRanges(c, "-" + members) <==> c == '-' || c in members
    ensures InRanges(c, members + "-") <==> c == '-' || c in members
  {
    PlainMembers(c, members);
    assert ("-" + members)[1..] == members;
    assert |members| > 0 ==> members[0] in members;
    HyphenAtEnd(c, members);
  }

  lemma {:induction false} HyphenAtEnd(c: char, members: string)
    requires '-' !in members
    ensures InRanges(c, members + "-") <==> c == '-' || c in members
  {
    var all := members + "-";
    if members == "" {
      assert all[1..] == "";
    } else {
      assert |members| > 1 ==> members[1] in members;
      assert |members| > 1 ==> all[1] == members[1];
      assert all[1..] == members[1..] + "-";
      HyphenAtEnd(c, members[1..]);
    }
  }
}
