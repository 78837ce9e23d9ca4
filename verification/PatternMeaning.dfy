// What the literal patterns of a list mean for component paths.
module PatternMeaning {
  import opened Strings
  import opened Patterns
  import opened Paths
  import Selection

  // The components stand somewhere in the path, one after the other.
  ghost predicate Within(part: Path, path: Path)
  {
    exists m: nat :: StandsAt(part, path, m)
  }

  ghost predicate StandsAt(part: Path, path: Path, m: nat)
  {
    m <= |path| && part <= path[m..]
  }

  // A slash in the text of a path is where a component begins, or the added last one.
  lemma {:induction false} SlashStartsComponent(path: Path, i: nat) returns (m: nat)
    requires Valid(path) && i < |Flat(path) + "/"| && (Flat(path) + "/")[i] == '/'
    ensures m <= |path| && i == |Flat(path[..m])| && (Flat(path) + "/")[i..] == Flat(path[m..]) + "/"
  {
    var text := Flat(path) + "/";
    if i == 0 {
      m := 0;
      assert path[..0] == [] && path[0..] == path && text[0..] == text;
    } else {
      assert path != [];
      var name, below := path[0], path[1..];
      var rest := Flat(below) + "/";
      assert text == "/" + name + rest;
      var j := SlashAfterName(name, rest, i);
      var n := SlashStartsComponent(below, j);
      m := n + 1;
      assert path[m..] == below[n..];
      FlatFrom(path, m);
    }
  }

  // A slash behind the first component lies in the rest of the text.
  lemma SlashAfterName(name: string, rest: string, i: nat) returns (j: nat)
    requires ValidName(name) && 0 < i < 1 + |name| + |rest| && ("/" + name + rest)[i] == '/'
    ensures i == 1 + |name| + j && j < |rest| && rest[j] == '/' && ("/" + name + rest)[i..] == rest[j..]
  {
    var text := "/" + name + rest;
    assert forall k :: 1 <= k <= |name| ==> text[k] == name[k - 1] && name[k - 1] in name;
    j := i - 1 - |name|;
  }

  lemma FlatFrom(path: Path, m: nat)
    requires 0 < m <= |path|
    ensures Flat(path[..m]) == "/" + path[0] + Flat(path[1..][..m - 1])
  {
    assert path[..m][0] == path[0] && path[..m][1..] == path[1..][..m - 1];
  }

  lemma FlatStarts(part: Path, path: Path)
    requires Valid(part) && Valid(path)
    ensures Flat(part) + "/" <= Flat(path) + "/" <==> part <= path
  {
    var x := "x";
    var longer := path + [x];
    FlatConcat(path, [x]);
    assert Flat([x]) == "/" + x by { assert [x][1..] == [] && Flat([]) == ""; }
    assert Flat(path) + "/" <= Flat(longer);
    FlatBelow(part, longer);
    if part <= path {
      assert part < longer;
      FlatBelow(part, path + [x]);
      FlatConcat(part, path[|part|..]);
      assert part + path[|part|..] == path;
      StartsWithSlash(part, path);
    }
    if Flat(part) + "/" <= Flat(path) + "/" {
      assert part < longer;
      assert part == longer[..|part|] == path[..|part|];
    }
  }

  lemma StartsWithSlash(part: Path, path: Path)
    requires part <= path && Flat(path) == Flat(part) + Flat(path[|part|..])
    ensures Flat(part) + "/" <= Flat(path) + "/"
  {
    var rest := Flat(path[|part|..]);
    assert rest == "" || "/" <= rest;
    assert Flat(path) + "/" == Flat(part) + (rest + "/");
    assert "/" <= rest + "/";
  }

  // "/needle/" occurs in a path exactly if its components do.
  lemma OccursExactly(part: Path, path: Path)
    requires Valid(part) && Valid(path)
    ensures Infix(Flat(part) + "/", Flat(path) + "/") <==> Within(part, path)
  {
    hide Flat;
    var needle, text := Flat(part) + "/", Flat(path) + "/";
    if Infix(needle, text) {
      var i :| 0 <= i <= |text| && OccursAt(needle, text, i);
      assert needle[0] == '/' by { FirstIsSlash(part); }
      assert text[i] == text[i..i + |needle|][0];
      var m := SlashStartsComponent(path, i);
      assert text[i..i + |needle|] == text[i..][..|needle|];
      assert needle <= Flat(path[m..]) + "/";
      ValidFrom(path, m);
      FlatStarts(part, path[m..]);
      assert StandsAt(part, path, m);
    }
    if m: nat :| StandsAt(part, path, m) {
      ValidFrom(path, m);
      FlatStarts(part, path[m..]);
      FlatConcat(path[..m], path[m..]);
      assert path[..m] + path[m..] == path;
      var i := |Flat(path[..m])|;
      assert text == Flat(path[..m]) + (Flat(path[m..]) + "/");
      assert OccursAt(needle, text, i);
    }
  }

  lemma FirstIsSlash(part: Path)
    ensures (Flat(part) + "/")[0] == '/'
  {
  }

  lemma ValidFrom(path: Path, m: nat)
    requires Valid(path) && m <= |path|
    ensures Valid(path[m..])
  {
  }

  // A "**/a/b/**" pattern without glob characters in a/b matches a path exactly if the
  // components a, b stand in it one after the other.
  lemma SegmentExactly(part: Path, path: Path)
    requires Valid(part) && part != [] && PathMetaFree(part) && Valid(path)
    ensures HasSegment(Text(path), Flat(part)[1..]) <==> Within(part, path)
    ensures PatternMatches(Text(path), Compile("**" + Flat(part) + "/**")) <==> Within(part, path)
  {
    hide FnMatch, Within, Infix;
    var needle := Flat(part)[1..];
    assert "/" + needle == Flat(part);
    TextStripped(path);
    OccursExactly(part, path);
    if EndsWith(Text(path), Flat(part)) {
      AtTheEnd(part, path);
    }
    assert "/" + needle + "/" == Flat(part) + "/";
    FlatMetaFree(part);
    FlatEnd(part);
    SegmentCompiles(needle, Flat(part));
  }

  lemma AtTheEnd(part: Path, path: Path)
    requires Valid(part) && part != [] && Valid(path) && EndsWith(Text(path), Flat(part))
    ensures Infix(Flat(part) + "/", Flat(path) + "/")
  {
    hide Flat;
    var needle, text := Flat(part), Flat(path);
    TextStripped(path);
    LongText(part);
    assert path == [] ==> Text(path) == "/";
    var i := |text| - |needle|;
    assert (text + "/")[i..i + |needle| + 1] == text[i..] + "/";
    assert OccursAt(needle + "/", text + "/", i);
  }

  lemma LongText(part: Path)
    requires Valid(part) && part != []
    ensures |Flat(part)| > 1
  {
    assert ValidName(part[0]);
  }

  lemma SegmentCompiles(needle: string, flat: string)
    requires flat == "/" + needle && MetaFree(flat) && needle != "" && needle[|needle| - 1] != '/'
    ensures Compile("**" + flat + "/**") == Segment(false, needle)
  {
    hide FnMatch;
    var pattern := "**" + flat + "/**";
    var base := "**" + flat;
    assert pattern[0] == '*' && pattern[..|pattern| - 3] == base && pattern[|pattern| - 3..] == "/**";
    assert base[|base| - 1] == needle[|needle| - 1];
    RStripFixed(base);
    assert base[3..] == needle && "**/" <= base;
    assert forall i :: 0 <= i < |needle| ==> needle[i] == flat[i + 1];
  }

  // A literal absolute pattern names one path; a relative one names none.
  lemma LiteralExactly(pattern: string, path: Path)
    requires Valid(path) && MetaFree(pattern) && !("!" <= pattern)
    ensures PatternMatches(Text(path), Compile(pattern)) <==> Text(path) == pattern
    ensures !("/" <= pattern) ==> !PatternMatches(Text(path), Compile(pattern))
  {
    hide FnMatch, Text;
    Selection.EndsInStar(pattern);
  }
}
