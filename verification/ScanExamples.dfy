// A real profile under which cached sizes are stale: the shipped rule "*.tmp"
// excludes a directory and not what lies below it.
module ScanExamples {
  import opened Strings
  import opened Patterns
  import opened Paths
  import opened SizeScanner
  import opened ScanCache
  import ScanTheorems
  import Selection

  const TMP_ENV := Environment(["b"], ["*.tmp"], {})
  const INNER := Directory(false, true, [Child("f", File(5))])
  const OUTER := Directory(false, true, [Child("d", INNER)])
  const TREE := Directory(false, true, [Child("x.tmp", OUTER)])

  // "*.tmp" matches exactly the texts that end in ".tmp".
  lemma EndsInTmp(text: string)
    ensures FnMatch(text, "*.tmp") <==> EndsWith(text, ".tmp")
  {
    hide FnMatch;
    var rest := ".tmp";
    assert "*" + rest == "*.tmp";
    if FnMatch(text, "*" + rest) {
      var k := FnMatchAfterStar(text, rest);
      FnMatchLiteral(text[k..], rest);
    }
    if EndsWith(text, rest) {
      FnMatchLiteral(text[|text| - 4..], rest);
      FnMatchSkips(text, |text| - 4, rest);
    }
  }

  lemma TmpPattern()
    ensures Compile("*.tmp") == Glob(false, "*.tmp") && !Negative("*.tmp")
  {
    hide FnMatch;
    var glob := "*.tmp";
    assert glob[0] == '*' && glob[2] == 't' && META[0] == '*';
    assert !MetaFree(glob);
  }

  lemma TmpExcludes(path: Path)
    ensures TMP_ENV.Excluded(path) <==> EndsWith(Text(path), ".tmp")
  {
    hide FnMatch, Compile, Text;
    EndsInTmp(Text(path));
    TmpPattern();
    NothingExcludes(Text(path));
    assert TMP_ENV.excludes[..0] == [];
  }

  lemma NothingExcludes(text: string)
    ensures !ExcludedBy(text, [])
  {
  }

  lemma {:induction false} NoAliases(aliases: seq<string>)
    ensures HardPatterns({}, aliases) == ["/proc/**", "/sys/**", "/dev/**", "/run/**", Selection.SYSTEM_HARD_EXACT]
  {
    if aliases != [] {
      NoAliases(aliases[..|aliases| - 1]);
    }
  }

  lemma HardCompiles(base: string)
    requires base in ["/proc", "/sys", "/dev", "/run"]
    ensures Compile(base + "/**") == Prefix(false, base)
  {
    hide Compile;
    assert "" + (base + "/**") == base + "/**";
    Selection.CompileSubtree(base, "");
  }

  lemma SwapCompiles()
    ensures Compile(Selection.SYSTEM_HARD_EXACT) == Exact(false, "/swapfile")
  {
    hide FnMatch;
    var text := Selection.SYSTEM_HARD_EXACT;
    assert text[0] == '/' && text[|text| - 3..][2] == 'e';
  }

  lemma PrefixMisses(text: string, base: string)
    requires (|text| < 2 || text[1] == 'x') && |base| > 1 && base[1] != 'x' && base[|base| - 1] != '/'
    ensures !PatternMatches(text, Prefix(false, base))
  {
    RStripFixed(base);
    assert (base + "/")[1] == base[1];
  }

  // Nothing whose second character is 'x' lies in a hard tree.
  lemma XMatchesNothingHard(text: string, pattern: string)
    requires |text| < 2 || text[1] == 'x'
    requires pattern in HardPatterns({}, Selection.ROOT_COMPAT_SYMLINKS)
    ensures !PatternMatches(text, Compile(pattern))
  {
    hide Compile, HardPatterns, PatternMatches;
    NoAliases(Selection.ROOT_COMPAT_SYMLINKS);
    if pattern == Selection.SYSTEM_HARD_EXACT {
      SwapCompiles();
      ExactMisses(text, "/swapfile");
    } else {
      var base: string :| base in ["/proc", "/sys", "/dev", "/run"] && pattern == base + "/**";
      HardCompiles(base);
      PrefixMisses(text, base);
    }
  }

  lemma ExactMisses(text: string, value: string)
    requires (|text| < 2 || text[1] == 'x') && |value| > 1 && value[1] != 'x'
    ensures !PatternMatches(text, Exact(false, value))
  {
  }

  lemma XIsNotHard(path: Path)
    requires Valid(path) && (path == [] || (path[0] != "" && path[0][0] == 'x'))
    ensures !TMP_ENV.Hard(path)
  {
    hide Compile, HardPatterns, PatternMatches, ContainsText, Text;
    var text := Text(path);
    assert Valid(["b"]);
    ContainsIsPrefix(["b"], path);
    XText(path);
    SkipMisses(text);
    forall pattern | pattern in HardPatterns({}, Selection.ROOT_COMPAT_SYMLINKS)
      ensures !PatternMatches(text, Compile(pattern))
    {
      XMatchesNothingHard(text, pattern);
    }
  }

  lemma XText(path: Path)
    requires path == [] || (path[0] != "" && path[0][0] == 'x')
    ensures |Text(path)| < 2 || Text(path)[1] == 'x'
  {
  }

  lemma SkipMisses(text: string)
    requires |text| < 2 || text[1] == 'x'
    ensures forall k :: 0 <= k < |DEFAULT_SKIP_PREFIXES| ==>
      !Selection.EqualsOrBelow(text, DEFAULT_SKIP_PREFIXES[k])
  {
    forall k | 0 <= k < |DEFAULT_SKIP_PREFIXES|
      ensures !Selection.EqualsOrBelow(text, DEFAULT_SKIP_PREFIXES[k])
    {
      var root := DEFAULT_SKIP_PREFIXES[k];
      assert |root| > 1 && root[1] != 'x';
      assert (root + "/")[1] == root[1];
    }
  }

  lemma FlatStep(name: string, rest: Path)
    ensures Flat([name] + rest) == "/" + name + Flat(rest)
  {
    assert ([name] + rest)[1..] == rest;
  }

  lemma EndsInName(path: Path, name: string)
    requires name != ""
    ensures var text := Text(path + [name]); text[|text| - 1] == name[|name| - 1]
  {
    hide Flat;
    FlatConcat(path, [name]);
    FlatStep(name, []);
    assert [name] + [] == [name];
    NoNames();
  }

  lemma NoNames()
    ensures Flat([]) == ""
  {
  }

  lemma SmallTexts()
    ensures Valid(["x.tmp", "d", "f"]) && Valid(["x.tmp", "d"]) && Valid(["x.tmp"])
    ensures EndsWith(Text(["x.tmp"]), ".tmp") && !EndsWith(Text(["x.tmp", "d"]), ".tmp")
    ensures !EndsWith(Text(["x.tmp", "d", "f"]), ".tmp") && !EndsWith(Text([]), ".tmp")
  {
    hide Flat;
    NoNames();
    FlatStep("x.tmp", []);
    assert Text(["x.tmp"])[2..] == ".tmp" by { assert ["x.tmp"] + [] == ["x.tmp"]; }
    assert ["x.tmp"] + ["d"] == ["x.tmp", "d"] && ["x.tmp", "d"] + ["f"] == ["x.tmp", "d", "f"];
    EndsInName(["x.tmp"], "d");
    EndsInName(["x.tmp", "d"], "f");
    NotTmp(Text(["x.tmp", "d"]));
    NotTmp(Text(["x.tmp", "d", "f"]));
  }

  lemma NotTmp(text: string)
    requires text != "" && text[|text| - 1] != 'p'
    ensures !EndsWith(text, ".tmp")
  {
    assert |text| >= 4 ==> text[|text| - 1] == text[|text| - 4..][3];
  }

  lemma TreeIsWellNamed()
    ensures WellNamed(TREE)
  {
    assert WellNamed(File(5)) && WellNamed(INNER);
    assert WellNamed(OUTER);
  }

  lemma ReachOnly(env: Environment, path: Path, name: string, node: Node, enabled: bool, rel: Path)
    requires rel != [] && rel[0] == name && node.Directory?
    requires !env.Hard(path + [name])
    ensures var dir := Directory(false, true, [Child(name, node)]);
      Reach(env, path, dir, enabled, rel) ==
      Reach(env, path + [name], node, ChildEnabled(env, path, false, Child(name, node), enabled), rel[1..])
  {
    hide Environment.Hard, ChildEnabled;
  }

  lemma ReachSelf(env: Environment, path: Path, node: Node, enabled: bool)
    ensures Reach(env, path, node, enabled, []) == Some(Reached(node, enabled))
  {
  }

  lemma TreeIsReached(enabled: bool)
    ensures Reach(TMP_ENV, [], TREE, enabled, ["x.tmp", "d"]).Some?
    ensures Reach(TMP_ENV, [], TREE, enabled, ["x.tmp", "d"]).value.node == INNER
  {
    hide Reach, Environment.Hard, Environment.Excluded, ChildEnabled;
    SmallTexts();
    XIsNotHard(["x.tmp"]);
    XIsNotHard(["x.tmp", "d"]);
    assert [] + ["x.tmp"] == ["x.tmp"] && ["x.tmp"] + ["d"] == ["x.tmp", "d"];
    assert ["x.tmp", "d"][1..] == ["d"] && ["d"][1..] == [];
    ReachOnly(TMP_ENV, [], "x.tmp", OUTER, enabled, ["x.tmp", "d"]);
    var inner := ChildEnabled(TMP_ENV, [], false, Child("x.tmp", OUTER), enabled);
    ReachOnly(TMP_ENV, ["x.tmp"], "d", INNER, inner, ["d"]);
    ReachSelf(TMP_ENV, ["x.tmp", "d"], INNER, ChildEnabled(TMP_ENV, ["x.tmp"], false, Child("d", INNER), inner));
  }

  lemma InnerCounts()
    ensures HasEffective(TMP_ENV, ["x.tmp", "d"], ScanTheorems.Leaves(INNER))
  {
    hide Environment.Hard, Environment.Excluded;
    var leaf := ScanTheorems.Leaf(["f"], [false], 5);
    SmallTexts();
    XIsNotHard(["x.tmp", "d", "f"]);
    TmpExcludes(["x.tmp", "d", "f"]);
    assert ["x.tmp", "d"] + ["f"][..1] == ["x.tmp", "d", "f"];
    InnerLeaf(leaf);
    forall k: nat ensures ScanTheorems.TagAllows(leaf, k) {
    }
  }

  lemma InnerLeaf(leaf: ScanTheorems.Leaf)
    requires leaf == ScanTheorems.Leaf(["f"], [false], 5)
    ensures leaf in ScanTheorems.Leaves(INNER)
  {
    var bare := ScanTheorems.Leaf([], [], 5);
    assert ScanTheorems.Leaves(File(5)) == [bare];
    assert ["f"] + [] == ["f"] && [false] + [] == [false];
    assert ScanTheorems.ChildLeaves(false, INNER.children[0])[0] == leaf;
    assert ScanTheorems.KidLeaves(INNER, 0) == [];
    assert ScanTheorems.KidLeaves(INNER, 1)[0] == leaf;
  }

  // After a forced scan of "/", the directory "/x.tmp/d" is answered from the cache,
  // and not as a scan of it would answer.
  lemma TmpDirectoryIsStale(table: map<Path, Row>)
    ensures var after, below := Upsert(table, ScanRows(TMP_ENV, table, [], TREE, true)), ["x.tmp", "d"];
      ScanAnswer(TMP_ENV, after, below, INNER, false) != ScanAnswer(TMP_ENV, after, below, INNER, true)
  {
    hide *;
    var rel := ["x.tmp", "d"];
    TreeFacts();
    assert [] + rel == rel;
    CacheCoherence(TMP_ENV, table, [], TREE, rel);
  }

  lemma TreeFacts()
    ensures WellNamed(TREE) && !TREE.Gone? && !TMP_ENV.Hard([]) && !TMP_ENV.Excluded([])
    ensures !TMP_ENV.Excluded(["x.tmp", "d"]) && !ScanTheorems.NoneExcluded(TMP_ENV, [], ["x.tmp", "d"])
    ensures Reach(TMP_ENV, [], TREE, true, ["x.tmp", "d"]).Some?
    ensures Reach(TMP_ENV, [], TREE, true, ["x.tmp", "d"]).value.node == INNER
    ensures HasEffective(TMP_ENV, ["x.tmp", "d"], ScanTheorems.Leaves(INNER))
  {
    hide Environment.Hard, Environment.Excluded, Reach, WellNamed, HasEffective;
    SmallTexts();
    TreeIsWellNamed();
    TreeIsReached(true);
    InnerCounts();
    XIsNotHard([]);
    TmpExcludes([]);
    TmpExcludes(["x.tmp"]);
    TmpExcludes(["x.tmp", "d"]);
    assert [] + ["x.tmp", "d"][..1] == ["x.tmp"];
  }
}
