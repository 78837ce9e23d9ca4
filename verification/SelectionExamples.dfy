// Concrete inputs on which the selection theorems fail without their conditions.
module SelectionExamples {
  import opened Strings
  import opened Patterns
  import opened Paths
  import opened Selection

  lemma XIsNotHard(text: string, symlinks: set<string>)
    requires |text| >= 2 && text[1] == 'x'
    ensures !IsSystemHard(text, symlinks)
  {
    assert forall i :: 0 <= i < |SYSTEM_HARD_ROOTS| ==> |SYSTEM_HARD_ROOTS[i]| >= 2 && SYSTEM_HARD_ROOTS[i][1] != 'x';
    assert forall i :: 0 <= i < |ROOT_COMPAT_SYMLINKS| ==>
        |ROOT_COMPAT_SYMLINKS[i]| >= 2 && ROOT_COMPAT_SYMLINKS[i][1] != 'x';
  }

  lemma SmallTexts()
    ensures Text(["x"]) == "/x" && Text(["x", "y"]) == "/x/y" && Text(["*"]) == "/*"
    ensures Paths.Valid(["x", "y"]) && Paths.Valid(["b"]) && Paths.Valid(["*"])
  {
    assert forall name: string :: [name][1..] == [];
    assert ["x", "y"][1..] == ["y"];
    assert Flat([]) == "";
    assert Flat(["y"]) == "/y";
  }

  // Including "/" and excluding the directory literally named "*" makes the
  // generated list exclude "/x/y", which the resolver selects.
  lemma GlobExclusionLeaks(resolver: Resolver, path: Path)
    requires resolver == Resolver(["b"], [Row([], IncludeRecursive), Row(["*"], Exclude)], [], {})
    requires path == ["x", "y"]
    ensures Plain(resolver, path) && resolver.Selected(path)
    ensures ExcludedBy(Text(path), resolver.ScanPatterns())
  {
    hide Resolver.ScanPatterns;
    hide ExcludedBy;
    hide PatternMatches;
    LeakSelected(resolver, path);
    LeakMatches(path);
    assert resolver.rows[1] in resolver.rows;
    ExcludedExactly(resolver, path);
  }

  lemma LeakSelected(resolver: Resolver, path: Path)
    requires resolver == Resolver(["b"], [Row([], IncludeRecursive), Row(["*"], Exclude)], [], {})
    requires path == ["x", "y"]
    ensures Plain(resolver, path) && resolver.Selected(path)
  {
    hide IsSystemHard;
    hide FnMatch;
    SmallTexts();
    XIsNotHard(Text(path), {});
    ContainsIsPrefix(["b"], path);
    var rows := resolver.rows;
    assert rows[..1] == [Row([], IncludeRecursive)] && rows[..1][..0] == [];
    assert path[..1] == ["x"] && path[..1][..0] == [];
    assert Lookup(rows, path) == Default && Lookup(rows, ["x"]) == Default;
    assert Lookup(rows, []) == IncludeRecursive;
    assert resolver.Reason(path, resolver.OverrideRoot(path)).None?;
  }

  lemma LeakPattern()
    ensures SubtreePattern(["*"]) == "/*/**" && Compile("/*/**") == Glob(false, "/*/**")
  {
    hide FnMatch;
    SmallTexts();
    RStripFixed("/*");
    var pattern := "/*/**";
    assert pattern[..2] == "/*";
    assert META[0] == '*' && '*' in META;
    assert !MetaFree("/*") by { assert "/*"[1] == '*'; }
    assert !MetaFree(pattern) by { assert pattern[1] == '*'; }
    assert pattern[0] == '/';
  }

  lemma LeakMatches(path: Path)
    requires path == ["x", "y"]
    ensures PatternMatches(Text(path), Compile(SubtreePattern(["*"])))
  {
    hide FnMatch, Compile, SubtreePattern, Text;
    SmallTexts();
    LeakPattern();
    StarComponent("x/y", "x", "/y");
    assert "/" + "x/y" == "/x/y";
  }

  lemma StarComponent(text: string, name: string, rest: string)
    requires text == name + rest && "/" <= rest
    ensures FnMatch("/" + text, "/*/**")
  {
    hide FnMatch;
    assert "" + "/**" == "/**" && "" + "/" == "/";
    FnMatchBelow(rest, "");
    assert text[|name|..] == rest;
    FnMatchSkips(text, |name|, "/**");
    SlashThen(text, "*" + "/**");
    assert "/" + ("*" + "/**") == "/*/**";
  }

  lemma SlashThen(text: string, pattern: string)
    requires FnMatch(text, pattern)
    ensures FnMatch("/" + text, "/" + pattern)
  {
    hide FnMatch;
    FnMatchLiteralPrefix("/" + text, "/", pattern);
    assert ("/" + text)[1..] == text;
  }

  lemma BracketTexts(text: string)
    requires text == "/x[1].tmp"
    ensures Text(["x[1].tmp"]) == text && Paths.Valid(["x[1].tmp"]) && Paths.Valid(["b"])
    ensures FnMatch(text, "*.tmp") && !Ambiguous("*.tmp")
  {
    hide FnMatch;
    assert ["x[1].tmp"][1..] == [];
    assert "*.tmp"[2] == 't';
    assert text[5..] == ".tmp";
    TmpMatches(".tmp");
    FnMatchSkips(text, 5, ".tmp");
    assert "*" + ".tmp" == "*.tmp";
  }

  lemma TmpMatches(rest: string)
    requires rest == ".tmp"
    ensures FnMatch(rest, rest)
  {
    hide FnMatch;
    FnMatchLiteral(rest, rest);
  }

  // A name with brackets is no pattern for itself.
  lemma BracketsMissThemselves(text: string)
    requires text == "/x[1].tmp"
    ensures !FnMatch(text, text)
  {
    hide FnMatch, ClassEnd, InClass;
    var rest := "[1].tmp";
    assert "/x" + rest == text && text[2..] == rest;
    assert MetaFree("/x");
    FnMatchLiteralPrefix(text, "/x", rest);
    BracketMissesItself(rest);
  }

  lemma BracketMissesItself(rest: string)
    requires rest == "[1].tmp"
    ensures !FnMatch(rest, rest)
  {
    hide FnMatch;
    assert FindClose(rest, 2) == 2;
    assert ClassEnd(rest) == FindClose(rest, 1) == 2;
    assert rest[1..2] == "1" && "1"[1..] == "";
    assert !InClass('[', "1");
    ClassStep(rest, rest);
  }

  lemma ClassStep(text: string, pattern: string)
    requires text != "" && pattern != "" && pattern[0] == '[' && ClassEnd(pattern) < |pattern|
    ensures FnMatch(text, pattern) ==> InClass(text[0], pattern[1..ClassEnd(pattern)])
  {
    hide ClassEnd, InClass;
  }

  lemma CompiledTexts(text: string)
    requires text == "/x[1].tmp"
    ensures Compile("*.tmp") == Glob(false, "*.tmp") && Compile("!" + text) == Glob(true, text)
  {
    hide FnMatch;
    var glob, negated := "*.tmp", "!" + text;
    assert glob[0] == '*' && glob[2..] == "tmp" && glob[2] == 't';
    assert negated[1..] == text && text[6..] == "tmp" && text[6] == 't' && text[2] == '[';
    assert META[0] == '*' && META[2] == '[';
    assert !MetaFree(glob) && !MetaFree(text);
  }

  // Ticking a file whose name holds brackets under the shipped rule "*.tmp": the
  // override of the inclusion does not match the file it is for, so the generated
  // list excludes it, although nothing is excluded by hand.
  lemma BracketInclusionLeaks(resolver: Resolver, path: Path)
    requires resolver == Resolver(["b"], [Row(["x[1].tmp"], Include)], [Rule("*.tmp", "Temporary files")], {})
    requires path == ["x[1].tmp"]
    ensures Plain(resolver, path) && resolver.Selected(path)
    ensures ExcludedBy(Text(path), resolver.ScanPatterns()) && !ManuallyMatched(resolver, path)
  {
    hide FnMatch, IsSystemHard, Resolver.ScanPatterns, ExcludedBy, Compile, Resticish, Ambiguous, LeftOut;
    BracketTexts("/x[1].tmp");
    XIsNotHard(Text(path), {});
    ContainsIsPrefix(["b"], path);
    var rows := resolver.rows;
    assert Lookup(rows, path) == Include by { assert rows[0] == Row(path, Include); }
    assert rows[..0] == [] && path[..0] == [];
    assert Lookup(rows, []) == Default;
    ExcludedExactly(resolver, path);
    BracketLeftOut(resolver, path);
  }

  lemma BracketLeftOut(resolver: Resolver, path: Path)
    requires resolver == Resolver(["b"], [Row(["x[1].tmp"], Include)], [Rule("*.tmp", "Temporary files")], {})
    requires path == ["x[1].tmp"]
    ensures LeftOut(resolver, 0, 1, Text(path))
  {
    hide FnMatch, Compile, Resticish, Resolver.IsHard, Resolver.Selected;
    BracketTexts("/x[1].tmp");
    BracketsMissThemselves("/x[1].tmp");
    CompiledTexts("/x[1].tmp");
  }

  // A bare inclusion selects the directory and none of its descendants, so it is not
  // settled and the closed-directory test says nothing about them.
  lemma BareIncludeIsNotUniform(resolver: Resolver)
    requires resolver == Resolver(["b"], [Row(["x"], Include)], [], {})
    ensures !Mismatch(resolver, ["x"], resolver.Selected(["x"]))
    ensures !Settled(resolver, ["x"])
    ensures Ordinary(resolver, ["x", "y"]) && resolver.Selected(["x"]) && !resolver.Selected(["x", "y"])
  {
    hide IsSystemHard;
    hide FnMatch;
    SmallTexts();
    XIsNotHard(Text(["x"]), {});
    XIsNotHard(Text(["x", "y"]), {});
    ContainsIsPrefix(["b"], ["x"]);
    ContainsIsPrefix(["b"], ["x", "y"]);
    assert resolver.rows[..0] == [];
    assert ["x"][..0] == [];
    assert Lookup(resolver.rows, []) == Default;
    SettledExactly(resolver, ["x"]);
    UnseparatedAgrees(resolver, ["x"], ["x", "y"]);
  }
}
