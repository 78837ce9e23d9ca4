// Which paths are never backed up, said in components, and that the resolver's text
// tests and the scanner's patterns agree on it.
module HardPaths {
  import opened Strings
  import opened Patterns
  import opened Paths
  import Selection
  import SizeScanner

  const KERNEL_TREES: seq<string> := ["proc", "sys", "dev", "run"]
  const ALIAS_NAMES: seq<string> := ["bin", "sbin", "lib", "lib32", "lib64", "libx32"]

  // In a kernel tree, the swap file, or an alias of a usr directory or below it.
  ghost predicate InHardTree(path: Path, symlinks: set<string>)
  {
    path == ["swapfile"] ||
    (path != [] && (path[0] in KERNEL_TREES || (path[0] in ALIAS_NAMES && "/" + path[0] in symlinks)))
  }

  lemma RootText(name: string)
    requires ValidName(name)
    ensures Text([name]) == "/" + name && Paths.Valid([name])
    ensures RStrip("/" + name) == "/" + name
  {
    assert [name][1..] == [] && Flat([]) == "";
    assert "/" + name + "" == "/" + name;
    assert name[|name| - 1] in name && ("/" + name)[|name|] == name[|name| - 1];
    RStripFixed("/" + name);
  }

  // The text test for one tree is the prefix test on components.
  lemma BelowTree(path: Path, name: string)
    requires Paths.Valid(path) && ValidName(name)
    ensures Selection.EqualsOrBelow(Text(path), "/" + name) <==> path != [] && path[0] == name
    ensures Text(path) == "/" + name <==> path == [name]
  {
    hide RStrip, Text;
    RootText(name);
    ContainsIsPrefix([name], path);
    assert [name] <= path <==> path != [] && path[0] == name;
    if Text(path) == "/" + name {
      TextInjective(path, [name]);
    }
  }

  lemma Trees()
    ensures |Selection.SYSTEM_HARD_ROOTS| == |KERNEL_TREES| == |SizeScanner.DEFAULT_SKIP_PREFIXES|
    ensures forall i :: 0 <= i < |KERNEL_TREES| ==>
      ValidName(KERNEL_TREES[i]) && Selection.SYSTEM_HARD_ROOTS[i] == "/" + KERNEL_TREES[i] &&
      SizeScanner.DEFAULT_SKIP_PREFIXES[i] == "/" + KERNEL_TREES[i]
    ensures |Selection.ROOT_COMPAT_SYMLINKS| == |ALIAS_NAMES|
    ensures forall i :: 0 <= i < |ALIAS_NAMES| ==>
      ValidName(ALIAS_NAMES[i]) && Selection.ROOT_COMPAT_SYMLINKS[i] == "/" + ALIAS_NAMES[i]
    ensures ValidName("swapfile") && Selection.SYSTEM_HARD_EXACT == "/" + "swapfile"
  {
  }

  // The helper's test on texts.
  lemma SystemHardExactly(path: Path, symlinks: set<string>)
    requires Paths.Valid(path)
    ensures Selection.IsSystemHard(Text(path), symlinks) <==> InHardTree(path, symlinks)
  {
    hide Text, Selection.EqualsOrBelow;
    Trees();
    forall i | 0 <= i < |KERNEL_TREES|
      ensures Selection.EqualsOrBelow(Text(path), Selection.SYSTEM_HARD_ROOTS[i]) <==>
              path != [] && path[0] == KERNEL_TREES[i]
    {
      BelowTree(path, KERNEL_TREES[i]);
    }
    forall i | 0 <= i < |ALIAS_NAMES|
      ensures Selection.EqualsOrBelow(Text(path), Selection.ROOT_COMPAT_SYMLINKS[i]) <==>
              path != [] && path[0] == ALIAS_NAMES[i]
    {
      BelowTree(path, ALIAS_NAMES[i]);
    }
    BelowTree(path, "swapfile");
  }

  // What the resolver never lets a policy select.
  lemma ResolverHardExactly(resolver: Selection.Resolver, path: Path)
    requires resolver.Valid() && Paths.Valid(path)
    ensures resolver.IsHard(path) <==> resolver.backupRoot <= path || InHardTree(path, resolver.symlinks)
    ensures resolver.HardOrigin(path) == Selection.BackupRoot <==> resolver.backupRoot <= path
  {
    hide Selection.IsSystemHard, Text, ContainsText;
    ContainsIsPrefix(resolver.backupRoot, path);
    SystemHardExactly(path, resolver.symlinks);
  }

  // ---------- the scanner's patterns ----------

  lemma PlainNames()
    ensures forall i :: 0 <= i < |KERNEL_TREES| ==> MetaFree(KERNEL_TREES[i])
    ensures forall i :: 0 <= i < |ALIAS_NAMES| ==> MetaFree(ALIAS_NAMES[i])
    ensures MetaFree("swapfile")
  {
  }

  lemma TreeCompiles(name: string)
    requires ValidName(name) && MetaFree(name)
    ensures Compile("/" + name + "/**") == Prefix(false, "/" + name)
  {
    hide Compile;
    RootText(name);
    assert ("/" + name)[|name|] == name[|name| - 1] && name[|name| - 1] in name;
    assert "" + ("/" + name + "/**") == "/" + name + "/**";
    Selection.CompileSubtree("/" + name, "");
  }

  lemma NameCompiles(name: string)
    requires ValidName(name) && MetaFree(name)
    ensures Compile("/" + name) == Exact(false, "/" + name)
  {
    hide FnMatch;
    Selection.EndsInStar("/" + name);
    assert ("/" + name)[0] == '/';
  }

  lemma {:induction false} HardPatternMembers(symlinks: set<string>, aliases: seq<string>, pattern: string)
    ensures pattern in SizeScanner.HardPatterns(symlinks, aliases) <==>
      pattern in ["/proc/**", "/sys/**", "/dev/**", "/run/**", Selection.SYSTEM_HARD_EXACT] ||
      (pattern in aliases && pattern in symlinks)
  {
    if aliases != [] {
      HardPatternMembers(symlinks, aliases[..|aliases| - 1], pattern);
      assert forall a :: a in aliases <==> a in aliases[..|aliases| - 1] || a == aliases[|aliases| - 1];
    }
  }

  // One pattern of the list, on a path.
  lemma HardPatternMatches(symlinks: set<string>, path: Path, pattern: string)
    requires Paths.Valid(path)
    requires pattern in SizeScanner.HardPatterns(symlinks, Selection.ROOT_COMPAT_SYMLINKS)
    ensures PatternMatches(Text(path), Compile(pattern)) ==>
      path == ["swapfile"] || (path != [] && path[0] in KERNEL_TREES) ||
      (|path| == 1 && path[0] in ALIAS_NAMES && "/" + path[0] in symlinks)
  {
    hide Compile, Text, FnMatch, HasSegment;
    Trees();
    PlainNames();
    HardPatternMembers(symlinks, Selection.ROOT_COMPAT_SYMLINKS, pattern);
    if pattern in ["/proc/**", "/sys/**", "/dev/**", "/run/**"] {
      var name := if pattern == "/proc/**" then "proc" else if pattern == "/sys/**" then "sys"
        else if pattern == "/dev/**" then "dev" else "run";
      assert pattern == "/" + name + "/**" && name in KERNEL_TREES;
      TreeCompiles(name);
      RootText(name);
      BelowTree(path, name);
    } else {
      var name := "swapfile";
      if pattern != Selection.SYSTEM_HARD_EXACT {
        var i :| 0 <= i < |Selection.ROOT_COMPAT_SYMLINKS| && Selection.ROOT_COMPAT_SYMLINKS[i] == pattern;
        name := ALIAS_NAMES[i];
      }
      NameCompiles(name);
      BelowTree(path, name);
    }
  }

  lemma ListedMatches(symlinks: set<string>, path: Path, name: string)
    requires path == [name] && Paths.Valid(path)
    requires name == "swapfile" || (name in ALIAS_NAMES && "/" + name in symlinks)
    ensures AnyMatches(Text(path), SizeScanner.HardPatterns(symlinks, Selection.ROOT_COMPAT_SYMLINKS))
  {
    hide Compile, Text, FnMatch, SizeScanner.HardPatterns;
    Trees();
    PlainNames();
    HardPatternMembers(symlinks, Selection.ROOT_COMPAT_SYMLINKS, "/" + name);
    NameCompiles(name);
    BelowTree(path, name);
    assert PatternMatches(Text(path), Compile("/" + name));
  }

  // What the scanner never counts: the same, except that of an alias it knows the link only.
  lemma ScannerHardExactly(env: SizeScanner.Environment, path: Path)
    requires Paths.Valid(env.backupRoot) && Paths.Valid(path)
    ensures env.Hard(path) <==>
      env.backupRoot <= path ||
      (InHardTree(path, env.symlinks) && (path[0] in ALIAS_NAMES ==> |path| == 1))
  {
    hide Text, Selection.EqualsOrBelow, ContainsText, PatternMatches, Compile, SizeScanner.HardPatterns;
    Trees();
    ContainsIsPrefix(env.backupRoot, path);
    forall i | 0 <= i < |KERNEL_TREES|
      ensures Selection.EqualsOrBelow(Text(path), SizeScanner.DEFAULT_SKIP_PREFIXES[i]) <==>
              path != [] && path[0] == KERNEL_TREES[i]
    {
      BelowTree(path, KERNEL_TREES[i]);
    }
    var patterns := SizeScanner.HardPatterns(env.symlinks, Selection.ROOT_COMPAT_SYMLINKS);
    if AnyMatches(Text(path), patterns) {
      var pattern :| pattern in patterns && PatternMatches(Text(path), Compile(pattern));
      HardPatternMatches(env.symlinks, path, pattern);
    }
    if |path| == 1 && (path[0] == "swapfile" || (path[0] in ALIAS_NAMES && "/" + path[0] in env.symlinks)) {
      ListedMatches(env.symlinks, path, path[0]);
    }
  }

  // The scanner and the resolver agree on every path that a walk without links can reach.
  lemma ScannerAgrees(env: SizeScanner.Environment, resolver: Selection.Resolver, path: Path)
    requires resolver.Valid() && Paths.Valid(path)
    requires env.backupRoot == resolver.backupRoot && env.symlinks == resolver.symlinks
    ensures (env.Hard(path) <==> resolver.IsHard(path)) <==>
      (resolver.backupRoot <= path || |path| <= 1 ||
       !(path[0] in ALIAS_NAMES && "/" + path[0] in env.symlinks))
  {
    hide SizeScanner.Environment.Hard, Selection.Resolver.IsHard, Paths.Valid;
    ResolverHardExactly(resolver, path);
    ScannerHardExactly(env, path);
  }
}
