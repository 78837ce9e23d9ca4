// Selection policy: the resolver of selection.py, the pattern list that carries
// its decisions to the size scanner, and the closed-directory checkbox test.
module Selection {
  import opened Strings
  import opened Patterns
  import opened Paths

  datatype Policy = Default | Include | IncludeRecursive | Exclude

  datatype Rule = Rule(pattern: string, reason: string)

  // One row of the path_policies table; the path is its primary key.
  datatype Row = Row(path: Path, policy: Policy)

  datatype Origin = NoOrigin | BackupRoot | System | Manual | Preconfigured

  datatype Decision = Decision(selected: bool, recursive: bool, origin: Origin)

  const SYSTEM_HARD_ROOTS: seq<string> := ["/proc", "/sys", "/dev", "/run"]
  const SYSTEM_HARD_EXACT := "/swapfile"
  const ROOT_COMPAT_SYMLINKS: seq<string> := ["/bin", "/sbin", "/lib", "/lib32", "/lib64", "/libx32"]

  predicate EqualsOrBelow(text: string, root: string)
  {
    text == root || root + "/" <= text
  }

  // `symlinks` holds the compatibility aliases that really are symlinks.
  predicate IsSystemHard(text: string, symlinks: set<string>)
  {
    (exists i :: 0 <= i < |SYSTEM_HARD_ROOTS| && EqualsOrBelow(text, SYSTEM_HARD_ROOTS[i])) ||
    text == SYSTEM_HARD_EXACT ||
    (exists i :: 0 <= i < |ROOT_COMPAT_SYMLINKS| && EqualsOrBelow(text, ROOT_COMPAT_SYMLINKS[i]) &&
                 ROOT_COMPAT_SYMLINKS[i] in symlinks)
  }

  function Lookup(rows: seq<Row>, path: Path): Policy
  {
    if rows == [] then Default
    else if rows[|rows| - 1].path == path then rows[|rows| - 1].policy
    else Lookup(rows[..|rows| - 1], path)
  }

  lemma {:induction false} LookupIsRow(rows: seq<Row>, path: Path)
    ensures Lookup(rows, path) != Default ==> Row(path, Lookup(rows, path)) in rows
    ensures (forall i, j :: 0 <= i < j < |rows| ==> rows[i].path != rows[j].path) ==>
              forall row :: row in rows && row.path == path ==> Lookup(rows, path) == row.policy
  {
    if rows != [] {
      LookupIsRow(rows[..|rows| - 1], path);
    }
  }

  // The deepest ancestor-or-self that carries `policy`.
  function Nearest(rows: seq<Row>, path: Path, policy: Policy): (found: Option<Path>)
    ensures found.Some? ==> found.value <= path && Lookup(rows, found.value) == policy
    ensures found.Some? ==>
              forall k :: |found.value| < k <= |path| ==> Lookup(rows, path[..k]) != policy
    ensures found.None? ==> forall k :: 0 <= k <= |path| ==> Lookup(rows, path[..k]) != policy
  {
    assert path[..|path|] == path;
    if Lookup(rows, path) == policy then Some(path)
    else if path == [] then None
    else
      var parent := path[..|path| - 1];
      assert forall k :: 0 <= k < |path| ==> path[..k] == parent[..k];
      Nearest(rows, parent, policy)
  }

  lemma NearestInherits(rows: seq<Row>, q: Path, p: Path, policy: Policy)
    requires q <= p && Nearest(rows, q, policy).Some?
    ensures Nearest(rows, p, policy).Some?
  {
    var found := Nearest(rows, q, policy).value;
    assert found == p[..|found|];
  }

  // First enabled rule that matches the path and is not overridden: its reason.
  function FirstReason(rules: seq<Rule>, path: Path, overrideRoot: Option<Path>): (reason: Option<string>)
    ensures reason.None? <==>
            forall rule :: rule in rules && Resticish(Text(path), rule.pattern) ==>
              overrideRoot.Some? && Resticish(Text(overrideRoot.value), rule.pattern)
  {
    hide Resticish;
    if rules == [] then None
    else
      var rule := rules[0];
      assert forall r :: r in rules <==> r == rule || r in rules[1..];
      if !Resticish(Text(path), rule.pattern) then FirstReason(rules[1..], path, overrideRoot)
      else if overrideRoot.Some? && Resticish(Text(overrideRoot.value), rule.pattern) then
        FirstReason(rules[1..], path, overrideRoot)
      else
        assert rule in rules;
        Some(rule.reason)
  }

  // A rule that matches the path and is not cancelled by the override root.
  ghost predicate Stands(rule: Rule, path: Path, overrideRoot: Option<Path>)
  {
    Resticish(Text(path), rule.pattern) &&
    !(overrideRoot.Some? && Resticish(Text(overrideRoot.value), rule.pattern))
  }

  ghost predicate FirstStanding(rules: seq<Rule>, path: Path, overrideRoot: Option<Path>, i: int)
  {
    0 <= i < |rules| && Stands(rules[i], path, overrideRoot) &&
    forall j :: 0 <= j < i ==> !Stands(rules[j], path, overrideRoot)
  }

  // The reason given is that of the first rule that stands.
  lemma {:induction false} ReasonIsFirst(rules: seq<Rule>, path: Path, overrideRoot: Option<Path>, reason: string)
    ensures FirstReason(rules, path, overrideRoot) == Some(reason) <==>
      exists i :: FirstStanding(rules, path, overrideRoot, i) && rules[i].reason == reason
  {
    hide Resticish, Text;
    if rules != [] {
      if Stands(rules[0], path, overrideRoot) {
        assert FirstStanding(rules, path, overrideRoot, 0);
      } else {
        ReasonIsFirst(rules[1..], path, overrideRoot, reason);
        if i :| FirstStanding(rules[1..], path, overrideRoot, i) && rules[1..][i].reason == reason {
          assert forall j :: 0 < j < i + 1 ==> rules[j] == rules[1..][j - 1];
          assert FirstStanding(rules, path, overrideRoot, i + 1);
        }
        if i :| FirstStanding(rules, path, overrideRoot, i) && rules[i].reason == reason {
          assert forall j :: 0 <= j < i - 1 ==> rules[1..][j] == rules[j + 1];
          assert FirstStanding(rules[1..], path, overrideRoot, i - 1);
        }
      }
    }
  }

  datatype Resolver = Resolver(backupRoot: Path, rows: seq<Row>, rules: seq<Rule>, symlinks: set<string>) {

    ghost predicate Valid()
    {
      Paths.Valid(backupRoot) &&
      (forall row :: row in rows ==> Paths.Valid(row.path)) &&
      forall i, j :: 0 <= i < j < |rows| ==> rows[i].path != rows[j].path
    }

    function HardOrigin(path: Path): Origin
    {
      if ContainsText(Text(backupRoot), Text(path)) then BackupRoot
      else if IsSystemHard(Text(path), symlinks) then System
      else NoOrigin
    }

    predicate IsHard(path: Path)
    {
      HardOrigin(path) != NoOrigin
    }

    function Reason(path: Path, overrideRoot: Option<Path>): Option<string>
    {
      FirstReason(rules, path, overrideRoot)
    }

    // The nearest recursive inclusion, when a rule with a reason matches it.
    function OverrideRoot(path: Path): Option<Path>
    {
      var from := Nearest(rows, path, IncludeRecursive);
      if from.Some? && Reason(from.value, None).Some? && Reason(from.value, None).value != "" then from
      else None
    }

    function Resolve(path: Path): Decision
    {
      var explicit := Lookup(rows, path);
      if IsHard(path) then Decision(false, false, HardOrigin(path))
      else if Nearest(rows, path, Exclude).Some? then Decision(false, false, Manual)
      else
        var exact := explicit == Include || explicit == IncludeRecursive;
        var from := Nearest(rows, path, IncludeRecursive);
        if !exact && Reason(path, OverrideRoot(path)).Some? then Decision(false, false, Preconfigured)
        else
          Decision(exact || from.Some?,
                   explicit == IncludeRecursive || (from.Some? && from.value != path),
                   NoOrigin)
    }

    predicate Selected(path: Path)
    {
      Resolve(path).selected
    }

    // ---------- the generated pattern list ----------

    // Policy rows with `policy` that survive the hard and manual exclusions.
    function SelectedRows(upTo: nat, policy: Policy): seq<Path>
      requires upTo <= |rows|
    {
      if upTo == 0 then []
      else
        var row := rows[upTo - 1];
        SelectedRows(upTo - 1, policy) +
        (if row.policy == policy && !IsHard(row.path) && Selected(row.path) then [row.path] else [])
    }

    lemma {:induction false} SelectedRowsMembers(upTo: nat, policy: Policy, path: Path)
      requires upTo <= |rows|
      ensures path in SelectedRows(upTo, policy) <==>
              Row(path, policy) in rows[..upTo] && !IsHard(path) && Selected(path)
    {
      hide Selected;
      hide IsHard;
      if upTo > 0 {
        SelectedRowsMembers(upTo - 1, policy, path);
        assert rows[..upTo] == rows[..upTo - 1] + [rows[upTo - 1]];
      }
    }

    function EffectiveRules(): seq<Rule>
    {
      RuleOverrides(rules, Dedup(SelectedRows(|rows|, IncludeRecursive)), Dedup(SelectedRows(|rows|, Include)))
    }

    function ScanPatterns(): seq<string>
    {
      PatternsOf(EffectiveRules()) + ManualPatterns(rows)
    }
  }

  // dict.fromkeys: first occurrences, in order.
  function Dedup(paths: seq<Path>): seq<Path>
  {
    if paths == [] then []
    else
      var rest, last := Dedup(paths[..|paths| - 1]), paths[|paths| - 1];
      if last in rest then rest else rest + [last]
  }

  lemma {:induction false} DedupMembers(paths: seq<Path>)
    ensures forall p :: p in Dedup(paths) <==> p in paths
    ensures forall i, j :: 0 <= i < j < |Dedup(paths)| ==> Dedup(paths)[i] != Dedup(paths)[j]
  {
    if paths != [] {
      var init, last := paths[..|paths| - 1], paths[|paths| - 1];
      DedupMembers(init);
      assert forall p :: p in paths <==> p in init || p == last;
    }
  }

  // The first occurrences, in the order of the list.
  lemma {:induction false} DedupOrder(paths: seq<Path>, i: nat, j: nat) returns (m: nat)
    requires i < j < |Dedup(paths)|
    ensures m < |paths| && paths[m] == Dedup(paths)[i] && Dedup(paths)[j] !in paths[..m + 1]
  {
    var init, last := paths[..|paths| - 1], paths[|paths| - 1];
    DedupMembers(init);
    if j < |Dedup(init)| {
      m := DedupOrder(init, i, j);
      assert init[..m + 1] == paths[..m + 1];
    } else {
      assert Dedup(init)[i] in Dedup(init);
      m :| 0 <= m < |init| && init[m] == Dedup(init)[i];
      assert last !in init;
      assert forall p :: p in paths[..m + 1] ==> p in init;
    }
  }

  function PatternsOf(rules: seq<Rule>): (patterns: seq<string>)
    ensures |patterns| == |rules|
    ensures forall i :: 0 <= i < |rules| ==> patterns[i] == rules[i].pattern
  {
    if rules == [] then [] else PatternsOf(rules[..|rules| - 1]) + [rules[|rules| - 1].pattern]
  }

  function SubtreePattern(path: Path): string
  {
    RStrip(Text(path)) + "/**"
  }

  function RecursiveOverride(root: Path, rule: Rule): Rule
  {
    Rule("!" + SubtreePattern(root), "Explicit recursive inclusion overrides " + rule.pattern)
  }

  function ExactOverride(path: Path, rule: Rule): Rule
  {
    Rule("!" + Text(path), "Explicit inclusion overrides " + rule.pattern)
  }

  function RecursiveGroup(rule: Rule, roots: seq<Path>): seq<Rule>
  {
    if roots == [] then []
    else
      var init, last := roots[..|roots| - 1], roots[|roots| - 1];
      RecursiveGroup(rule, init) +
      (if Resticish(Text(last), rule.pattern) then [RecursiveOverride(last, rule)] else [])
  }

  function ExactGroup(rule: Rule, paths: seq<Path>): seq<Rule>
  {
    if paths == [] then []
    else
      var init, last := paths[..|paths| - 1], paths[|paths| - 1];
      ExactGroup(rule, init) +
      (if Resticish(Text(last), rule.pattern) then [ExactOverride(last, rule)] else [])
  }

  // A rule followed at once by the overrides that cancel it.
  function RuleGroup(rule: Rule, recursive: seq<Path>, exact: seq<Path>): seq<Rule>
  {
    [rule] + RecursiveGroup(rule, recursive) + ExactGroup(rule, exact)
  }

  function RuleOverrides(rules: seq<Rule>, recursive: seq<Path>, exact: seq<Path>): seq<Rule>
  {
    if rules == [] then []
    else
      RuleOverrides(rules[..|rules| - 1], recursive, exact) +
      RuleGroup(rules[|rules| - 1], recursive, exact)
  }

  function ManualPatterns(rows: seq<Row>): seq<string>
  {
    if rows == [] then []
    else
      var init, last := rows[..|rows| - 1], rows[|rows| - 1];
      ManualPatterns(init) + (if last.policy == Exclude then [SubtreePattern(last.path)] else [])
  }

  // ---------- the loops that build the list ----------

  lemma GroupSteps(rule: Rule, paths: seq<Path>, path: Path)
    ensures RecursiveGroup(rule, paths + [path]) ==
            RecursiveGroup(rule, paths) +
            (if Resticish(Text(path), rule.pattern) then [RecursiveOverride(path, rule)] else [])
    ensures ExactGroup(rule, paths + [path]) ==
            ExactGroup(rule, paths) +
            (if Resticish(Text(path), rule.pattern) then [ExactOverride(path, rule)] else [])
  {
    hide Resticish;
    hide RecursiveOverride;
    hide ExactOverride;
    assert (paths + [path])[..|paths|] == paths;
  }

  lemma OverridesStep(rules: seq<Rule>, rule: Rule, recursive: seq<Path>, exact: seq<Path>)
    ensures RuleOverrides(rules + [rule], recursive, exact) ==
            RuleOverrides(rules, recursive, exact) + RuleGroup(rule, recursive, exact)
  {
    hide RuleGroup;
    assert (rules + [rule])[..|rules|] == rules;
  }

  method ApplyRuleOverrides(rules: seq<Rule>, recursiveRoots: seq<Path>, exactPaths: seq<Path>)
    returns (output: seq<Rule>)
    ensures output == RuleOverrides(rules, Dedup(recursiveRoots), Dedup(exactPaths))
  {
    hide Resticish;
    hide RecursiveGroup;
    hide ExactGroup;
    hide RuleOverrides;
    hide RecursiveOverride;
    hide ExactOverride;
    hide Dedup;
    hide Text;
    var recursive := Dedup(recursiveRoots);
    var exact := Dedup(exactPaths);
    output := [];
    assert RuleOverrides([], recursive, exact) == [] by { EmptyOverrides(recursive, exact); }
    for i := 0 to |rules|
      invariant output == RuleOverrides(rules[..i], recursive, exact)
    {
      var rule := rules[i];
      ghost var before := output;
      output := output + [rule];
      ghost var head := output;
      EmptyGroups(rule);
      for j := 0 to |recursive|
        invariant output == head + RecursiveGroup(rule, recursive[..j])
      {
        GroupSteps(rule, recursive[..j], recursive[j]);
        assert recursive[..j + 1] == recursive[..j] + [recursive[j]];
        if Resticish(Text(recursive[j]), rule.pattern) {
          output := output + [RecursiveOverride(recursive[j], rule)];
        }
      }
      assert recursive[..|recursive|] == recursive;
      ghost var middle := output;
      for j := 0 to |exact|
        invariant output == middle + ExactGroup(rule, exact[..j])
      {
        GroupSteps(rule, exact[..j], exact[j]);
        assert exact[..j + 1] == exact[..j] + [exact[j]];
        if Resticish(Text(exact[j]), rule.pattern) {
          output := output + [ExactOverride(exact[j], rule)];
        }
      }
      assert exact[..|exact|] == exact;
      OverridesStep(rules[..i], rule, recursive, exact);
      assert rules[..i + 1] == rules[..i] + [rule];
      assert output == before + RuleGroup(rule, recursive, exact);
    }
    assert rules[..|rules|] == rules;
  }

  lemma EmptyGroups(rule: Rule)
    ensures RecursiveGroup(rule, []) == [] && ExactGroup(rule, []) == []
  {
  }

  lemma EmptyOverrides(recursive: seq<Path>, exact: seq<Path>)
    ensures RuleOverrides([], recursive, exact) == []
  {
  }

  lemma ManualStep(rows: seq<Row>, row: Row)
    ensures ManualPatterns(rows + [row]) ==
            ManualPatterns(rows) + (if row.policy == Exclude then [SubtreePattern(row.path)] else [])
  {
    hide SubtreePattern;
    assert (rows + [row])[..|rows|] == rows;
  }

  method FilesystemScanPatterns(resolver: Resolver) returns (patterns: seq<string>)
    ensures patterns == resolver.ScanPatterns()
  {
    hide ManualPatterns;
    hide RStrip;
    hide Text;
    hide Dedup;
    hide RuleOverrides;
    hide Resolver.SelectedRows;
    var rows := resolver.rows;
    var effective := ApplyRuleOverrides(resolver.rules,
                                        resolver.SelectedRows(|rows|, IncludeRecursive),
                                        resolver.SelectedRows(|rows|, Include));
    patterns := PatternsOf(effective);
    ghost var head := patterns;
    assert ManualPatterns([]) == [] by { EmptyManual(); }
    for i := 0 to |rows|
      invariant patterns == head + ManualPatterns(rows[..i])
    {
      ManualStep(rows[..i], rows[i]);
      assert rows[..i + 1] == rows[..i] + [rows[i]];
      if rows[i].policy == Exclude {
        var normalized := Text(rows[i].path);
        RootSubtree(rows[i].path);
        patterns := patterns + [if normalized == "/" then "/**" else RStrip(normalized) + "/**"];
      }
    }
    assert rows[..|rows|] == rows;
  }

  lemma EmptyManual()
    ensures ManualPatterns([]) == []
  {
  }

  lemma RootSubtree(path: Path)
    ensures Text(path) == "/" ==> SubtreePattern(path) == "/**"
  {
    assert RStrip("/") == "" by { assert "/"[..0] == ""; }
  }

  // ---------- selected paths are never excluded by the generated list ----------

  lemma HardTextDownward(q: Path, p: Path, root: string)
    requires Valid(q) && Valid(p) && q <= p && EqualsOrBelow(Text(q), root)
    requires |root| > 1
    ensures EqualsOrBelow(Text(p), root)
  {
    if q != p {
      assert q != [] by {
        assert Text([]) == "/";
      }
      FlatBelow(q, p);
      assert q < p;
    }
  }

  lemma SystemHardDownward(q: Path, p: Path, symlinks: set<string>)
    requires Valid(q) && Valid(p) && q <= p
    requires IsSystemHard(Text(q), symlinks) && !(SYSTEM_HARD_EXACT + "/" <= Text(p))
    ensures IsSystemHard(Text(p), symlinks)
  {
    hide Text;
    if i :| 0 <= i < |SYSTEM_HARD_ROOTS| && EqualsOrBelow(Text(q), SYSTEM_HARD_ROOTS[i]) {
      HardTextDownward(q, p, SYSTEM_HARD_ROOTS[i]);
    } else if Text(q) == SYSTEM_HARD_EXACT {
      HardTextDownward(q, p, SYSTEM_HARD_EXACT);
    } else {
      var i :| 0 <= i < |ROOT_COMPAT_SYMLINKS| && EqualsOrBelow(Text(q), ROOT_COMPAT_SYMLINKS[i]) &&
               ROOT_COMPAT_SYMLINKS[i] in symlinks;
      HardTextDownward(q, p, ROOT_COMPAT_SYMLINKS[i]);
    }
  }

  // Hard exclusion covers subtrees, except below the swap file, which is one file.
  lemma HardDownward(resolver: Resolver, q: Path, p: Path)
    requires resolver.Valid() && Valid(q) && Valid(p) && q <= p
    requires resolver.IsHard(q) && !(SYSTEM_HARD_EXACT + "/" <= Text(p))
    ensures resolver.IsHard(p)
  {
    hide IsSystemHard;
    hide ContainsText;
    hide Text;
    ContainsIsPrefix(resolver.backupRoot, q);
    ContainsIsPrefix(resolver.backupRoot, p);
    if !(resolver.backupRoot <= q) {
      SystemHardDownward(q, p, resolver.symlinks);
    }
  }

  // The body of a generated subtree pattern, with or without its sign.
  lemma SignedBody(body: string, sign: string)
    requires sign == "" || sign == "!"
    requires "/" <= body
    ensures Body(sign + body) == body
    ensures Negative(sign + body) <==> sign == "!"
  {
    assert body[0] == '/';
    assert sign == "" ==> sign + body == body && (sign + body)[0] == '/';
    assert sign == "!" ==> (sign + body)[0] == '!' && (sign + body)[1..] == body;
  }

  lemma CompileSubtree(base: string, sign: string)
    requires sign == "" || sign == "!"
    requires MetaFree(base)
    requires base == "" || (base[0] == '/' && base[|base| - 1] != '/')
    ensures Compile(sign + (base + "/**")) == Prefix(sign == "!", if base == "" then "/" else base)
    ensures Negative(sign + (base + "/**")) <==> sign == "!"
  {
    hide FnMatch;
    var body := base + "/**";
    SignedBody(body, sign);
    assert body[..|body| - 3] == base;
    assert EndsWith(body, "/**");
    RStripFixed(base);
    assert MetaFree("/");
    assert !("**/" <= (if base == "" then "/" else base));
  }

  // A generated "root/**" pattern with a literal root covers exactly the subtree.
  lemma SubtreePatternMatches(root: Path, path: Path, sign: string)
    requires Valid(root) && Valid(path) && PathMetaFree(root)
    requires sign == "" || sign == "!"
    ensures PatternMatches(Text(path), Compile(sign + SubtreePattern(root))) <==> root <= path
    ensures Negative(sign + SubtreePattern(root)) <==> sign == "!"
  {
    hide FnMatch;
    hide Compile;
    TextStripped(root);
    FlatMetaFree(root);
    if root != [] {
      FlatEnd(root);
    }
    CompileSubtree(Flat(root), sign);
    ContainsIsPrefix(root, path);
  }

  lemma ExactPatternMatches(path: Path)
    requires Valid(path) && PathMetaFree(path)
    ensures PatternMatches(Text(path), Compile("!" + Text(path))) && Negative("!" + Text(path))
  {
    hide FnMatch;
    TextNormalized(path);
    var text := Text(path);
    assert ("!" + text)[1..] == text;
    assert MetaFree(text) by { assert path == [] ==> text == "/"; }
    EndsInStar(text);
  }

  lemma EndsInStar(text: string)
    ensures EndsWith(text, "/**") ==> !MetaFree(text)
  {
    if EndsWith(text, "/**") {
      assert text[|text| - 1] == text[|text| - 3..][2];
    }
  }

  lemma {:induction false} PatternsOfConcat(a: seq<Rule>, b: seq<Rule>)
    ensures PatternsOf(a + b) == PatternsOf(a) + PatternsOf(b)
  {
    if b == [] {
      assert a + b == a;
    } else {
      assert (a + b)[..|a + b| - 1] == a + b[..|b| - 1];
      PatternsOfConcat(a, b[..|b| - 1]);
    }
  }

  lemma {:induction false} GroupMembers(rule: Rule, paths: seq<Path>)
    ensures forall r :: r in RecursiveGroup(rule, paths) <==>
              exists path :: path in paths && Resticish(Text(path), rule.pattern) && r == RecursiveOverride(path, rule)
    ensures forall r :: r in ExactGroup(rule, paths) <==>
              exists path :: path in paths && Resticish(Text(path), rule.pattern) && r == ExactOverride(path, rule)
    ensures forall r :: r in RecursiveGroup(rule, paths) + ExactGroup(rule, paths) ==> Negative(r.pattern)
  {
    hide Resticish;
    if paths != [] {
      var init, last := paths[..|paths| - 1], paths[|paths| - 1];
      GroupMembers(rule, init);
      assert forall path :: path in paths <==> path in init || path == last;
    }
  }

  // Policy rows that can be read as patterns.
  ghost predicate LiteralRows(resolver: Resolver)
  {
    forall row :: row in resolver.rows ==> PathMetaFree(row.path)
  }

  // Rules that both matchers read alike, and a path that is not below a file.
  ghost predicate Plain(resolver: Resolver, path: Path)
  {
    resolver.Valid() && Valid(path) &&
    (forall rule :: rule in resolver.rules ==> !Ambiguous(rule.pattern)) &&
    !(SYSTEM_HARD_EXACT + "/" <= Text(path))
  }

  // The policy path that rescues a selected path from a rule that matches it:
  // the path itself, or the recursive inclusion it inherits from.
  lemma Rescuer(resolver: Resolver, path: Path, rule: Rule) returns (root: Path)
    requires Plain(resolver, path) && resolver.Selected(path)
    requires rule in resolver.rules && Resticish(Text(path), rule.pattern)
    ensures root <= path && Resticish(Text(root), rule.pattern)
    ensures !resolver.IsHard(root) && resolver.Selected(root)
    ensures Lookup(resolver.rows, root) == IncludeRecursive ||
            (root == path && Lookup(resolver.rows, root) == Include)
  {
    hide Resticish;
    hide IsSystemHard;
    var rows := resolver.rows;
    var explicit := Lookup(rows, path);
    if explicit == Include || explicit == IncludeRecursive {
      root := path;
    } else {
      assert resolver.Reason(path, resolver.OverrideRoot(path)).None?;
      root := Nearest(rows, path, IncludeRecursive).value;
      if resolver.IsHard(root) {
        HardDownward(resolver, root, path);
      }
      if Nearest(rows, root, Exclude).Some? {
        NearestInherits(rows, root, path, Exclude);
      }
    }
  }

  // ---------- when a path is selected, read off rows and rules ----------

  ghost predicate HasRow(resolver: Resolver, path: Path, policy: Policy)
  {
    Row(path, policy) in resolver.rows
  }

  // The recursive inclusion that is nearest: at or above the path, and the deepest.
  ghost predicate NearestRecursive(resolver: Resolver, root: Path, path: Path)
  {
    HasRow(resolver, root, IncludeRecursive) && root <= path &&
    forall row :: row in resolver.rows && row.policy == IncludeRecursive && row.path <= path ==> row.path <= root
  }

  // Every rule that matches the path also matches the root, and the first rule that
  // matches the root has a reason; or no rule matches the path at all.
  ghost predicate RulesGiveWay(resolver: Resolver, root: Path, path: Path)
  {
    (forall rule :: rule in resolver.rules ==> !Resticish(Text(path), rule.pattern)) ||
    ((forall rule :: rule in resolver.rules && Resticish(Text(path), rule.pattern) ==>
        Resticish(Text(root), rule.pattern)) &&
     exists i :: FirstMatch(resolver.rules, Text(root), i) && resolver.rules[i].reason != "")
  }

  ghost predicate FirstMatch(rules: seq<Rule>, text: string, i: int)
  {
    0 <= i < |rules| && Resticish(text, rules[i].pattern) &&
    forall j :: 0 <= j < i ==> !Resticish(text, rules[j].pattern)
  }

  ghost predicate Banned(resolver: Resolver, path: Path)
  {
    exists row :: row in resolver.rows && row.policy == Exclude && row.path <= path
  }

  ghost predicate Ticked(resolver: Resolver, path: Path)
  {
    HasRow(resolver, path, Include) || HasRow(resolver, path, IncludeRecursive)
  }

  lemma LookupIsHasRow(resolver: Resolver, path: Path, policy: Policy)
    requires resolver.Valid() && policy != Default
    ensures Lookup(resolver.rows, path) == policy <==> HasRow(resolver, path, policy)
  {
    LookupIsRow(resolver.rows, path);
    if HasRow(resolver, path, policy) {
      assert Row(path, policy).path == path;
    }
  }

  lemma NearestIsRow(resolver: Resolver, path: Path, policy: Policy)
    requires resolver.Valid() && policy != Default
    ensures Nearest(resolver.rows, path, policy).Some? <==>
      exists row :: row in resolver.rows && row.policy == policy && row.path <= path
    ensures Nearest(resolver.rows, path, policy).Some? ==>
      var root := Nearest(resolver.rows, path, policy).value;
      HasRow(resolver, root, policy) && root <= path &&
      forall row :: row in resolver.rows && row.policy == policy && row.path <= path ==> row.path <= root
  {
    hide Lookup, Nearest;
    var found := Nearest(resolver.rows, path, policy);
    forall row | row in resolver.rows && row.policy == policy && row.path <= path
      ensures found.Some? && row.path <= found.value
    {
      LookupIsHasRow(resolver, row.path, policy);
      assert row == Row(row.path, policy);
      assert row.path == path[..|row.path|];
      assert found.Some? ==> found.value == path[..|found.value|];
    }
    if found.Some? {
      LookupIsHasRow(resolver, found.value, policy);
      assert Row(found.value, policy).policy == policy;
    }
  }

  lemma {:induction false} FirstReasonIsFirst(rules: seq<Rule>, path: Path)
    ensures FirstReason(rules, path, None).Some? && FirstReason(rules, path, None).value != "" <==>
      exists i :: FirstMatch(rules, Text(path), i) && rules[i].reason != ""
  {
    hide Resticish, Text;
    if rules != [] {
      var text := Text(path);
      if Resticish(text, rules[0].pattern) {
        assert FirstMatch(rules, text, 0);
      } else {
        FirstReasonIsFirst(rules[1..], path);
        if i :| FirstMatch(rules[1..], text, i) && rules[1..][i].reason != "" {
          FirstMatchLater(rules, text, i + 1);
        }
        if i :| FirstMatch(rules, text, i) && rules[i].reason != "" {
          FirstMatchLater(rules, text, i);
        }
      }
    }
  }

  lemma FirstMatchLater(rules: seq<Rule>, text: string, i: nat)
    requires 0 < i < |rules| && !Resticish(text, rules[0].pattern)
    ensures FirstMatch(rules, text, i) <==> FirstMatch(rules[1..], text, i - 1)
  {
    hide Resticish;
    assert forall j :: 0 < j < i ==> rules[j] == rules[1..][j - 1];
    assert forall j :: 0 <= j < i - 1 ==> rules[1..][j] == rules[j + 1];
  }

  // A path is selected exactly if it is not hard excluded, no exclusion stands at or
  // above it, and it is ticked itself or lies in a recursive inclusion to which every
  // rule that matches it gives way.
  lemma SelectedExactly(resolver: Resolver, path: Path)
    requires resolver.Valid()
    ensures resolver.Selected(path) <==>
      !resolver.IsHard(path) && !Banned(resolver, path) &&
      (Ticked(resolver, path) ||
       exists root :: NearestRecursive(resolver, root, path) && RulesGiveWay(resolver, root, path))
  {
    hide Resticish, Resolver.HardOrigin, Lookup, Nearest, FirstReason, Text;
    NearestIsRow(resolver, path, Exclude);
    NearestIsRow(resolver, path, IncludeRecursive);
    LookupIsHasRow(resolver, path, Include);
    LookupIsHasRow(resolver, path, IncludeRecursive);
    var from := Nearest(resolver.rows, path, IncludeRecursive);
    if from.Some? {
      assert NearestRecursive(resolver, from.value, path);
      FirstReasonIsFirst(resolver.rules, from.value);
      ReasonsGiveWay(resolver, path, from.value);
    }
    forall root | NearestRecursive(resolver, root, path) ensures from.Some? && root == from.value {
      assert Row(root, IncludeRecursive).path == root;
      assert from.Some? ==> root <= from.value <= root;
    }
  }

  lemma ReasonsGiveWay(resolver: Resolver, path: Path, root: Path)
    requires Nearest(resolver.rows, path, IncludeRecursive) == Some(root)
    ensures resolver.Reason(path, resolver.OverrideRoot(path)).None? <==> RulesGiveWay(resolver, root, path)
  {
    hide Resticish, Text, Nearest, FirstReason;
    FirstReasonIsFirst(resolver.rules, root);
    var override := resolver.OverrideRoot(path);
    assert override.Some? <==> exists i :: FirstMatch(resolver.rules, Text(root), i) && resolver.rules[i].reason != "";
  }

  // The rest of the decision: why a path is left out, and whether what lies below it is meant.
  lemma DecisionExactly(resolver: Resolver, path: Path)
    requires resolver.Valid()
    ensures var decision := resolver.Resolve(path);
      (decision.origin == resolver.HardOrigin(path) || !resolver.IsHard(path)) &&
      (decision.origin == Manual <==> !resolver.IsHard(path) && Banned(resolver, path)) &&
      (decision.origin == Preconfigured <==>
         !resolver.IsHard(path) && !Banned(resolver, path) && !Ticked(resolver, path) && Ruled(resolver, path) &&
         !exists root :: NearestRecursive(resolver, root, path) && RulesGiveWay(resolver, root, path)) &&
      (decision.origin != NoOrigin ==> !decision.selected && !decision.recursive) &&
      (decision.origin == NoOrigin ==>
         (decision.selected <==> Ticked(resolver, path) || InRecursive(resolver, path)) &&
         (decision.recursive <==>
            HasRow(resolver, path, IncludeRecursive) || InRecursive(resolver, path)))
  {
    hide Resticish, Lookup, Nearest, FirstReason, Text, IsSystemHard, ContainsText, Resolver.OverrideRoot;
    NearestIsRow(resolver, path, Exclude);
    NearestIsRow(resolver, path, IncludeRecursive);
    LookupIsHasRow(resolver, path, Include);
    LookupIsHasRow(resolver, path, IncludeRecursive);
    ReasonExactly(resolver, path);
  }

  ghost predicate Ruled(resolver: Resolver, path: Path)
  {
    exists rule :: rule in resolver.rules && Resticish(Text(path), rule.pattern)
  }

  lemma ReasonExactly(resolver: Resolver, path: Path)
    requires resolver.Valid()
    ensures resolver.Reason(path, resolver.OverrideRoot(path)).Some? <==>
      Ruled(resolver, path) &&
      !exists root :: NearestRecursive(resolver, root, path) && RulesGiveWay(resolver, root, path)
  {
    hide Resticish, Lookup, Nearest, FirstReason, Text;
    NearestIsRow(resolver, path, IncludeRecursive);
    var from := Nearest(resolver.rows, path, IncludeRecursive);
    if from.Some? {
      assert NearestRecursive(resolver, from.value, path);
      ReasonsGiveWay(resolver, path, from.value);
    }
    forall root | NearestRecursive(resolver, root, path) ensures from.Some? && root == from.value {
      assert Row(root, IncludeRecursive).path == root;
      assert from.Some? ==> root <= from.value <= root;
    }
  }

  ghost predicate InRecursive(resolver: Resolver, path: Path)
  {
    exists row :: row in resolver.rows && row.policy == IncludeRecursive && row.path <= path
  }

  // The override that a stored row adds after a rule matches a text.
  ghost predicate Overrides(resolver: Resolver, row: Row, rule: Rule, text: string)
  {
    !resolver.IsHard(row.path) && resolver.Selected(row.path) && Resticish(Text(row.path), rule.pattern) &&
    ((row.policy == IncludeRecursive && PatternMatches(text, Compile("!" + SubtreePattern(row.path)))) ||
     (row.policy == Include && PatternMatches(text, Compile("!" + Text(row.path)))))
  }

  ghost predicate Rescued(resolver: Resolver, rule: Rule, text: string)
  {
    exists row :: row in resolver.rows && Overrides(resolver, row, rule, text)
  }

  ghost predicate Touches(resolver: Resolver, rule: Rule, text: string)
  {
    PatternMatches(text, Compile(rule.pattern)) || Rescued(resolver, rule, text)
  }

  // Among the first n rules, the k-th is the last with anything to say about the
  // text, and it excludes it: it matches, and none of its overrides does.
  ghost predicate LeftOut(resolver: Resolver, k: int, n: nat, text: string)
    requires n <= |resolver.rules|
  {
    0 <= k < n && PatternMatches(text, Compile(resolver.rules[k].pattern)) && !Negative(resolver.rules[k].pattern) &&
    !Rescued(resolver, resolver.rules[k], text) &&
    forall l :: k < l < n ==> !Touches(resolver, resolver.rules[l], text)
  }

  // A rule that matches a selected path is followed by an override that matches it
  // too, if the rows at or above the path are literal.
  lemma GroupRescues(resolver: Resolver, path: Path, rule: Rule)
    requires Plain(resolver, path) && resolver.Selected(path) && rule in resolver.rules
    requires PatternMatches(Text(path), Compile(rule.pattern))
    ensures Rescued(resolver, rule, Text(path)) ||
      exists row :: row in resolver.rows && GlobInclusion(row, path)
  {
    hide PatternMatches, Resticish, FnMatch, IsSystemHard, Ambiguous, Compile, Resolver.IsHard, Resolver.Selected;
    TextNormalized(path);
    CompiledImpliesPlain(Text(path), rule.pattern);
    var root := Rescuer(resolver, path, rule);
    var policy := Lookup(resolver.rows, root);
    LookupIsRow(resolver.rows, root);
    var row := Row(root, policy);
    assert row in resolver.rows && Valid(root);
    if PathMetaFree(root) {
      if policy == IncludeRecursive {
        SubtreePatternMatches(root, path, "!");
      } else {
        ExactPatternMatches(path);
      }
      assert Overrides(resolver, row, rule, Text(path));
    } else {
      assert GlobInclusion(row, path);
    }
  }

  // An inclusion at or above the path whose own path holds glob characters.
  ghost predicate GlobInclusion(row: Row, path: Path)
  {
    (row.policy == IncludeRecursive || row.policy == Include) && row.path <= path && !PathMetaFree(row.path)
  }

  // A rule followed by re-inclusions: the last that matches decides.
  lemma GroupDecides(text: string, before: seq<Rule>, rule: Rule, rescues: seq<Rule>)
    requires forall r :: r in rescues ==> Negative(r.pattern)
    ensures ExcludedBy(text, PatternsOf(before + [rule] + rescues)) <==>
      !(exists r :: r in rescues && PatternMatches(text, Compile(r.pattern))) &&
      if PatternMatches(text, Compile(rule.pattern)) then !Negative(rule.pattern)
      else ExcludedBy(text, PatternsOf(before))
  {
    hide PatternMatches, ExcludedBy, Compile, Negative;
    PatternsOfConcat(before + [rule], rescues);
    PatternsOfConcat(before, [rule]);
    assert PatternsOf([rule]) == [rule.pattern];
    var head := PatternsOf(before) + [rule.pattern];
    ExcludedByAppend(text, PatternsOf(before), [rule.pattern]);
    ExcludedByAppend(text, head, PatternsOf(rescues));
    MatchedInList(text, rescues);
    MatchedInList(text, [rule]);
    forall p | p in PatternsOf(rescues) ensures Negative(p) {
      var k :| 0 <= k < |rescues| && PatternsOf(rescues)[k] == p;
      assert rescues[k] in rescues;
    }
  }

  lemma MatchedInList(text: string, rules: seq<Rule>)
    ensures AnyMatches(text, PatternsOf(rules)) <==> exists r :: r in rules && PatternMatches(text, Compile(r.pattern))
  {
    hide PatternMatches, Compile;
    var patterns := PatternsOf(rules);
    if AnyMatches(text, patterns) {
      var p :| p in patterns && PatternMatches(text, Compile(p));
      var k :| 0 <= k < |patterns| && patterns[k] == p;
      assert rules[k] in rules;
    }
    if r :| r in rules && PatternMatches(text, Compile(r.pattern)) {
      var k :| 0 <= k < |rules| && rules[k] == r;
      assert patterns[k] == r.pattern;
    }
  }

  // The overrides in the list are those of the stored rows.
  lemma RescuesAreRows(resolver: Resolver, rule: Rule, text: string, recursive: seq<Path>, exact: seq<Path>)
    requires resolver.Valid()
    requires recursive == Dedup(resolver.SelectedRows(|resolver.rows|, IncludeRecursive))
    requires exact == Dedup(resolver.SelectedRows(|resolver.rows|, Include))
    ensures (exists r :: r in RecursiveGroup(rule, recursive) + ExactGroup(rule, exact) &&
               PatternMatches(text, Compile(r.pattern))) <==> Rescued(resolver, rule, text)
  {
    hide PatternMatches, Compile, Resticish, Resolver.IsHard, Resolver.Selected, Text, SubtreePattern;
    hide RecursiveGroup, ExactGroup, Dedup, Resolver.SelectedRows;
    var rows := resolver.rows;
    GroupMembers(rule, recursive);
    GroupMembers(rule, exact);
    forall path
      ensures (path in recursive <==>
        Row(path, IncludeRecursive) in rows && !resolver.IsHard(path) && resolver.Selected(path)) &&
      (path in exact <==> Row(path, Include) in rows && !resolver.IsHard(path) && resolver.Selected(path))
    {
      ListedRow(resolver, path);
    }
    if r :| r in RecursiveGroup(rule, recursive) && PatternMatches(text, Compile(r.pattern)) {
      var path :| path in recursive && Resticish(Text(path), rule.pattern) && r == RecursiveOverride(path, rule);
      assert Overrides(resolver, Row(path, IncludeRecursive), rule, text);
    }
    if r :| r in ExactGroup(rule, exact) && PatternMatches(text, Compile(r.pattern)) {
      var path :| path in exact && Resticish(Text(path), rule.pattern) && r == ExactOverride(path, rule);
      assert Overrides(resolver, Row(path, Include), rule, text);
    }
    if row :| row in rows && Overrides(resolver, row, rule, text) {
      assert row == Row(row.path, row.policy);
      if row.policy == IncludeRecursive {
        assert RecursiveOverride(row.path, rule) in RecursiveGroup(rule, recursive);
      } else {
        assert ExactOverride(row.path, rule) in ExactGroup(rule, exact);
      }
    }
  }

  lemma ListedRow(resolver: Resolver, path: Path)
    ensures path in Dedup(resolver.SelectedRows(|resolver.rows|, IncludeRecursive)) <==>
      Row(path, IncludeRecursive) in resolver.rows && !resolver.IsHard(path) && resolver.Selected(path)
    ensures path in Dedup(resolver.SelectedRows(|resolver.rows|, Include)) <==>
      Row(path, Include) in resolver.rows && !resolver.IsHard(path) && resolver.Selected(path)
  {
    hide Resolver.IsHard, Resolver.Selected, Dedup;
    var rows := resolver.rows;
    assert rows[..|rows|] == rows;
    resolver.SelectedRowsMembers(|rows|, IncludeRecursive, path);
    resolver.SelectedRowsMembers(|rows|, Include, path);
    DedupMembers(resolver.SelectedRows(|rows|, IncludeRecursive));
    DedupMembers(resolver.SelectedRows(|rows|, Include));
  }

  // The rules with their overrides exclude a text exactly when one of them leaves it out.
  lemma {:induction false} RulesExcludeExactly(
    resolver: Resolver, text: string, n: nat, recursive: seq<Path>, exact: seq<Path>)
    requires resolver.Valid() && n <= |resolver.rules|
    requires recursive == Dedup(resolver.SelectedRows(|resolver.rows|, IncludeRecursive))
    requires exact == Dedup(resolver.SelectedRows(|resolver.rows|, Include))
    ensures ExcludedBy(text, PatternsOf(RuleOverrides(resolver.rules[..n], recursive, exact))) <==>
      exists k :: LeftOut(resolver, k, n, text)
  {
    hide *;
    if n == 0 {
      NothingExcludes(text);
      EmptyOverrides(recursive, exact);
      assert resolver.rules[..0] == [];
      NoneLeftOut(resolver, text);
    } else {
      var rule := resolver.rules[n - 1];
      RulesExcludeExactly(resolver, text, n - 1, recursive, exact);
      var before := RuleOverrides(resolver.rules[..n - 1], recursive, exact);
      var rescues := RecursiveGroup(rule, recursive) + ExactGroup(rule, exact);
      GroupsAreNegative(rule, recursive, exact);
      GroupDecides(text, before, rule, rescues);
      RescuesAreRows(resolver, rule, text, recursive, exact);
      assert resolver.rules[..n] == resolver.rules[..n - 1] + [rule];
      GroupAppends(resolver.rules[..n - 1], rule, recursive, exact);
      assert before + [rule] + rescues ==
             before + [rule] + RecursiveGroup(rule, recursive) + ExactGroup(rule, exact);
      LeftOutStep(resolver, n - 1, n, text);
    }
  }

  lemma NoneLeftOut(resolver: Resolver, text: string)
    ensures !exists k :: LeftOut(resolver, k, 0, text)
  {
  }

  lemma GroupsAreNegative(rule: Rule, recursive: seq<Path>, exact: seq<Path>)
    ensures forall r :: r in RecursiveGroup(rule, recursive) + ExactGroup(rule, exact) ==> Negative(r.pattern)
  {
    hide Negative, Resticish;
    GroupMembers(rule, recursive);
    GroupMembers(rule, exact);
  }

  lemma LeftOutStep(resolver: Resolver, m: nat, n: nat, text: string)
    requires n == m + 1 && n <= |resolver.rules|
    ensures (exists k :: LeftOut(resolver, k, n, text)) <==>
      !Rescued(resolver, resolver.rules[m], text) &&
      if PatternMatches(text, Compile(resolver.rules[m].pattern)) then !Negative(resolver.rules[m].pattern)
      else exists k :: LeftOut(resolver, k, m, text)
  {
    hide PatternMatches, Compile, Negative, Rescued;
    var rule := resolver.rules[m];
    if k :| LeftOut(resolver, k, n, text) {
      assert k < m ==> !Touches(resolver, rule, text);
      assert k < m ==> LeftOut(resolver, k, m, text);
    }
    if !Rescued(resolver, rule, text) {
      if PatternMatches(text, Compile(rule.pattern)) {
        if !Negative(rule.pattern) {
          assert LeftOut(resolver, m, n, text);
        }
      } else if k :| LeftOut(resolver, k, m, text) {
        assert LeftOut(resolver, k, n, text);
      }
    }
  }

  lemma GroupAppends(rules: seq<Rule>, rule: Rule, recursive: seq<Path>, exact: seq<Path>)
    ensures RuleOverrides(rules + [rule], recursive, exact) ==
            RuleOverrides(rules, recursive, exact) + [rule] + RecursiveGroup(rule, recursive) + ExactGroup(rule, exact)
  {
    hide RecursiveGroup;
    hide ExactGroup;
    OverridesStep(rules, rule, recursive, exact);
  }

  lemma NothingExcludes(text: string)
    ensures !ExcludedBy(text, PatternsOf([]))
  {
  }

  lemma {:induction false} ManualMembers(rows: seq<Row>, pattern: string)
    ensures pattern in ManualPatterns(rows) <==>
            exists row :: row in rows && row.policy == Exclude && pattern == SubtreePattern(row.path)
  {
    hide SubtreePattern;
    if rows != [] {
      var init, last := rows[..|rows| - 1], rows[|rows| - 1];
      ManualMembers(init, pattern);
      assert forall row :: row in rows <==> row in init || row == last;
    }
  }

  lemma SubtreePatternIsPositive(path: Path)
    ensures !Negative(SubtreePattern(path))
  {
    var text := Text(path);
    assert text[0] == '/';
    assert RStrip(text) != "" ==> RStrip(text)[0] == text[0];
    assert SubtreePattern(path)[0] == '/';
  }

  ghost predicate ManuallyMatched(resolver: Resolver, path: Path)
  {
    exists row :: row in resolver.rows && row.policy == Exclude &&
      PatternMatches(Text(path), Compile(SubtreePattern(row.path)))
  }

  ghost predicate RuleExcluded(resolver: Resolver, path: Path)
  {
    exists k :: LeftOut(resolver, k, |resolver.rules|, Text(path))
  }

  // When the generated list excludes a path, for every policy and every path: a
  // manual exclusion matches it, or the last rule with anything to say about it
  // matches and none of its overrides does.
  lemma ExcludedExactly(resolver: Resolver, path: Path)
    requires resolver.Valid()
    ensures ExcludedBy(Text(path), resolver.ScanPatterns()) <==>
      ManuallyMatched(resolver, path) || RuleExcluded(resolver, path)
  {
    hide PatternMatches, SubtreePattern, ExcludedBy, Compile, Text, LeftOut;
    hide RuleOverrides, Resolver.SelectedRows, Dedup;
    var rows, text := resolver.rows, Text(path);
    var manual := ManualPatterns(rows);
    assert resolver.rules[..|resolver.rules|] == resolver.rules;
    RulesExcludeExactly(resolver, text, |resolver.rules|,
                        Dedup(resolver.SelectedRows(|rows|, IncludeRecursive)),
                        Dedup(resolver.SelectedRows(|rows|, Include)));
    ExcludedByAppend(text, PatternsOf(resolver.EffectiveRules()), manual);
    ManualsMatch(resolver, path);
  }

  lemma ManualsMatch(resolver: Resolver, path: Path)
    ensures AnyMatches(Text(path), ManualPatterns(resolver.rows)) <==> ManuallyMatched(resolver, path)
    ensures forall p :: p in ManualPatterns(resolver.rows) ==> !Negative(p)
  {
    hide PatternMatches, SubtreePattern, Compile, Text, ManualPatterns;
    var manual := ManualPatterns(resolver.rows);
    forall pattern | pattern in manual ensures !Negative(pattern) {
      ManualMembers(resolver.rows, pattern);
      var row :| row in resolver.rows && row.policy == Exclude && pattern == SubtreePattern(row.path);
      SubtreePatternIsPositive(row.path);
    }
    forall row | row in resolver.rows ensures row.policy == Exclude ==> SubtreePattern(row.path) in manual {
      ManualMembers(resolver.rows, SubtreePattern(row.path));
    }
    if AnyMatches(Text(path), manual) {
      var pattern :| pattern in manual && PatternMatches(Text(path), Compile(pattern));
      ManualMembers(resolver.rows, pattern);
    }
  }

  // What it takes to exclude a selected path: only a manual exclusion, or an
  // inclusion at or above the path, whose own path holds glob characters.
  lemma SelectedExcludedOnlyByGlobs(resolver: Resolver, path: Path)
    requires Plain(resolver, path) && resolver.Selected(path)
    ensures RuleExcluded(resolver, path) ==> exists row :: row in resolver.rows && GlobInclusion(row, path)
    ensures ManuallyMatched(resolver, path) ==>
      exists row :: row in resolver.rows && row.policy == Exclude && !PathMetaFree(row.path)
  {
    hide PatternMatches, SubtreePattern, Compile, Text, Resolver.Selected, Plain, Ambiguous, Rescued, GlobInclusion;
    if k :| LeftOut(resolver, k, |resolver.rules|, Text(path)) {
      GroupRescues(resolver, path, resolver.rules[k]);
    }
    if ManuallyMatched(resolver, path) {
      var row :| row in resolver.rows && row.policy == Exclude &&
        PatternMatches(Text(path), Compile(SubtreePattern(row.path)));
      if PathMetaFree(row.path) {
        LiteralExclusionMisses(resolver, path, row);
      }
    }
  }

  // The subtree of a literal manual exclusion holds no selected path.
  lemma LiteralExclusionMisses(resolver: Resolver, path: Path, row: Row)
    requires Plain(resolver, path) && resolver.Selected(path)
    requires row in resolver.rows && row.policy == Exclude && PathMetaFree(row.path)
    ensures !PatternMatches(Text(path), Compile(SubtreePattern(row.path)))
  {
    hide PatternMatches, SubtreePattern, Compile, Text, Resolver.Selected;
    SubtreePatternMatches(row.path, path, "");
    assert "" + SubtreePattern(row.path) == SubtreePattern(row.path);
    LookupIsRow(resolver.rows, row.path);
    if row.path <= path {
      ExcludedAbove(resolver, row.path, path);
    }
  }

  // Nothing below a manual exclusion is selected.
  lemma ExcludedAbove(resolver: Resolver, q: Path, p: Path)
    requires q <= p && Lookup(resolver.rows, q) == Exclude
    ensures !resolver.Selected(p)
  {
    hide IsSystemHard;
    assert q == p[..|q|];
  }

  // With literal policy rows no selected path is excluded, whatever its own name holds.
  lemma SelectedNeverExcluded(resolver: Resolver, path: Path)
    requires Plain(resolver, path) && LiteralRows(resolver)
    ensures resolver.Selected(path) ==> !ExcludedBy(Text(path), resolver.ScanPatterns())
  {
    hide Resolver.ScanPatterns, Resolver.Selected, ExcludedBy, ManuallyMatched, RuleExcluded;
    hide Ambiguous, PathMetaFree, Text;
    if resolver.Selected(path) {
      ExcludedExactly(resolver, path);
      SelectedExcludedOnlyByGlobs(resolver, path);
    }
  }

  // ---------- the checkbox of a closed directory ----------

  ghost predicate Mismatch(resolver: Resolver, dir: Path, selected: bool)
  {
    exists row :: row in resolver.rows && dir < row.path && resolver.Selected(row.path) != selected
  }

  lemma PrefixCases(a: Path, b: Path)
    requires a <= b
    ensures a == b || a < b
  {
    if |a| == |b| {
      assert a == b;
    }
  }

  lemma BelowByText(dir: Path, child: Path)
    requires Valid(dir) && Valid(child)
    ensures var prefix := if Text(dir) != "/" then RStrip(Text(dir)) + "/" else "/";
            Text(child) != Text(dir) && prefix <= Text(child) <==> dir < child
  {
    ContainsIsPrefix(dir, child);
    if Text(child) == Text(dir) {
      TextInjective(dir, child);
    }
    if dir == [] {
      assert child != [] ==> dir < child;
    } else {
      FlatEnd(dir);
      assert Text(dir) != "/";
    }
    if dir <= child {
      PrefixCases(dir, child);
    }
  }

  method HasDescendantMismatch(resolver: Resolver, dir: Path, selected: bool) returns (mismatch: bool)
    requires resolver.Valid() && Valid(dir)
    ensures mismatch <==> Mismatch(resolver, dir, selected)
  {
    hide Resolver.Selected;
    hide RStrip;
    hide Text;
    var prefix := if Text(dir) != "/" then RStrip(Text(dir)) + "/" else "/";
    for i := 0 to |resolver.rows|
      invariant forall k :: 0 <= k < i ==>
        !(dir < resolver.rows[k].path && resolver.Selected(resolver.rows[k].path) != selected)
    {
      var child := resolver.rows[i].path;
      BelowByText(dir, child);
      if Text(child) == Text(dir) || !(prefix <= Text(child)) {
        continue;
      }
      if resolver.Selected(child) != selected {
        return true;
      }
    }
    return false;
  }

  // Paths the stored rows must account for: not hard, and matched by no rule.
  ghost predicate Ordinary(resolver: Resolver, path: Path)
  {
    Valid(path) && !resolver.IsHard(path) && !(SYSTEM_HARD_EXACT + "/" <= Text(path)) &&
    forall rule :: rule in resolver.rules ==> !Resticish(Text(path), rule.pattern)
  }

  // What a path without a policy of its own inherits.
  ghost predicate Inherits(resolver: Resolver, path: Path)
  {
    Nearest(resolver.rows, path, Exclude).None? && Nearest(resolver.rows, path, IncludeRecursive).Some?
  }

  lemma OrdinarySelected(resolver: Resolver, path: Path)
    requires Ordinary(resolver, path)
    ensures Lookup(resolver.rows, path) != Include ==> resolver.Selected(path) == Inherits(resolver, path)
  {
    hide IsSystemHard;
    hide Resticish;
    assert path[..|path|] == path;
    assert resolver.Reason(path, resolver.OverrideRoot(path)).None?;
  }

  lemma NonHardUpward(resolver: Resolver, q: Path, p: Path)
    requires resolver.Valid() && Ordinary(resolver, p) && q <= p
    ensures Valid(q) && !resolver.IsHard(q)
  {
    hide IsSystemHard;
    hide Resticish;
    if resolver.IsHard(q) {
      HardDownward(resolver, q, p);
    }
  }

  // A row that includes or excludes recursively decides its own selection whatever the rules say.
  lemma RowDecides(resolver: Resolver, path: Path)
    requires !resolver.IsHard(path)
    requires Lookup(resolver.rows, path) == Exclude || Lookup(resolver.rows, path) == IncludeRecursive
    ensures resolver.Selected(path) == Inherits(resolver, path)
  {
    hide IsSystemHard;
    hide Resticish;
    assert path[..|path|] == path;
  }

  // A directory that resolves as it is inherited from its ancestors and itself.
  ghost predicate Settled(resolver: Resolver, dir: Path)
  {
    resolver.Valid() && Valid(dir) && !resolver.IsHard(dir) && resolver.Selected(dir) == Inherits(resolver, dir)
  }

  // Which directories are: all but a bare inclusion below no recursive one, and one
  // that only a rule takes out of a recursive inclusion.
  lemma SettledExactly(resolver: Resolver, dir: Path)
    requires resolver.Valid() && Valid(dir) && !resolver.IsHard(dir)
    ensures Settled(resolver, dir) <==>
      var recursive := Nearest(resolver.rows, dir, IncludeRecursive).Some?;
      if resolver.Resolve(dir).origin == Preconfigured then !recursive
      else Lookup(resolver.rows, dir) == Include && Nearest(resolver.rows, dir, Exclude).None? ==> recursive
  {
    hide IsSystemHard;
    hide Resticish;
    assert dir[..|dir|] == dir;
  }

  // One component further down, only a row of the path itself changes what is inherited.
  lemma InheritsStep(resolver: Resolver, q: Path)
    requires q != []
    ensures Lookup(resolver.rows, q) != Exclude && Lookup(resolver.rows, q) != IncludeRecursive ==>
      Inherits(resolver, q) == Inherits(resolver, q[..|q| - 1])
  {
  }

  lemma {:induction false} InheritedUniform(resolver: Resolver, dir: Path, q: Path, p: Path)
    requires Settled(resolver, dir) && !Mismatch(resolver, dir, resolver.Selected(dir))
    requires Ordinary(resolver, p) && dir <= q <= p
    ensures Inherits(resolver, q) == resolver.Selected(dir)
    decreases |q|
  {
    hide Resolver.Selected, Resolver.IsHard, Resolver.Resolve, Resticish, Ordinary, Inherits;
    if q != dir {
      var rows, parent := resolver.rows, q[..|q| - 1];
      PrefixCases(dir, q);
      NonHardUpward(resolver, q, p);
      LookupIsRow(rows, q);
      if Lookup(rows, q) == Exclude || Lookup(rows, q) == IncludeRecursive {
        RowDecides(resolver, q);
        assert Row(q, Lookup(rows, q)) in rows && dir < q;
      } else {
        assert dir <= parent <= p;
        InheritedUniform(resolver, dir, parent, p);
        InheritsStep(resolver, q);
      }
    }
  }

  // If no stored row disagrees with a settled directory, no ordinary descendant does.
  lemma ClosedDirectoryUniform(resolver: Resolver, dir: Path, p: Path)
    requires Settled(resolver, dir) && Ordinary(resolver, p) && dir <= p
    requires !Mismatch(resolver, dir, resolver.Selected(dir))
    ensures resolver.Selected(p) == resolver.Selected(dir)
  {
    hide Resolver.Selected;
    hide Resolver.IsHard;
    hide Resticish;
    hide Resolver.Resolve;
    InheritedUniform(resolver, dir, p, p);
    LookupIsRow(resolver.rows, p);
    if Lookup(resolver.rows, p) == Include {
      PrefixCases(dir, p);
      assert Row(p, Include) in resolver.rows;
    } else {
      OrdinarySelected(resolver, p);
    }
  }

  // For a settled directory the test is exact on stored rows and ordinary paths together.
  lemma ClosedDirectoryExact(resolver: Resolver, dir: Path)
    requires Settled(resolver, dir)
    ensures !Mismatch(resolver, dir, resolver.Selected(dir)) <==>
      forall p :: dir < p && (Ordinary(resolver, p) || StoredRow(resolver, p)) ==>
        resolver.Selected(p) == resolver.Selected(dir)
  {
    hide Resolver.Selected;
    hide Ordinary;
    hide Settled;
    if !Mismatch(resolver, dir, resolver.Selected(dir)) {
      forall p | dir < p && (Ordinary(resolver, p) || StoredRow(resolver, p))
        ensures resolver.Selected(p) == resolver.Selected(dir)
      {
        if Ordinary(resolver, p) {
          ClosedDirectoryUniform(resolver, dir, p);
        }
      }
    } else {
      var row :| row in resolver.rows && dir < row.path &&
                 resolver.Selected(row.path) != resolver.Selected(dir);
      assert StoredRow(resolver, row.path);
    }
  }

  ghost predicate StoredRow(resolver: Resolver, path: Path)
  {
    exists row :: row in resolver.rows && row.path == path
  }

  ghost predicate NoRowBetween(resolver: Resolver, dir: Path, p: Path)
  {
    forall row :: row in resolver.rows && dir < row.path ==> !(row.path <= p)
  }

  lemma {:induction false} InheritedUnchanged(resolver: Resolver, dir: Path, q: Path, p: Path)
    requires dir <= q <= p && NoRowBetween(resolver, dir, p)
    ensures Inherits(resolver, q) == Inherits(resolver, dir)
    decreases |q|
  {
    hide Inherits;
    if q != dir {
      PrefixCases(dir, q);
      LookupIsRow(resolver.rows, q);
      assert dir <= q[..|q| - 1] <= p;
      InheritedUnchanged(resolver, dir, q[..|q| - 1], p);
      InheritsStep(resolver, q);
    }
  }

  // Being settled is needed: a descendant that no row separates from the directory
  // agrees with it exactly if the directory is settled.
  lemma UnseparatedAgrees(resolver: Resolver, dir: Path, p: Path)
    requires resolver.Valid() && Valid(dir)
    requires Ordinary(resolver, p) && dir < p && NoRowBetween(resolver, dir, p)
    ensures resolver.Selected(p) == resolver.Selected(dir) <==> Settled(resolver, dir)
  {
    hide Resolver.Selected, Resolver.IsHard, Resolver.Resolve, Resticish, Inherits;
    NonHardUpward(resolver, dir, p);
    InheritedUnchanged(resolver, dir, p, p);
    LookupIsRow(resolver.rows, p);
    OrdinarySelected(resolver, p);
  }
}
