// What the source split guarantees: exact outputs, no nesting, nothing lost
// outside the protected trees, and what happens over several of them.
module SplitTheorems {
  import opened Strings
  import opened Paths
  import opened SourceSplit
  import Selection
  import Provisioning

  // The protected root is listed along the way from depth `from` to `upTo`.
  ghost predicate SpineListed(fs: FileSystem, root: Path, from: nat, upTo: nat)
    requires upTo <= |root|
  {
    forall k :: from <= k < upTo ==> fs.Lists(root[..k], root[k])
  }

  // Neither a way back into the protected tree nor a hard system path; said of the
  // text, since nothing is known about the names a directory lists.
  ghost predicate Clear(fs: FileSystem, root: Path, path: Path)
  {
    !(root <= fs.Real(path)) && Text(path) != "/swapfile" &&
    (forall tree :: tree in ["/proc", "/sys", "/dev", "/run"] ==> OutsideTree(Text(path), tree)) &&
    (forall tree :: tree in ["/bin", "/sbin", "/lib", "/lib32", "/lib64", "/libx32"] && tree in fs.symlinks ==>
       OutsideTree(Text(path), tree))
  }

  ghost predicate OutsideTree(text: string, tree: string)
  {
    text != tree && !(tree + "/" <= text)
  }

  lemma ClearIsKept(fs: FileSystem, root: Path, path: Path)
    ensures fs.Keeps(root, path) <==> Clear(fs, root, path)
  {
    hide Text;
    var text := Text(path);
    forall i | 0 <= i < |Selection.SYSTEM_HARD_ROOTS|
      ensures Selection.SYSTEM_HARD_ROOTS[i] in ["/proc", "/sys", "/dev", "/run"]
    {
    }
    forall tree | tree in ["/proc", "/sys", "/dev", "/run"]
      ensures exists i :: 0 <= i < |Selection.SYSTEM_HARD_ROOTS| && Selection.SYSTEM_HARD_ROOTS[i] == tree
    {
    }
    forall i | 0 <= i < |Selection.ROOT_COMPAT_SYMLINKS|
      ensures Selection.ROOT_COMPAT_SYMLINKS[i] in ["/bin", "/sbin", "/lib", "/lib32", "/lib64", "/libx32"]
    {
    }
    forall tree | tree in ["/bin", "/sbin", "/lib", "/lib32", "/lib64", "/libx32"]
      ensures exists i :: 0 <= i < |Selection.ROOT_COMPAT_SYMLINKS| && Selection.ROOT_COMPAT_SYMLINKS[i] == tree
    {
    }
  }

  // A listed and kept sibling of the spine.
  ghost predicate BesideSpine(fs: FileSystem, root: Path, from: nat, path: Path)
  {
    var k := |path| - 1;
    from <= k < |root| && path[..k] == root[..k] && path[k] != root[k] &&
    fs.Lists(root[..k], path[k]) && Clear(fs, root, path) && SpineListed(fs, root, from, k)
  }

  lemma {:induction false} EntriesMembers(fs: FileSystem, root: Path, depth: nat, names: seq<string>, path: Path)
    requires depth < |root| && Entries(fs, root, depth, names).Ok?
    ensures path in Entries(fs, root, depth, names).value <==>
      exists name :: name in names && EntryPaths(fs, root, depth, name).Ok? &&
          path in EntryPaths(fs, root, depth, name).value
  {
    hide EntryPaths, Entries;
    BranchSteps(fs, root, depth);
    if names != [] {
      var init, last := names[..|names| - 1], names[|names| - 1];
      assert names[..|names| - 1 + 1] == names;
      EntriesStep(fs, root, depth, names, |names| - 1);
      EntriesMembers(fs, root, depth, init, path);
      assert forall name :: name in names <==> name in init || name == last;
    }
  }

  lemma {:induction false} EntriesFailure(fs: FileSystem, root: Path, depth: nat, names: seq<string>)
    requires depth < |root|
    ensures Entries(fs, root, depth, names).Err? <==>
      root[depth] in names && depth + 1 < |root| && Branch(fs, root, depth + 1).Err?
  {
    hide Branch, FileSystem.Keeps;
    if names != [] {
      var init, last := names[..|names| - 1], names[|names| - 1];
      EntriesFailure(fs, root, depth, init);
      assert forall name :: name in names <==> name in init || name == last;
    }
  }

  // The split of an ancestor fails exactly when the walk reaches a directory on
  // the spine that cannot be listed.
  lemma {:induction false} BranchFails(fs: FileSystem, root: Path, depth: nat)
    requires depth < |root|
    ensures Branch(fs, root, depth).Err? <==>
      exists k :: depth <= k < |root| && SpineListed(fs, root, depth, k) && root[..k] !in fs.listing
    decreases |root| - depth
  {
    hide Entries, Branch;
    BranchSteps(fs, root, depth);
    if root[..depth] !in fs.listing {
      assert SpineListed(fs, root, depth, depth);
    } else {
      var names := SortNames(fs.listing[root[..depth]]);
      SortNamesFacts(fs.listing[root[..depth]]);
      EntriesFailure(fs, root, depth, names);
      if depth + 1 < |root| {
        BranchFails(fs, root, depth + 1);
        if Branch(fs, root, depth).Err? {
          var k: nat :| depth + 1 <= k < |root| && SpineListed(fs, root, depth + 1, k) && root[..k] !in fs.listing;
          assert SpineListed(fs, root, depth, k);
        }
        if k: nat :| depth <= k < |root| && SpineListed(fs, root, depth, k) && root[..k] !in fs.listing {
          assert SpineListed(fs, root, depth + 1, k);
        }
      }
    }
  }

  // The outputs are exactly the kept siblings of the spine.
  lemma {:induction false} BranchMembers(fs: FileSystem, root: Path, depth: nat, path: Path)
    requires depth < |root| && Branch(fs, root, depth).Ok?
    ensures path in Branch(fs, root, depth).value <==> BesideSpine(fs, root, depth, path)
    decreases |root| - depth
  {
    hide Entries, Branch, FileSystem.Keeps, SortNames, Clear;
    BranchSteps(fs, root, depth);
    ClearIsKept(fs, root, path);
    var listed := fs.listing[root[..depth]];
    var names := SortNames(listed);
    SortNamesFacts(listed);
    EntriesMembers(fs, root, depth, names, path);
    EntriesFailure(fs, root, depth, names);
    if path in Branch(fs, root, depth).value {
      var name :| name in names && EntryPaths(fs, root, depth, name).Ok? &&
          path in EntryPaths(fs, root, depth, name).value;
      if name == root[depth] {
        BranchMembers(fs, root, depth + 1, path);
      } else {
        assert path == root[..depth] + [name] && path[..depth] == root[..depth];
      }
    }
    if BesideSpine(fs, root, depth, path) {
      if |path| == depth + 1 {
        assert path == root[..depth] + [path[depth]];
        assert path in EntryPaths(fs, root, depth, path[depth]).value;
      } else {
        assert SpineListed(fs, root, depth + 1, |path| - 1);
        assert BesideSpine(fs, root, depth + 1, path);
        BranchMembers(fs, root, depth + 1, path);
        assert path in EntryPaths(fs, root, depth, root[depth]).value;
      }
    }
  }

  // ---------- no nesting ----------

  ghost predicate Apart(p: Path, q: Path)
  {
    !(p <= q) && !(q <= p)
  }

  ghost predicate NonNested(paths: seq<Path>)
  {
    forall i, j :: 0 <= i < j < |paths| ==> Apart(paths[i], paths[j])
  }

  lemma NonNestedConcat(a: seq<Path>, b: seq<Path>)
    requires NonNested(a) && NonNested(b)
    requires forall p, q :: p in a && q in b ==> Apart(p, q)
    ensures NonNested(a + b)
  {
  }

  lemma EntryBelow(fs: FileSystem, root: Path, depth: nat, name: string, path: Path)
    requires depth < |root| && EntryPaths(fs, root, depth, name).Ok? && path in EntryPaths(fs, root, depth, name).value
    ensures root[..depth] + [name] <= path
  {
    hide Branch, Clear;
    if name == root[depth] {
      BranchMembers(fs, root, depth + 1, path);
      assert root[..depth] + [name] == root[..depth + 1] == path[..depth + 1];
    }
  }

  lemma {:induction false} EntriesNonNested(fs: FileSystem, root: Path, depth: nat, names: seq<string>)
    requires depth < |root| && fs.Valid() && NoRepeats(names) && Entries(fs, root, depth, names).Ok?
    ensures NonNested(Entries(fs, root, depth, names).value)
    decreases |root| - depth, 0, |names|
  {
    hide Branch, Clear, FileSystem.Valid;
    if names != [] {
      var init, last := names[..|names| - 1], names[|names| - 1];
      var before, here := Entries(fs, root, depth, init).value, EntryPaths(fs, root, depth, last).value;
      EntriesNonNested(fs, root, depth, init);
      if last == root[depth] && depth + 1 < |root| {
        BranchNonNested(fs, root, depth + 1);
      }
      forall p, q | p in before && q in here ensures Apart(p, q) {
        EntriesMembers(fs, root, depth, init, p);
        var name :| name in init && EntryPaths(fs, root, depth, name).Ok? &&
            p in EntryPaths(fs, root, depth, name).value;
        EntryBelow(fs, root, depth, name, p);
        EntryBelow(fs, root, depth, last, q);
        assert (root[..depth] + [name])[depth] == p[depth] && (root[..depth] + [last])[depth] == q[depth];
      }
      NonNestedConcat(before, here);
    }
  }

  lemma {:induction false} BranchNonNested(fs: FileSystem, root: Path, depth: nat)
    requires depth < |root| && fs.Valid() && Branch(fs, root, depth).Ok?
    ensures NonNested(Branch(fs, root, depth).value)
    decreases |root| - depth, 1, 0
  {
    hide Entries, Branch, NonNested;
    BranchSteps(fs, root, depth);
    var listed := fs.listing[root[..depth]];
    SortNamesFacts(listed);
    EntriesNonNested(fs, root, depth, SortNames(listed));
  }

  // ---------- one split ----------

  // The first entry of `path` that leaves the way to the root.
  function Leaves(root: Path, path: Path): (k: nat)
    requires !(path <= root) && !(root <= path)
    ensures k < |root| && k < |path| && path[..k] == root[..k] && path[k] != root[k]
  {
    if path[0] != root[0] then 0
    else
      var k := Leaves(root[1..], path[1..]);
      assert path[..k + 1] == [path[0]] + path[1..][..k] && root[..k + 1] == [root[0]] + root[1..][..k];
      k + 1
  }

  // Neither on the way to the root nor inside it, and the entry where it leaves
  // the way is not dropped.
  ghost predicate Survives(fs: FileSystem, root: Path, path: Path)
  {
    Apart(path, root) && Clear(fs, root, path[..Leaves(root, path) + 1])
  }

  ghost predicate Covered(paths: seq<Path>, path: Path)
  {
    exists p :: p in paths && p <= path
  }

  lemma PrefixAt(p: Path, q: Path, k: nat)
    ensures k < |p| && p <= q ==> p[k] == q[k]
  {
  }

  lemma LeavesUnique(root: Path, path: Path, k: nat)
    requires Apart(path, root) && k < |root| && k < |path| && path[..k] == root[..k] && path[k] != root[k]
    ensures k == Leaves(root, path)
  {
    var m := Leaves(root, path);
    PrefixAt(path[..k], path, m);
    PrefixAt(root[..k], root, m);
    PrefixAt(path[..m], path, k);
    PrefixAt(root[..m], root, k);
  }

  // Splitting an ancestor of the root: the outputs do not nest, lie strictly
  // below the source, neither contain the root nor lie in it, and cover an
  // existing path below the source exactly when it survives the split.
  lemma SplitPartitions(fs: FileSystem, source: Path, root: Path, rejectEqual: bool)
    requires source < root && fs.Valid() && Split(fs, source, root, rejectEqual).Ok?
    ensures var outputs := Split(fs, source, root, rejectEqual).value;
      NonNested(outputs) &&
      (forall o :: o in outputs ==> source < o && Apart(o, root)) &&
      (forall path :: fs.Exists(path) && source <= path ==> (Covered(outputs, path) <==> Survives(fs, root, path)))
  {
    var outputs := Split(fs, source, root, rejectEqual).value;
    hide Branch, FileSystem.Valid, Clear;
    BranchNonNested(fs, root, |source|);
    forall o | o in outputs ensures source < o && Apart(o, root) {
      OutputPlace(fs, source, root, o);
    }
    forall path | fs.Exists(path) && source <= path ensures Covered(outputs, path) <==> Survives(fs, root, path) {
      if o :| o in outputs && o <= path {
        OutputSurvives(fs, source, root, o, path);
      }
      if Survives(fs, root, path) {
        SurvivorIsCovered(fs, source, root, path);
      }
    }
  }

  lemma OutputPlace(fs: FileSystem, source: Path, root: Path, o: Path)
    requires source < root && Branch(fs, root, |source|).Ok? && o in Branch(fs, root, |source|).value
    ensures source < o && Apart(o, root)
  {
    hide Branch, Clear;
    BranchMembers(fs, root, |source|, o);
    var k := |o| - 1;
    assert o[..k][..|source|] == o[..|source|] && root[..k][..|source|] == root[..|source|];
  }

  lemma OutputSurvives(fs: FileSystem, source: Path, root: Path, o: Path, path: Path)
    requires source < root && Branch(fs, root, |source|).Ok? && o in Branch(fs, root, |source|).value
    requires o <= path
    ensures Survives(fs, root, path)
  {
    hide Branch, Clear;
    BranchMembers(fs, root, |source|, o);
    var k := |o| - 1;
    assert path[k] == o[k] && path[..k] == o[..k];
    PrefixAt(path, root, k);
    PrefixAt(root, path, k);
    LeavesUnique(root, path, k);
    assert path[..k + 1] == o;
  }

  lemma SpineExists(fs: FileSystem, root: Path, path: Path, from: nat, k: nat)
    requires fs.Exists(path) && k < |root| && k < |path| && path[..k] == root[..k]
    ensures SpineListed(fs, root, from, k)
  {
    forall j | from <= j < k ensures fs.Lists(root[..j], root[j]) {
      assert fs.Lists(path[..j], path[j]);
      assert path[..j] == path[..k][..j] == root[..k][..j] == root[..j];
      assert path[j] == path[..k][j] == root[..k][j] == root[j];
    }
  }

  lemma SurvivorIsCovered(fs: FileSystem, source: Path, root: Path, path: Path)
    requires source < root && Branch(fs, root, |source|).Ok?
    requires fs.Exists(path) && source <= path && Survives(fs, root, path)
    ensures Covered(Branch(fs, root, |source|).value, path)
  {
    hide Branch, Clear, SpineListed, Leaves, FileSystem.Lists;
    var k := Leaves(root, path);
    var o := path[..k + 1];
    PrefixAt(source, path, k);
    PrefixAt(source, root, k);
    assert o[..k] == path[..k] == root[..k] && o[k] == path[k];
    SpineExists(fs, root, path, |source|, k);
    assert fs.Lists(path[..k], path[k]);
    assert BesideSpine(fs, root, |source|, o);
    BranchMembers(fs, root, |source|, o);
  }

  // ---------- several protected roots ----------

  lemma {:induction false} SplitAllMembers(fs: FileSystem, sources: seq<Path>, p: Protected, o: Path)
    requires SplitAll(fs, sources, p).Ok?
    ensures o in SplitAll(fs, sources, p).value <==>
      exists s :: s in sources && Split(fs, s, p.root, p.rejectEqual).Ok? &&
          o in Split(fs, s, p.root, p.rejectEqual).value
    ensures forall s :: s in sources ==> Split(fs, s, p.root, p.rejectEqual).Ok?
  {
    hide Split, SplitAll;
    SplitAllStep(fs, sources, p);
    if sources != [] {
      var init, last := sources[..|sources| - 1], sources[|sources| - 1];
      SplitAllMembers(fs, init, p, o);
      assert forall s :: s in sources <==> s in init || s == last;
    }
  }

  lemma SplitAllStep(fs: FileSystem, sources: seq<Path>, p: Protected)
    ensures sources == [] ==> SplitAll(fs, sources, p) == Ok([])
    ensures sources != [] ==>
      var before, here := SplitAll(fs, sources[..|sources| - 1], p),
                          Split(fs, sources[|sources| - 1], p.root, p.rejectEqual);
      SplitAll(fs, sources, p) ==
        if before.Err? then before else if here.Err? then here else Ok(before.value + here.value)
  {
    hide Split;
  }

  // Every output comes from a source above it and does not contain the root.
  lemma OutputSource(fs: FileSystem, sources: seq<Path>, p: Protected, o: Path) returns (source: Path)
    requires SplitAll(fs, sources, p).Ok? && o in SplitAll(fs, sources, p).value
    ensures source in sources && source <= o && !(o <= p.root)
    ensures source < p.root ==> BesideSpine(fs, p.root, |source|, o)
    ensures !(source < p.root) ==> o == source && source != p.root
  {
    hide Branch, SplitAll, Clear;
    SplitAllMembers(fs, sources, p, o);
    source :| source in sources && Split(fs, source, p.root, p.rejectEqual).Ok? &&
      o in Split(fs, source, p.root, p.rejectEqual).value;
    if source < p.root {
      OutputPlace(fs, source, p.root, o);
      BranchMembers(fs, p.root, |source|, o);
    }
  }

  // No output contains any protected root.
  lemma {:induction false} NoOutputContains(fs: FileSystem, sources: seq<Path>, protected: seq<Protected>, o: Path)
    requires Fold(fs, sources, protected).Ok? && o in Fold(fs, sources, protected).value
    ensures forall k :: 0 <= k < |protected| ==> !(o <= protected[k].root)
    ensures exists s :: s in sources && s <= o
  {
    hide SplitAll, Clear;
    if protected != [] {
      var init, last := protected[..|protected| - 1], protected[|protected| - 1];
      var s := OutputSource(fs, Fold(fs, sources, init).value, last, o);
      NoOutputContains(fs, sources, init, s);
      forall k | 0 <= k < |protected| ensures !(o <= protected[k].root) {
        assert k < |init| ==> init[k] == protected[k];
      }
      var original :| original in sources && original <= s;
      assert original <= o;
    }
  }

  // An entry that a walk around the root made a source of its own.
  ghost predicate Walked(fs: FileSystem, root: Path, o: Path)
  {
    exists from: nat :: BesideSpine(fs, root, from, o)
  }

  // An output is an original source, or a walk around some root made it, and then it
  // neither resolves into that root nor is a hard system path. An original source is an
  // output exactly if it contains no protected root.
  lemma {:induction false} FoldOutputs(fs: FileSystem, sources: seq<Path>, protected: seq<Protected>, o: Path)
    requires Fold(fs, sources, protected).Ok?
    ensures o in Fold(fs, sources, protected).value ==>
      o in sources || exists k :: 0 <= k < |protected| && Walked(fs, protected[k].root, o)
    ensures o in sources ==>
      (o in Fold(fs, sources, protected).value <==> forall k :: 0 <= k < |protected| ==> !(o <= protected[k].root))
  {
    hide SplitAll, Fold, BesideSpine;
    FoldSteps(fs, sources, protected);
    if protected != [] {
      var init, last := protected[..|protected| - 1], protected[|protected| - 1];
      var between := Fold(fs, sources, init).value;
      FoldOutputs(fs, sources, init, o);
      if o in Fold(fs, sources, protected).value {
        NoOutputContains(fs, sources, protected, o);
        var s := OutputSource(fs, between, last, o);
        if s < last.root {
          assert Walked(fs, protected[|protected| - 1].root, o);
        } else if o !in sources {
          var k :| 0 <= k < |init| && Walked(fs, init[k].root, o);
          assert Walked(fs, protected[k].root, o);
        }
      }
      if o in sources && forall k :: 0 <= k < |protected| ==> !(o <= protected[k].root) {
        assert forall k :: 0 <= k < |init| ==> init[k] == protected[k];
        assert !(o <= last.root);
        UntouchedStays(fs, between, last, o);
      }
    }
  }

  lemma UntouchedStays(fs: FileSystem, sources: seq<Path>, p: Protected, o: Path)
    requires SplitAll(fs, sources, p).Ok? && o in sources && !(o <= p.root)
    ensures o in SplitAll(fs, sources, p).value
  {
    hide SplitAll, Branch;
    SplitAllMembers(fs, sources, p, o);
    assert Split(fs, o, p.root, p.rejectEqual) == Ok([o]);
  }

  lemma WalkedIsClear(fs: FileSystem, root: Path, o: Path)
    requires Walked(fs, root, o)
    ensures Clear(fs, root, o)
  {
    hide Clear;
  }

  // What survives every split stays covered; nothing else becomes covered.
  lemma {:induction false} FoldCovers(fs: FileSystem, sources: seq<Path>, protected: seq<Protected>, path: Path)
    requires Fold(fs, sources, protected).Ok? && fs.Exists(path)
    ensures Covered(Fold(fs, sources, protected).value, path) ==> Covered(sources, path)
    ensures Covered(sources, path) && (forall k :: 0 <= k < |protected| ==> Survives(fs, protected[k].root, path)) ==>
      Covered(Fold(fs, sources, protected).value, path)
  {
    hide SplitAll, Clear, FileSystem.Exists, Survives, Fold;
    var outputs := Fold(fs, sources, protected).value;
    if o :| o in outputs && o <= path {
      NoOutputContains(fs, sources, protected, o);
    }
    if Covered(sources, path) && (forall k :: 0 <= k < |protected| ==> Survives(fs, protected[k].root, path)) {
      FoldSteps(fs, sources, protected);
      if protected != [] {
        var init, last := protected[..|protected| - 1], protected[|protected| - 1];
        assert forall k :: 0 <= k < |init| ==> init[k] == protected[k];
        FoldCovers(fs, sources, init, path);
        SplitAllCovers(fs, Fold(fs, sources, init).value, last, path);
      }
    }
  }

  lemma FoldSteps(fs: FileSystem, sources: seq<Path>, protected: seq<Protected>)
    ensures protected == [] ==> Fold(fs, sources, protected) == Ok(sources)
    ensures protected != [] ==>
      var before := Fold(fs, sources, protected[..|protected| - 1]);
      Fold(fs, sources, protected) ==
        if before.Err? then before else SplitAll(fs, before.value, protected[|protected| - 1])
  {
    hide SplitAll;
  }

  lemma SplitAllCovers(fs: FileSystem, sources: seq<Path>, p: Protected, path: Path)
    requires SplitAll(fs, sources, p).Ok? && fs.Exists(path) && Survives(fs, p.root, path) && Covered(sources, path)
    ensures Covered(SplitAll(fs, sources, p).value, path)
  {
    hide Branch, SplitAll, Clear, FileSystem.Exists, Leaves;
    var s :| s in sources && s <= path;
    SplitAllMembers(fs, sources, p, s);
    if s < p.root {
      SurvivorIsCovered(fs, s, p.root, path);
      var o :| o in Branch(fs, p.root, |s|).value && o <= path;
      SplitAllMembers(fs, sources, p, o);
    } else {
      assert s != p.root;
      assert s in Split(fs, s, p.root, p.rejectEqual).value;
    }
  }

  lemma PrefixesCompare(p: Path, q: Path, path: Path)
    requires p <= path && q <= path
    ensures !Apart(p, q)
  {
    assert |p| <= |q| ==> p == path[..|p|] == q[..|p|];
    assert |q| <= |p| ==> q == path[..|q|] == p[..|q|];
  }

  // Strictly inside `r`, one split around a root that is not strictly inside `r`
  // itself changes nothing.
  lemma SplitInside(fs: FileSystem, sources: seq<Path>, p: Protected, r: Path, o: Path)
    requires SplitAll(fs, sources, p).Ok? && r < o && !(r < p.root)
    ensures o in SplitAll(fs, sources, p).value <==> o in sources
  {
    hide SplitAll, Branch, Clear, SpineListed;
    SplitAllMembers(fs, sources, p, o);
    if o in SplitAll(fs, sources, p).value {
      var s := OutputSource(fs, sources, p, o);
      if s < p.root {
        SharedStart(r, o, p.root, |o| - 1);
      }
    }
    if o in sources {
      assert !(o < p.root) && o != p.root;
      assert Split(fs, o, p.root, p.rejectEqual) == Ok([o]);
    }
  }

  lemma SharedStart(p: Path, o: Path, root: Path, k: nat)
    requires k <= |o| && k <= |root| && o[..k] == root[..k]
    ensures p <= o && |p| <= k ==> p <= root
  {
    assert |p| <= k ==> o[..k][..|p|] == o[..|p|] && root[..k][..|p|] == root[..|p|];
  }

  lemma {:induction false} FoldInside(fs: FileSystem, sources: seq<Path>, protected: seq<Protected>, r: Path, o: Path)
    requires Fold(fs, sources, protected).Ok? && r < o
    requires forall p :: p in protected ==> !(r < p.root)
    ensures o in Fold(fs, sources, protected).value <==> o in sources
  {
    hide SplitAll, Fold;
    FoldSteps(fs, sources, protected);
    if protected != [] {
      var init, last := protected[..|protected| - 1], protected[|protected| - 1];
      FoldInside(fs, sources, init, r, o);
      assert last in protected;
      SplitInside(fs, Fold(fs, sources, init).value, last, r, o);
    }
  }

  // ---------- the whole source list ----------

  lemma ApartBelow(p: Path, q: Path, o: Path, u: Path)
    requires p <= o && q <= u && Apart(p, q)
    ensures Apart(o, u)
  {
    if o <= u {
      PrefixesCompare(p, q, u);
    } else if u <= o {
      PrefixesCompare(p, q, o);
    }
  }

  lemma {:induction false} SplitAllNonNested(fs: FileSystem, sources: seq<Path>, p: Protected)
    requires fs.Valid() && NonNested(sources) && SplitAll(fs, sources, p).Ok?
    ensures NonNested(SplitAll(fs, sources, p).value)
  {
    hide Branch, FileSystem.Valid, Clear;
    if sources != [] {
      var init, last := sources[..|sources| - 1], sources[|sources| - 1];
      var before, here := SplitAll(fs, init, p).value, Split(fs, last, p.root, p.rejectEqual).value;
      SplitAllNonNested(fs, init, p);
      if last < p.root {
        BranchNonNested(fs, p.root, |last|);
      }
      forall o, u | o in before && u in here ensures Apart(o, u) {
        var s := OutputSource(fs, init, p, o);
        if last < p.root {
          OutputPlace(fs, last, p.root, u);
        }
        ApartBelow(s, last, o, u);
      }
      NonNestedConcat(before, here);
    }
  }

  lemma {:induction false} FoldNonNested(fs: FileSystem, sources: seq<Path>, protected: seq<Protected>)
    requires fs.Valid() && NonNested(sources) && Fold(fs, sources, protected).Ok?
    ensures NonNested(Fold(fs, sources, protected).value)
  {
    hide SplitAll, NonNested, FileSystem.Valid, Fold;
    FoldSteps(fs, sources, protected);
    if protected != [] {
      var init, last := protected[..|protected| - 1], protected[|protected| - 1];
      FoldNonNested(fs, sources, init);
      SplitAllNonNested(fs, Fold(fs, sources, init).value, last);
    }
  }

  lemma {:induction false} DedupNonNested(paths: seq<Path>)
    requires NonNested(paths)
    ensures Selection.Dedup(paths) == paths
  {
    if paths != [] {
      var init, last := paths[..|paths| - 1], paths[|paths| - 1];
      DedupNonNested(init);
      assert forall i :: 0 <= i < |init| ==> Apart(paths[i], last);
      assert last !in init;
      assert paths == init + [last];
    }
  }

  // The sources handed to the backup: none contains a protected root, each lies
  // in an original source, sources that did not nest still do not, and every
  // existing path of a source that survives each split is still backed up.
  lemma EffectiveSources(fs: FileSystem, sources: seq<Path>, backupRoot: Path, structural: seq<Path>)
    requires fs.Valid() && Fold(fs, sources, ProtectedRoots(backupRoot, structural)).Ok?
    ensures var outputs := Selection.Dedup(Fold(fs, sources, ProtectedRoots(backupRoot, structural)).value);
      (forall o :: o in outputs ==>
         !(o <= backupRoot) && (forall r :: r in structural ==> !(o <= r)) && Covered(sources, o) &&
         (o in sources || exists r :: r in [backupRoot] + structural && Clear(fs, r, o))) &&
      (NonNested(sources) ==> NonNested(outputs)) &&
      forall path :: (fs.Exists(path) && Covered(sources, path) && Survives(fs, backupRoot, path) &&
                      forall r :: r in structural ==> Survives(fs, r, path)) ==> Covered(outputs, path)
  {
    hide Fold, FileSystem.Valid, FileSystem.Exists, NonNested, Survives, Clear, Walked;
    var protected := ProtectedRoots(backupRoot, structural);
    var folded := Fold(fs, sources, protected).value;
    var outputs := Selection.Dedup(folded);
    Selection.DedupMembers(folded);
    forall o | o in outputs
      ensures !(o <= backupRoot) && (forall r :: r in structural ==> !(o <= r)) && Covered(sources, o)
      ensures o in sources || exists r :: r in [backupRoot] + structural && Clear(fs, r, o)
    {
      NoOutputContains(fs, sources, protected, o);
      FoldOutputs(fs, sources, protected, o);
      if o !in sources {
        var k :| 0 <= k < |protected| && Walked(fs, protected[k].root, o);
        WalkedIsClear(fs, protected[k].root, o);
        assert protected[k].root == ([backupRoot] + structural)[k];
      }
      assert !(o <= protected[0].root);
      assert forall k :: 0 <= k < |structural| ==> structural[k] == protected[k + 1].root;
    }
    if NonNested(sources) {
      FoldNonNested(fs, sources, protected);
      DedupNonNested(folded);
    }
    forall path | fs.Exists(path) && Covered(sources, path) && Survives(fs, backupRoot, path) &&
      (forall r :: r in structural ==> Survives(fs, r, path)) ensures Covered(outputs, path)
    {
      forall k | 0 <= k < |protected| ensures Survives(fs, protected[k].root, path) {
        assert k > 0 ==> protected[k].root == structural[k - 1];
      }
      FoldCovers(fs, sources, protected, path);
      var o :| o in folded && o <= path;
      assert o in outputs;
    }
  }

  // ---------- an admitted backup root and the curated /etc ----------

  const ETC: Path := ["etc"]

  // Admission keeps the backup root out of /etc, and it is never "/".
  lemma AdmittedRoot(nodes: map<Path, Provisioning.Inode>, backupRoot: Path)
    requires Provisioning.Admit(nodes, backupRoot).Ok?
    ensures !(ETC <= backupRoot) && !(backupRoot < ETC)
  {
    hide Provisioning.Trusted, Provisioning.ApprovalMarker, Provisioning.Ancestry, Provisioning.RootIdentity;
    assert !Provisioning.Blocked(backupRoot);
    assert Provisioning.BLOCKED_BACKUP_ROOTS[0] == [] && Provisioning.BLOCKED_BACKUP_ROOTS[1] == ETC;
    assert backupRoot < ETC ==> backupRoot == [];
  }

  // Around /etc nothing is ever walked: "/", the only path above it, was split before.
  lemma {:induction false} WalkedAroundBackupRoot(
    fs: FileSystem, sources: seq<Path>, protected: seq<Protected>, o: Path)
    requires protected != [] && forall k :: 1 <= k < |protected| ==> protected[k].root == ETC
    requires Fold(fs, sources, protected).Ok? && o in Fold(fs, sources, protected).value
    ensures o in sources || Clear(fs, protected[0].root, o)
    decreases |protected|
  {
    hide SplitAll, Fold, Clear;
    FoldSteps(fs, sources, protected);
    var init, last := protected[..|protected| - 1], protected[|protected| - 1];
    var between := Fold(fs, sources, init).value;
    var s := OutputSource(fs, between, last, o);
    FoldSteps(fs, sources, init);
    if init != [] {
      NoOutputContains(fs, sources, init, s);
      assert init[0] == protected[0];
      assert s < ETC ==> s == [];
      WalkedAroundBackupRoot(fs, sources, init, s);
    }
  }

  // With an admitted backup root, sources outside it, and /etc as the only
  // structural exclusion: every output is apart from the backup root, an output that
  // is no original source does not resolve into it and is no hard system path, and
  // inside /etc exactly the original sources strictly inside it remain.
  lemma AdmittedOutputs(
    nodes: map<Path, Provisioning.Inode>, fs: FileSystem, sources: seq<Path>, backupRoot: Path, structural: seq<Path>)
    requires Provisioning.Admit(nodes, backupRoot).Ok? && forall r :: r in structural ==> r == ETC
    requires forall s :: s in sources ==> !(backupRoot <= s)
    requires Fold(fs, sources, ProtectedRoots(backupRoot, structural)).Ok?
    ensures var outputs := Selection.Dedup(Fold(fs, sources, ProtectedRoots(backupRoot, structural)).value);
      (forall o :: o in outputs ==> Apart(o, backupRoot) && (o in sources || Clear(fs, backupRoot, o))) &&
      (structural != [] ==> forall o :: ETC <= o ==> (o in outputs <==> o in sources && o != ETC))
  {
    hide Fold, Provisioning.Admit, Clear;
    var protected := ProtectedRoots(backupRoot, structural);
    var folded := Fold(fs, sources, protected).value;
    AdmittedRoot(nodes, backupRoot);
    Selection.DedupMembers(folded);
    forall p | p in protected ensures !(backupRoot < p.root) && !(ETC < p.root) {
      var k :| 0 <= k < |protected| && protected[k] == p;
      assert k > 0 ==> p.root == structural[k - 1] && structural[k - 1] in structural;
    }
    forall k | 1 <= k < |protected| ensures protected[k].root == ETC {
      assert structural[k - 1] in structural;
    }
    forall o | o in folded ensures Apart(o, backupRoot) && (o in sources || Clear(fs, backupRoot, o)) {
      WalkedAroundBackupRoot(fs, sources, protected, o);
      NoOutputContains(fs, sources, protected, o);
      assert !(o <= protected[0].root);
      if backupRoot < o {
        FoldInside(fs, sources, protected, backupRoot, o);
      }
      PrefixOrEqual(backupRoot, o);
    }
    if structural != [] {
      StructuralDropped(fs, sources, backupRoot, structural, 0);
      assert structural[0] in structural;
      forall o | ETC <= o ensures o in folded <==> o in sources && o != ETC {
        PrefixOrEqual(ETC, o);
        if ETC < o {
          FoldInside(fs, sources, protected, ETC, o);
        }
      }
    }
  }

  // ---------- when splitting fails ----------

  // The walk meets a directory on the way to the root that cannot be listed.
  ghost predicate Blind(fs: FileSystem, root: Path, from: nat)
  {
    exists k :: from <= k < |root| && SpineListed(fs, root, from, k) && root[..k] !in fs.listing
  }

  lemma SplitFails(fs: FileSystem, source: Path, root: Path, rejectEqual: bool)
    ensures Split(fs, source, root, rejectEqual).Err? <==>
      (source == root && rejectEqual) || (source < root && Blind(fs, root, |source|))
    ensures Split(fs, source, root, rejectEqual).Err? ==>
      (Split(fs, source, root, rejectEqual).error == BackupRootRecursion <==> source == root)
  {
    hide Branch, SpineListed;
    if source < root {
      BranchFails(fs, root, |source|);
      BranchError(fs, root, |source|);
    }
  }

  lemma {:induction false} BranchError(fs: FileSystem, root: Path, depth: nat)
    requires depth < |root|
    ensures Branch(fs, root, depth).Err? ==> Branch(fs, root, depth).error == FilesystemError
    decreases |root| - depth, 1, 0
  {
    hide Entries, Branch, SortNames;
    BranchSteps(fs, root, depth);
    if root[..depth] in fs.listing {
      EntriesError(fs, root, depth, SortNames(fs.listing[root[..depth]]));
    }
  }

  lemma {:induction false} EntriesError(fs: FileSystem, root: Path, depth: nat, names: seq<string>)
    requires depth < |root|
    ensures Entries(fs, root, depth, names).Err? ==> Entries(fs, root, depth, names).error == FilesystemError
    decreases |root| - depth, 0, |names|
  {
    hide Branch, FileSystem.Keeps;
    if names != [] {
      EntriesError(fs, root, depth, names[..|names| - 1]);
      if depth + 1 < |root| {
        BranchError(fs, root, depth + 1);
      }
    }
  }

  lemma {:induction false} SplitAllErrs(fs: FileSystem, sources: seq<Path>, p: Protected)
    ensures SplitAll(fs, sources, p).Err? <==>
      exists s :: s in sources && Split(fs, s, p.root, p.rejectEqual).Err?
  {
    hide Split, SplitAll;
    SplitAllStep(fs, sources, p);
    if sources != [] {
      SplitAllErrs(fs, sources[..|sources| - 1], p);
      assert forall s :: s in sources <==> s in sources[..|sources| - 1] || s == sources[|sources| - 1];
    }
  }

  // After the split around the backup root, the splits around /etc cannot fail.
  lemma {:induction false} OnlyFirstFails(fs: FileSystem, sources: seq<Path>, protected: seq<Protected>)
    requires protected != []
    requires forall k :: 1 <= k < |protected| ==> protected[k] == Protected(ETC, false)
    ensures Fold(fs, sources, protected).Err? <==> SplitAll(fs, sources, protected[0]).Err?
    decreases |protected|
  {
    hide SplitAll, Fold, Blind;
    FoldSteps(fs, sources, protected);
    var init, last := protected[..|protected| - 1], protected[|protected| - 1];
    FoldSteps(fs, sources, init);
    if init != [] {
      assert init[0] == protected[0];
      OnlyFirstFails(fs, sources, init);
      if Fold(fs, sources, init).Ok? {
        var between := Fold(fs, sources, init).value;
        SplitAllErrs(fs, between, last);
        forall s | s in between ensures Split(fs, s, last.root, last.rejectEqual).Ok? {
          NoOutputContains(fs, sources, init, s);
          SplitFails(fs, s, ETC, false);
          assert s < ETC ==> s == [];
        }
      }
    }
  }

  // The plan is refused exactly if the backup root itself is a source, or a directory
  // between a source and the backup root cannot be listed.
  lemma AdmittedFails(fs: FileSystem, sources: seq<Path>, backupRoot: Path, structural: seq<Path>)
    requires forall r :: r in structural ==> r == ETC
    ensures Fold(fs, sources, ProtectedRoots(backupRoot, structural)).Err? <==>
      backupRoot in sources || exists s :: s in sources && s < backupRoot && Blind(fs, backupRoot, |s|)
  {
    hide Fold, SplitAll, Split, Blind;
    var protected := ProtectedRoots(backupRoot, structural);
    forall k | 1 <= k < |protected| ensures protected[k] == Protected(ETC, false) {
      assert structural[k - 1] in structural;
    }
    OnlyFirstFails(fs, sources, protected);
    SplitAllErrs(fs, sources, protected[0]);
    forall s | s in sources
      ensures Split(fs, s, backupRoot, true).Err? <==> s == backupRoot || (s < backupRoot && Blind(fs, backupRoot, |s|))
    {
      SplitFails(fs, s, backupRoot, true);
    }
  }

  lemma StructuralDropped(fs: FileSystem, sources: seq<Path>, backupRoot: Path, structural: seq<Path>, k: nat)
    requires k < |structural| && Fold(fs, sources, ProtectedRoots(backupRoot, structural)).Ok?
    ensures structural[k] !in Fold(fs, sources, ProtectedRoots(backupRoot, structural)).value
  {
    hide Fold;
    var protected := ProtectedRoots(backupRoot, structural);
    assert protected[k + 1].root == structural[k];
    if structural[k] in Fold(fs, sources, protected).value {
      NoOutputContains(fs, sources, protected, structural[k]);
    }
  }

  lemma PrefixOrEqual(a: Path, b: Path)
    ensures a <= b ==> a == b || a < b
  {
  }

  // An accepted source inside /etc is backed up although /etc is excluded structurally.
  lemma SourceInsideEtc(fs: FileSystem, sources: seq<Path>)
    requires sources == [["etc", "x"]]
    ensures var folded := Fold(fs, sources, ProtectedRoots(["backup"], [ETC]));
      folded.Ok? && Selection.Dedup(folded.value) == sources
  {
    var first, second := Protected(["backup"], true), Protected(ETC, false);
    var protected := ProtectedRoots(["backup"], [ETC]);
    assert protected == [first, second] && protected[..1] == [first] && [first][..0] == [] && sources[..0] == [];
    hide Branch;
    FoldSteps(fs, sources, []);
    FoldSteps(fs, sources, [first]);
    FoldSteps(fs, sources, protected);
    hide Fold;
    assert SplitAll(fs, sources, first) == Ok(sources) && SplitAll(fs, sources, second) == Ok(sources);
  }
}
