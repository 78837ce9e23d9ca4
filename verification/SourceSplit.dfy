// Splitting backup sources around the trees that must stay out of a snapshot.
module SourceSplit {
  import opened Strings
  import opened Paths
  import Listing
  import Selection

  datatype SplitError = BackupRootRecursion | FilesystemError

  // scandir answers for the keys of `listing`; `links` holds the real paths that
  // differ from the path itself.
  datatype FileSystem = FileSystem(listing: map<Path, seq<string>>, links: map<Path, Path>, symlinks: set<string>) {
    function Real(path: Path): Path
    {
      if path in links then links[path] else path
    }

    // Neither a hard system path nor a way back into the protected tree.
    predicate Keeps(root: Path, candidate: Path)
    {
      !Selection.IsSystemHard(Text(candidate), symlinks) && !(root <= Real(candidate))
    }

    ghost predicate Valid()
    {
      forall dir, i, j :: dir in listing && 0 <= i < j < |listing[dir]| ==> listing[dir][i] != listing[dir][j]
    }

    predicate Lists(dir: Path, name: string)
    {
      dir in listing && name in listing[dir]
    }

    // Every component is listed by the directory above it.
    ghost predicate Exists(path: Path)
    {
      forall k :: 0 <= k < |path| ==> Lists(path[..k], path[k])
    }
  }

  // ---------- sorted directory entries ----------

  function InsertName(names: seq<string>, name: string): (result: seq<string>)
    ensures multiset(result) == multiset(names) + multiset{name}
  {
    if names == [] || Listing.TextLess(name, names[0]) then [name] + names
    else
      assert names == [names[0]] + names[1..];
      [names[0]] + InsertName(names[1..], name)
  }

  function SortNames(names: seq<string>): (result: seq<string>)
    ensures multiset(result) == multiset(names)
  {
    if names == [] then []
    else
      assert names == names[..|names| - 1] + [names[|names| - 1]];
      InsertName(SortNames(names[..|names| - 1]), names[|names| - 1])
  }

  // sorted() over the names: by code points.
  ghost predicate NamesSorted(names: seq<string>)
  {
    forall i, j :: 0 <= i < j < |names| ==> names[i] == names[j] || Listing.Before(names[i], names[j])
  }

  lemma {:induction false} InsertNameSorted(names: seq<string>, name: string)
    requires NamesSorted(names)
    ensures NamesSorted(InsertName(names, name))
  {
    hide Listing.TextLess, Listing.Before;
    if names != [] {
      var head, tail := names[0], names[1..];
      Listing.TextTrichotomy(name, head);
      Listing.TextLessIsBefore(name, head);
      Listing.TextLessIsBefore(head, name);
      if Listing.TextLess(name, head) {
        forall j | 0 <= j < |names| ensures Listing.Before(name, names[j]) {
          if j > 0 && names[j] != head {
            BeforeTransitive(name, head, names[j]);
          }
        }
      } else {
        InsertNameSorted(tail, name);
        var rest := InsertName(tail, name);
        forall j | 0 <= j < |rest| ensures head == rest[j] || Listing.Before(head, rest[j]) {
          assert rest[j] in multiset(rest);
          if rest[j] != name {
            assert rest[j] in tail;
            var k :| 0 <= k < |tail| && tail[k] == rest[j];
            assert names[k + 1] == tail[k];
          }
        }
      }
    }
  }

  lemma BeforeTransitive(a: string, b: string, c: string)
    requires Listing.Before(a, b) && Listing.Before(b, c)
    ensures Listing.Before(a, c)
  {
    hide Listing.TextLess, Listing.Before;
    Listing.TextLessIsBefore(a, b);
    Listing.TextLessIsBefore(b, c);
    Listing.TextLessIsBefore(a, c);
    Listing.TextTransitive(a, b, c);
  }

  lemma {:induction false} SortNamesSorted(names: seq<string>)
    ensures NamesSorted(SortNames(names))
  {
    hide InsertName, NamesSorted;
    NothingSorted();
    if names != [] {
      SortNamesSorted(names[..|names| - 1]);
      InsertNameSorted(SortNames(names[..|names| - 1]), names[|names| - 1]);
    }
  }

  lemma NothingSorted()
    ensures NamesSorted([])
  {
  }

  ghost predicate NoRepeats(names: seq<string>)
  {
    forall i, j :: 0 <= i < j < |names| ==> names[i] != names[j]
  }

  lemma {:induction false} CountsOne(names: seq<string>)
    ensures NoRepeats(names) <==> forall name :: multiset(names)[name] <= 1
  {
    if names != [] {
      var init, last := names[..|names| - 1], names[|names| - 1];
      assert names == init + [last];
      CountsOne(init);
      if NoRepeats(names) {
        assert last !in init;
        assert multiset(init)[last] == 0;
      } else if NoRepeats(init) {
        assert last in init;
        assert multiset(names)[last] >= 2;
      } else {
        var name :| multiset(init)[name] > 1;
        assert multiset(names)[name] > 1;
      }
    }
  }

  lemma SortNamesFacts(names: seq<string>)
    ensures forall name :: name in SortNames(names) <==> name in names
    ensures NoRepeats(names) ==> NoRepeats(SortNames(names))
  {
    hide SortNames;
    CountsOne(names);
    CountsOne(SortNames(names));
    assert forall name :: name in SortNames(names) <==> name in multiset(SortNames(names));
  }

  // ---------- the walk along the spine ----------

  function Branch(fs: FileSystem, root: Path, depth: nat): Result<seq<Path>, SplitError>
    requires depth < |root|
    decreases |root| - depth, 1, 0
  {
    if root[..depth] !in fs.listing then Err(FilesystemError)
    else Entries(fs, root, depth, SortNames(fs.listing[root[..depth]]))
  }

  function Entries(fs: FileSystem, root: Path, depth: nat, names: seq<string>): Result<seq<Path>, SplitError>
    requires depth < |root|
    decreases |root| - depth, 0, |names|
  {
    if names == [] then Ok([])
    else
      var before := Entries(fs, root, depth, names[..|names| - 1]);
      if before.Err? then before else
      var here := EntryPaths(fs, root, depth, names[|names| - 1]);
      if here.Err? then here else Ok(before.value + here.value)
  }

  function EntryPaths(fs: FileSystem, root: Path, depth: nat, name: string): Result<seq<Path>, SplitError>
    requires depth < |root|
    decreases |root| - depth, 0, 0
  {
    var candidate := root[..depth] + [name];
    if name == root[depth] then if depth + 1 == |root| then Ok([]) else Branch(fs, root, depth + 1)
    else if fs.Keeps(root, candidate) then Ok([candidate])
    else Ok([])
  }

  function Split(fs: FileSystem, source: Path, root: Path, rejectEqual: bool): Result<seq<Path>, SplitError>
  {
    if source == root then if rejectEqual then Err(BackupRootRecursion) else Ok([])
    else if !(source < root) then Ok([source])
    else Branch(fs, root, |source|)
  }

  // _split_source_around_excluded_root: the nested walk appends to one list.
  class Splitter {
    const fs: FileSystem
    const root: Path
    var result: seq<Path>

    constructor (fs: FileSystem, root: Path)
      ensures this.fs == fs && this.root == root && result == []
    {
      this.fs, this.root, result := fs, root, [];
    }

    method WalkBranch(current: Path) returns (error: Option<SplitError>)
      requires current < root
      modifies this
      ensures error.Some? <==> Branch(fs, root, |current|).Err?
      ensures error.Some? ==> error.value == Branch(fs, root, |current|).error
      ensures error.None? ==> result == old(result) + Branch(fs, root, |current|).value
      decreases |root| - |current|
    {
      hide FileSystem.Keeps, SortNames, Branch, Entries;
      var depth := |current|;
      assert current == root[..depth];
      BranchSteps(fs, root, depth);
      var next := root[depth];
      if current !in fs.listing {
        return Some(FilesystemError);
      }
      var names := SortNames(fs.listing[current]);
      for i := 0 to |names|
        invariant Entries(fs, root, depth, names[..i]).Ok?
        invariant result == old(result) + Entries(fs, root, depth, names[..i]).value
      {
        EntriesStep(fs, root, depth, names, i);
        EntriesFail(fs, root, depth, names, i + 1);
        var candidate := current + [names[i]];
        if names[i] == next {
          if candidate != root {
            assert candidate == root[..depth + 1];
            error := WalkBranch(candidate);
            if error.Some? {
              return;
            }
          } else {
            assert |candidate| == |root|;
          }
        } else if fs.Keeps(root, candidate) {
          result := result + [candidate];
        }
      }
      assert names[..|names|] == names;
      error := None;
    }
  }

  lemma BranchSteps(fs: FileSystem, root: Path, depth: nat)
    requires depth < |root|
    ensures Branch(fs, root, depth) == if root[..depth] !in fs.listing then Err(FilesystemError)
      else Entries(fs, root, depth, SortNames(fs.listing[root[..depth]]))
    ensures Entries(fs, root, depth, []) == Ok([])
  {
  }

  lemma EntriesStep(fs: FileSystem, root: Path, depth: nat, names: seq<string>, i: nat)
    requires depth < |root| && i < |names|
    ensures var before, here := Entries(fs, root, depth, names[..i]), EntryPaths(fs, root, depth, names[i]);
      Entries(fs, root, depth, names[..i + 1]) ==
        if before.Err? then before else if here.Err? then here else Ok(before.value + here.value)
  {
    assert names[..i + 1][..i] == names[..i];
    hide EntryPaths;
  }

  // The first error ends the walk.
  lemma {:induction false} EntriesFail(fs: FileSystem, root: Path, depth: nat, names: seq<string>, i: nat)
    requires depth < |root| && i <= |names|
    ensures Entries(fs, root, depth, names[..i]).Err? ==>
      Entries(fs, root, depth, names) == Entries(fs, root, depth, names[..i])
    decreases |names| - i
  {
    hide Entries, EntryPaths;
    if i < |names| {
      EntriesStep(fs, root, depth, names, i);
      EntriesFail(fs, root, depth, names, i + 1);
    } else {
      assert names[..i] == names;
    }
  }

  method SplitSource(fs: FileSystem, source: Path, root: Path, rejectEqual: bool)
    returns (result: Result<seq<Path>, SplitError>)
    ensures result == Split(fs, source, root, rejectEqual)
  {
    hide Branch;
    if source == root {
      return if rejectEqual then Err(BackupRootRecursion) else Ok([]);
    }
    if !(source < root) {
      return Ok([source]);
    }
    var splitter := new Splitter(fs, root);
    var error := splitter.WalkBranch(source);
    assert error.None? ==> splitter.result == Branch(fs, root, |source|).value;
    return if error.Some? then Err(error.value) else Ok(splitter.result);
  }

  // ---------- folding over the protected roots ----------

  datatype Protected = Protected(root: Path, rejectEqual: bool)

  function SplitAll(fs: FileSystem, sources: seq<Path>, p: Protected): Result<seq<Path>, SplitError>
  {
    if sources == [] then Ok([])
    else
      var before := SplitAll(fs, sources[..|sources| - 1], p);
      if before.Err? then before else
      var here := Split(fs, sources[|sources| - 1], p.root, p.rejectEqual);
      if here.Err? then here else Ok(before.value + here.value)
  }

  function Fold(fs: FileSystem, sources: seq<Path>, protected: seq<Protected>): Result<seq<Path>, SplitError>
  {
    if protected == [] then Ok(sources)
    else
      var before := Fold(fs, sources, protected[..|protected| - 1]);
      if before.Err? then before else SplitAll(fs, before.value, protected[|protected| - 1])
  }

  function ProtectedRoots(backupRoot: Path, structural: seq<Path>): (roots: seq<Protected>)
    ensures |roots| == |structural| + 1
    ensures roots[0].root == backupRoot && forall k :: 0 <= k < |structural| ==> roots[k + 1].root == structural[k]
  {
    [Protected(backupRoot, true)] +
    seq(|structural|, k requires 0 <= k < |structural| => Protected(structural[k], false))
  }

  lemma {:induction false} SplitAllFails(fs: FileSystem, sources: seq<Path>, p: Protected, i: nat)
    requires i <= |sources| && SplitAll(fs, sources[..i], p).Err?
    ensures SplitAll(fs, sources, p) == SplitAll(fs, sources[..i], p)
    decreases |sources| - i
  {
    hide Split;
    if i < |sources| {
      assert sources[..i + 1][..i] == sources[..i];
      SplitAllFails(fs, sources, p, i + 1);
    } else {
      assert sources[..i] == sources;
    }
  }

  lemma {:induction false} FoldFails(fs: FileSystem, sources: seq<Path>, protected: seq<Protected>, i: nat)
    requires i <= |protected| && Fold(fs, sources, protected[..i]).Err?
    ensures Fold(fs, sources, protected) == Fold(fs, sources, protected[..i])
    decreases |protected| - i
  {
    hide SplitAll;
    if i < |protected| {
      assert protected[..i + 1][..i] == protected[..i];
      FoldFails(fs, sources, protected, i + 1);
    } else {
      assert protected[..i] == protected;
    }
  }

  method SplitSources(fs: FileSystem, sources: seq<Path>, p: Protected) returns (result: Result<seq<Path>, SplitError>)
    ensures result == SplitAll(fs, sources, p)
  {
    hide Split;
    var next := [];
    for i := 0 to |sources|
      invariant SplitAll(fs, sources[..i], p) == Ok(next)
    {
      assert sources[..i + 1][..i] == sources[..i];
      var here := SplitSource(fs, sources[i], p.root, p.rejectEqual);
      if here.Err? {
        SplitAllFails(fs, sources, p, i + 1);
        return Err(here.error);
      }
      next := next + here.value;
    }
    assert sources[..|sources|] == sources;
    return Ok(next);
  }

  // _effective_filesystem_sources: around the backup root first, then around
  // each structural exclusion, and finally without repetitions.
  method EffectiveFilesystemSources(fs: FileSystem, sources: seq<Path>, backupRoot: Path, structural: seq<Path>)
    returns (result: Result<seq<Path>, SplitError>)
    ensures var folded := Fold(fs, sources, ProtectedRoots(backupRoot, structural));
      result == if folded.Err? then folded else Ok(Selection.Dedup(folded.value))
  {
    hide SplitAll;
    var protected := ProtectedRoots(backupRoot, structural);
    var current := sources;
    for i := 0 to |protected|
      invariant Fold(fs, sources, protected[..i]) == Ok(current)
    {
      assert protected[..i + 1][..i] == protected[..i];
      var next := SplitSources(fs, current, protected[i]);
      if next.Err? {
        FoldFails(fs, sources, protected, i + 1);
        return next;
      }
      current := next.value;
    }
    assert protected[..|protected|] == protected;
    return Ok(Selection.Dedup(current));
  }
}
