// What a size scan means: a flat sum over the leaves of the tree, rows that add
// up, and when the cached rows may stand in for a new scan.
module ScanTheorems {
  import opened Strings
  import opened Paths
  import opened SizeScanner

  // ---------- the flat specification ----------

  // A counted file, its names below the scan root, and for each directory on the
  // way down whether it carries a valid cache tag.
  datatype Leaf = Leaf(rel: Path, tags: seq<bool>, size: nat)

  // A file is its own leaf; the leaves of a directory lie below it.
  ghost predicate WellFormed(leaves: seq<Leaf>, below: bool)
  {
    forall k :: 0 <= k < |leaves| ==> |leaves[k].tags| == |leaves[k].rel| && (leaves[k].rel != [] <==> below)
  }

  function Lift(name: string, tagged: bool, leaf: Leaf): Leaf
  {
    Leaf([name] + leaf.rel, [tagged] + leaf.tags, leaf.size)
  }

  function Under(name: string, tagged: bool, leaves: seq<Leaf>): (lifted: seq<Leaf>)
    ensures |lifted| == |leaves|
    ensures forall k :: 0 <= k < |leaves| ==> lifted[k] == Lift(name, tagged, leaves[k])
  {
    seq(|leaves|, k requires 0 <= k < |leaves| => Lift(name, tagged, leaves[k]))
  }

  // Every file and symbolic link of the tree, excluded or not.
  function Leaves(node: Node): seq<Leaf>
    decreases node, 1, 0
  {
    if node.Gone? then []
    else if node.Directory? then if node.listable then KidLeaves(node, |node.children|) else []
    else [Leaf([], [], if node.File? then node.size else 0)]
  }

  function KidLeaves(dir: Node, upTo: nat): seq<Leaf>
    requires dir.Directory? && upTo <= |dir.children|
    decreases dir, 0, upTo
  {
    if upTo == 0 then []
    else
      KidLeaves(dir, upTo - 1) + ChildLeaves(dir.tagged, dir.children[upTo - 1])
  }

  function ChildLeaves(tagged: bool, child: Child): seq<Leaf>
    decreases child.node, 2, 0
  {
    if child.node.Special? then [] else Under(child.name, tagged, Leaves(child.node))
  }

  lemma {:induction false} LeavesWellFormed(node: Node)
    ensures WellFormed(Leaves(node), node.Directory?)
    decreases node, 1, 0
  {
    hide KidLeaves;
    if node.Directory? {
      KidLeavesWellFormed(node, |node.children|);
    }
  }

  lemma {:induction false} KidLeavesWellFormed(dir: Node, upTo: nat)
    requires dir.Directory? && upTo <= |dir.children|
    ensures WellFormed(KidLeaves(dir, upTo), true)
    decreases dir, 0, upTo
  {
    hide Leaves, Under;
    if upTo > 0 {
      var child := dir.children[upTo - 1];
      KidLeavesWellFormed(dir, upTo - 1);
      LeavesWellFormed(child.node);
    }
  }

  // Nothing between the scan root and the leaf is hard excluded.
  ghost predicate Physical(env: Environment, path: Path, leaf: Leaf)
  {
    forall k :: 1 <= k <= |leaf.rel| ==> !env.Hard(path + leaf.rel[..k])
  }

  // No node below the scan root is excluded, and a tagged directory counts only
  // its own tag.
  ghost predicate Effective(env: Environment, path: Path, leaf: Leaf)
  {
    NoneExcluded(env, path, leaf.rel) && TagsAllow(leaf)
  }

  ghost predicate NoneExcluded(env: Environment, path: Path, rel: Path)
  {
    forall k :: 1 <= k <= |rel| ==> !env.Excluded(path + rel[..k])
  }

  ghost predicate TagsAllow(leaf: Leaf)
  {
    forall k: nat :: TagAllows(leaf, k)
  }

  ghost predicate TagAllows(leaf: Leaf, k: nat)
  {
    k < |leaf.tags| == |leaf.rel| && leaf.tags[k] ==> k == |leaf.rel| - 1 && leaf.rel[k] == CACHEDIR_TAG_NAME
  }

  ghost function Weight(env: Environment, path: Path, leaf: Leaf, enabled: bool): Totals
  {
    if !Physical(env, path, leaf) then ZERO
    else if enabled && Effective(env, path, leaf) then Totals(leaf.size, 1, leaf.size, 1)
    else Totals(0, 0, leaf.size, 1)
  }

  ghost function Tally(env: Environment, path: Path, leaves: seq<Leaf>, enabled: bool): Totals
  {
    if leaves == [] then ZERO
    else Add(Tally(env, path, leaves[..|leaves| - 1], enabled), Weight(env, path, leaves[|leaves| - 1], enabled))
  }

  // The four sums are sums.
  lemma TallySums(env: Environment, path: Path, leaves: seq<Leaf>, leaf: Leaf, enabled: bool)
    ensures var before, after := Tally(env, path, leaves, enabled), Tally(env, path, leaves + [leaf], enabled);
      var counted, present := enabled && Effective(env, path, leaf) && Physical(env, path, leaf),
                              Physical(env, path, leaf);
      after.size == before.size + (if counted then leaf.size else 0) &&
      after.count == before.count + (if counted then 1 else 0) &&
      after.totalSize == before.totalSize + (if present then leaf.size else 0) &&
      after.totalCount == before.totalCount + (if present then 1 else 0)
    ensures Tally(env, path, [], enabled) == Totals(0, 0, 0, 0)
  {
    hide Physical, Effective;
    assert (leaves + [leaf])[..|leaves|] == leaves;
  }

  lemma AddLaws(a: Totals, b: Totals, c: Totals)
    ensures Add(Add(a, b), c) == Add(a, Add(b, c)) && Add(a, ZERO) == a && Add(ZERO, a) == a
  {
  }

  lemma TallyEmpty(env: Environment, path: Path, enabled: bool)
    ensures Tally(env, path, [], enabled) == ZERO
  {
  }

  lemma TallySnoc(env: Environment, path: Path, leaves: seq<Leaf>, leaf: Leaf, enabled: bool)
    ensures Tally(env, path, leaves + [leaf], enabled) ==
      Add(Tally(env, path, leaves, enabled), Weight(env, path, leaf, enabled))
  {
    hide Weight, Add;
    assert (leaves + [leaf])[..|leaves|] == leaves;
  }

  lemma {:induction false} TallyConcat(env: Environment, path: Path, a: seq<Leaf>, b: seq<Leaf>, enabled: bool)
    ensures Tally(env, path, a + b, enabled) == Add(Tally(env, path, a, enabled), Tally(env, path, b, enabled))
  {
    hide Weight, Tally, Add;
    TallyEmpty(env, path, enabled);
    if b == [] {
      assert a + b == a;
      AddLaws(Tally(env, path, a, enabled), ZERO, ZERO);
    } else {
      var init, last := b[..|b| - 1], b[|b| - 1];
      TallyConcat(env, path, a, init, enabled);
      AddLaws(Tally(env, path, a, enabled), Tally(env, path, init, enabled), Weight(env, path, last, enabled));
      TallySnoc(env, path, a + init, last, enabled);
      TallySnoc(env, path, init, last, enabled);
      assert a + b == (a + init) + [last] && b == init + [last];
    }
  }

  lemma LiftedPath(path: Path, name: string, tagged: bool, leaf: Leaf, k: nat)
    requires 1 <= k <= |leaf.rel| + 1
    ensures path + Lift(name, tagged, leaf).rel[..k] == (path + [name]) + leaf.rel[..k - 1]
  {
    assert ([name] + leaf.rel)[..k] == [name] + leaf.rel[..k - 1];
  }

  lemma PhysicalUnder(env: Environment, path: Path, name: string, tagged: bool, leaf: Leaf)
    ensures Physical(env, path, Lift(name, tagged, leaf)) <==>
      !env.Hard(path + [name]) && Physical(env, path + [name], leaf)
  {
    hide Environment.Hard;
    var below, lifted := path + [name], Lift(name, tagged, leaf);
    LiftedPath(path, name, tagged, leaf, 1);
    assert below + leaf.rel[..0] == below;
    if Physical(env, path, lifted) {
      forall k | 1 <= k <= |leaf.rel| ensures !env.Hard(below + leaf.rel[..k]) {
        LiftedPath(path, name, tagged, leaf, k + 1);
      }
    }
    if !env.Hard(below) && Physical(env, below, leaf) {
      forall k | 1 <= k <= |lifted.rel| ensures !env.Hard(path + lifted.rel[..k]) {
        LiftedPath(path, name, tagged, leaf, k);
      }
    }
  }

  lemma ExcludedUnder(env: Environment, path: Path, name: string, tagged: bool, leaf: Leaf)
    ensures NoneExcluded(env, path, Lift(name, tagged, leaf).rel) <==>
      !env.Excluded(path + [name]) && NoneExcluded(env, path + [name], leaf.rel)
  {
    hide Environment.Excluded;
    var below, lifted := path + [name], Lift(name, tagged, leaf);
    LiftedPath(path, name, tagged, leaf, 1);
    assert below + leaf.rel[..0] == below;
    if NoneExcluded(env, path, lifted.rel) {
      forall k | 1 <= k <= |leaf.rel| ensures !env.Excluded(below + leaf.rel[..k]) {
        LiftedPath(path, name, tagged, leaf, k + 1);
      }
    }
    if !env.Excluded(below) && NoneExcluded(env, below, leaf.rel) {
      forall k | 1 <= k <= |lifted.rel| ensures !env.Excluded(path + lifted.rel[..k]) {
        LiftedPath(path, name, tagged, leaf, k);
      }
    }
  }

  lemma TagsUnder(name: string, tagged: bool, leaf: Leaf)
    requires |leaf.tags| == |leaf.rel|
    ensures TagsAllow(Lift(name, tagged, leaf)) <==>
      (tagged ==> leaf.rel == [] && name == CACHEDIR_TAG_NAME) && TagsAllow(leaf)
  {
    var lifted := Lift(name, tagged, leaf);
    if TagsAllow(lifted) {
      assert TagAllows(lifted, 0);
      forall k: nat ensures TagAllows(leaf, k) {
        assert TagAllows(lifted, k + 1);
      }
    }
    if (tagged ==> leaf.rel == [] && name == CACHEDIR_TAG_NAME) && TagsAllow(leaf) {
      forall k: nat ensures TagAllows(lifted, k) {
        assert k > 0 ==> TagAllows(leaf, k - 1);
      }
    }
  }

  // The weight of a leaf seen from the parent directory.
  lemma WeightUnder(env: Environment, path: Path, tagged: bool, child: Child, leaf: Leaf, enabled: bool)
    requires |leaf.tags| == |leaf.rel| && (child.node.Directory? <==> leaf.rel != [])
    ensures Weight(env, path, Lift(child.name, tagged, leaf), enabled) ==
      if env.Hard(path + [child.name]) then ZERO
      else Weight(env, path + [child.name], leaf, ChildEnabled(env, path, tagged, child, enabled))
  {
    PhysicalUnder(env, path, child.name, tagged, leaf);
    ExcludedUnder(env, path, child.name, tagged, leaf);
    TagsUnder(child.name, tagged, leaf);
    hide Environment.Hard, Environment.Excluded, Physical, NoneExcluded, TagsAllow;
  }

  lemma {:induction false} TallyUnder(
    env: Environment, path: Path, tagged: bool, child: Child, leaves: seq<Leaf>, enabled: bool)
    requires WellFormed(leaves, child.node.Directory?)
    ensures Tally(env, path, Under(child.name, tagged, leaves), enabled) ==
      if env.Hard(path + [child.name]) then ZERO
      else Tally(env, path + [child.name], leaves, ChildEnabled(env, path, tagged, child, enabled))
  {
    hide Weight, Tally, Add, Environment.Hard, ChildEnabled;
    var below, inner := path + [child.name], ChildEnabled(env, path, tagged, child, enabled);
    TallyEmpty(env, path, enabled);
    TallyEmpty(env, below, inner);
    if leaves == [] {
      assert Under(child.name, tagged, leaves) == [];
    } else {
      var init, last := leaves[..|leaves| - 1], leaves[|leaves| - 1];
      TallyUnder(env, path, tagged, child, init, enabled);
      WeightUnder(env, path, tagged, child, last, enabled);
      UnderSnoc(child.name, tagged, init, last);
      assert leaves == init + [last];
      TallySnoc(env, path, Under(child.name, tagged, init), Lift(child.name, tagged, last), enabled);
      TallySnoc(env, below, init, last, inner);
      AddLaws(ZERO, ZERO, ZERO);
    }
  }

  lemma UnderSnoc(name: string, tagged: bool, leaves: seq<Leaf>, last: Leaf)
    ensures Under(name, tagged, leaves + [last]) == Under(name, tagged, leaves) + [Lift(name, tagged, last)]
  {
  }

  lemma {:induction false} VisitIsTally(env: Environment, path: Path, node: Node, enabled: bool)
    ensures Visit(env, path, node, enabled).totals == Tally(env, path, Leaves(node), enabled)
    decreases node, 1, 0
  {
    hide Tally, Visit, VisitKids, KidLeaves, Weight;
    TallyEmpty(env, path, enabled);
    VisitCases(env, path, node, enabled);
    if node.Directory? {
      KidsAreTally(env, path, node, |node.children|, enabled);
    } else if !node.Gone? {
      LeafWeight(env, path, if node.File? then node.size else 0, enabled);
    }
  }

  lemma LeafWeight(env: Environment, path: Path, size: nat, enabled: bool)
    ensures Tally(env, path, [Leaf([], [], size)], enabled) == LeafTotals(size, enabled)
  {
    assert [Leaf([], [], size)][..0] == [];
  }

  lemma NoLeaves(node: Node)
    ensures node.Gone? ==> Leaves(node) == []
  {
  }

  lemma ChildIsTally(env: Environment, path: Path, tagged: bool, child: Child, enabled: bool)
    requires var e := ChildEnabled(env, path, tagged, child, enabled);
      Visit(env, path + [child.name], child.node, e).totals == Tally(env, path + [child.name], Leaves(child.node), e)
    ensures VisitChild(env, path, tagged, child, enabled).totals ==
      Tally(env, path, ChildLeaves(tagged, child), enabled)
  {
    hide Environment.Hard, ChildEnabled, Tally, Visit, Leaves;
    NoLeaves(child.node);
    TallyEmpty(env, path, enabled);
    LeavesWellFormed(child.node);
    TallyUnder(env, path, tagged, child, Leaves(child.node), enabled);
    assert Leaves(child.node) == [] ==> Under(child.name, tagged, Leaves(child.node)) == [];
  }

  lemma KidLeavesStep(dir: Node, upTo: nat)
    requires dir.Directory?
    ensures KidLeaves(dir, 0) == []
    ensures 0 < upTo <= |dir.children| ==>
      KidLeaves(dir, upTo) == KidLeaves(dir, upTo - 1) + ChildLeaves(dir.tagged, dir.children[upTo - 1])
  {
    hide ChildLeaves;
  }

  lemma {:induction false} KidsAreTally(env: Environment, path: Path, dir: Node, upTo: nat, enabled: bool)
    requires dir.Directory? && upTo <= |dir.children|
    ensures VisitKids(env, path, dir, upTo, enabled).totals == Tally(env, path, KidLeaves(dir, upTo), enabled)
    decreases dir, 0, upTo
  {
    hide *;
    TallyEmpty(env, path, enabled);
    VisitCases(env, path, dir, enabled);
    KidLeavesStep(dir, upTo);
    if upTo > 0 {
      var child := dir.children[upTo - 1];
      KidsStep(env, path, dir, upTo - 1, enabled);
      KidsAreTally(env, path, dir, upTo - 1, enabled);
      VisitIsTally(env, path + [child.name], child.node, ChildEnabled(env, path, dir.tagged, child, enabled));
      ChildIsTally(env, path, dir.tagged, child, enabled);
      TallyConcat(env, path, KidLeaves(dir, upTo - 1), ChildLeaves(dir.tagged, child), enabled);
    }
  }

  // A forced scan is the flat sum over the leaves of the tree.
  lemma ScanIsFlatSum(env: Environment, table: map<Path, Row>, path: Path, node: Node)
    ensures env.Hard(path) ==> ScanAnswer(env, table, path, node, true) == (0, 0)
    ensures !env.Hard(path) ==>
      var sum := Tally(env, path, Leaves(node), !env.Excluded(path));
      ScanAnswer(env, table, path, node, true) == (sum.size, sum.count)
  {
    VisitIsTally(env, path, node, !env.Excluded(path));
  }

  // ---------- effective and physical totals ----------

  lemma {:induction false} TallyBounds(env: Environment, path: Path, leaves: seq<Leaf>, enabled: bool)
    ensures var sum := Tally(env, path, leaves, enabled);
      sum.size <= sum.totalSize && sum.count <= sum.totalCount && (!enabled ==> sum.size == sum.count == 0)
  {
    if leaves != [] {
      TallyBounds(env, path, leaves[..|leaves| - 1], enabled);
    }
  }

  lemma {:induction false} TallyIgnoresPatterns(
    a: Environment, b: Environment, path: Path, leaves: seq<Leaf>, enabledA: bool, enabledB: bool)
    requires a.backupRoot == b.backupRoot && a.symlinks == b.symlinks
    ensures Tally(a, path, leaves, enabledA).totalSize == Tally(b, path, leaves, enabledB).totalSize
    ensures Tally(a, path, leaves, enabledA).totalCount == Tally(b, path, leaves, enabledB).totalCount
  {
    if leaves != [] {
      TallyIgnoresPatterns(a, b, path, leaves[..|leaves| - 1], enabledA, enabledB);
      var last := leaves[|leaves| - 1];
      assert forall p: Path :: a.Hard(p) == b.Hard(p);
      hide Environment.Hard, Environment.Excluded;
      assert Physical(a, path, last) == Physical(b, path, last);
    }
  }

  // Effective sizes never exceed physical ones, nothing disabled is counted as
  // effective, and the physical totals do not depend on the exclusion profile.
  lemma PhysicalTotals(a: Environment, b: Environment, path: Path, node: Node, enabledA: bool, enabledB: bool)
    requires a.backupRoot == b.backupRoot && a.symlinks == b.symlinks
    ensures var left, right := Visit(a, path, node, enabledA).totals, Visit(b, path, node, enabledB).totals;
      left.size <= left.totalSize && left.count <= left.totalCount &&
      (!enabledA ==> left.size == left.count == 0) &&
      left.totalSize == right.totalSize && left.totalCount == right.totalCount
  {
    hide Visit, Leaves, Tally;
    VisitIsTally(a, path, node, enabledA);
    VisitIsTally(b, path, node, enabledB);
    TallyBounds(a, path, Leaves(node), enabledA);
    TallyIgnoresPatterns(a, b, path, Leaves(node), enabledA, enabledB);
  }
}
