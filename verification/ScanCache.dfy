// The rows a forced scan leaves in the cache: they add up, there is one for each
// visited path, and later scans may answer from them exactly when said here.
module ScanCache {
  import opened Strings
  import opened Patterns
  import opened Paths
  import opened SizeScanner
  import ScanTheorems

  ghost predicate WellNamed(node: Node)
  {
    node.Directory? ==>
      (forall i, j :: 0 <= i < j < |node.children| ==> node.children[i].name != node.children[j].name) &&
      forall i :: 0 <= i < |node.children| ==> WellNamed(node.children[i].node)
  }

  function Find(children: seq<Child>, name: string): (found: Option<nat>)
    ensures found.Some? ==> found.value < |children| && children[found.value].name == name
  {
    if children == [] then None
    else if children[|children| - 1].name == name then Some(|children| - 1)
    else Find(children[..|children| - 1], name)
  }

  // A node the scan visits, and whether it counts towards the effective size there.
  datatype Reached = Reached(node: Node, enabled: bool)

  function Reach(env: Environment, path: Path, node: Node, enabled: bool, rel: Path): Option<Reached>
    decreases |rel|
  {
    if rel == [] then Some(Reached(node, enabled))
    else if !node.Directory? || !node.listable || Find(node.children, rel[0]).None? then None
    else
      var child := node.children[Find(node.children, rel[0]).value];
      if child.node.Gone? || child.node.Special? || env.Hard(path + [rel[0]]) then None
      else Reach(env, path + [rel[0]], child.node, ChildEnabled(env, path, node.tagged, child, enabled), rel[1..])
  }

  // ---------- which rows a scan writes ----------

  lemma {:induction false} KidRow(env: Environment, path: Path, dir: Node, upTo: nat, enabled: bool, row: Row)
    returns (i: nat)
    requires dir.Directory? && upTo <= |dir.children|
    requires row in VisitKids(env, path, dir, upTo, enabled).rows
    ensures i < upTo && row in VisitChild(env, path, dir.tagged, dir.children[i], enabled).rows
  {
    hide *;
    i := if upTo > 0 then upTo - 1 else 0;
    VisitCases(env, path, dir, enabled);
    if upTo > 0 {
      KidsStep(env, path, dir, upTo - 1, enabled);
      if row in VisitKids(env, path, dir, upTo - 1, enabled).rows {
        i := KidRow(env, path, dir, upTo - 1, enabled, row);
      }
    }
  }

  lemma {:induction false} KidRowKept(
    env: Environment, path: Path, dir: Node, upTo: nat, enabled: bool, i: nat, row: Row)
    requires dir.Directory? && i < upTo <= |dir.children|
    requires row in VisitChild(env, path, dir.tagged, dir.children[i], enabled).rows
    ensures row in VisitKids(env, path, dir, upTo, enabled).rows
  {
    hide *;
    KidsStep(env, path, dir, upTo - 1, enabled);
    if i < upTo - 1 {
      KidRowKept(env, path, dir, upTo - 1, enabled, i, row);
    }
  }

  lemma {:induction false} RowBelow(env: Environment, path: Path, node: Node, enabled: bool, row: Row)
    requires row in Visit(env, path, node, enabled).rows
    ensures path <= row.path
    decreases node
  {
    hide Visit, VisitKids, ChildEnabled, Environment.Hard;
    VisitCases(env, path, node, enabled);
    if node.Directory? && row.path != path {
      var i := KidRow(env, path, node, |node.children|, enabled, row);
      ChildRowBelow(env, path, node, i, enabled, row);
    }
  }

  lemma ChildRowBelow(env: Environment, path: Path, dir: Node, i: nat, enabled: bool, row: Row)
    requires dir.Directory? && i < |dir.children|
    requires row in VisitChild(env, path, dir.tagged, dir.children[i], enabled).rows
    ensures path + [dir.children[i].name] <= row.path
    decreases dir, 0
  {
    hide Visit, ChildEnabled, Environment.Hard;
    var child := dir.children[i];
    RowBelow(env, path + [child.name], child.node, ChildEnabled(env, path, dir.tagged, child, enabled), row);
  }

  // The rows hold this row once and no other row for its path.
  ghost predicate Holds(rows: seq<Row>, row: Row)
  {
    multiset(rows)[row] == 1 && forall other :: other in rows && other.path == row.path ==> other == row
  }

  ghost function ReachedRow(env: Environment, path: Path, reached: Reached): Row
  {
    env.RowFor(path, Visit(env, path, reached.node, reached.enabled).totals)
  }

  lemma OwnRow(env: Environment, path: Path, node: Node, enabled: bool)
    requires !node.Gone?
    ensures Holds(Visit(env, path, node, enabled).rows, ReachedRow(env, path, Reached(node, enabled)))
  {
    hide Visit, VisitKids, Environment.Hard, VisitChild;
    VisitCases(env, path, node, enabled);
    var own := ReachedRow(env, path, Reached(node, enabled));
    var inner :=
      if node.Directory? && node.listable then VisitKids(env, path, node, |node.children|, enabled).rows else [];
    assert Visit(env, path, node, enabled).rows == inner + [own];
    forall other | other in inner ensures other.path != path {
      var i := KidRow(env, path, node, |node.children|, enabled, other);
      ChildRowBelow(env, path, node, i, enabled, other);
    }
    assert own !in inner;
  }

  // Every visited path has exactly one row, with the totals of its own visit.
  lemma {:induction false} VisitedOnce(env: Environment, path: Path, node: Node, enabled: bool, rel: Path)
    requires WellNamed(node) && !node.Gone?
    requires Reach(env, path, node, enabled, rel).Some?
    ensures Holds(Visit(env, path, node, enabled).rows,
      ReachedRow(env, path + rel, Reach(env, path, node, enabled, rel).value))
    decreases |rel|
  {
    hide Visit, VisitKids, Environment.Hard, ChildEnabled, ReachedRow;
    if rel == [] {
      assert path + rel == path;
      OwnRow(env, path, node, enabled);
    } else {
      var i := Find(node.children, rel[0]).value;
      var child := node.children[i];
      var below := path + [rel[0]];
      var e := ChildEnabled(env, path, node.tagged, child, enabled);
      VisitedOnce(env, below, child.node, e, rel[1..]);
      assert path + rel == below + rel[1..];
      ChildRowIsOnly(env, path, node, i, enabled,
          ReachedRow(env, path + rel, Reach(env, path, node, enabled, rel).value));
    }
  }

  // A row held by one child is held by the directory.
  lemma ChildRowIsOnly(env: Environment, path: Path, dir: Node, i: nat, enabled: bool, row: Row)
    requires WellNamed(dir) && dir.Directory? && dir.listable && i < |dir.children|
    requires Holds(VisitChild(env, path, dir.tagged, dir.children[i], enabled).rows, row)
    ensures Holds(Visit(env, path, dir, enabled).rows, row)
  {
    hide Visit, VisitKids, VisitChild, Environment.Hard;
    VisitCases(env, path, dir, enabled);
    ChildRowBelow(env, path, dir, i, enabled, row);
    KidsCount(env, path, dir, |dir.children|, i, enabled, row);
    var kids := VisitKids(env, path, dir, |dir.children|, enabled).rows;
    forall other | other in Visit(env, path, dir, enabled).rows && other.path == row.path ensures other == row {
      if other in kids {
        var j := KidRow(env, path, dir, |dir.children|, enabled, other);
        ChildRowBelow(env, path, dir, j, enabled, other);
        assert (path + [dir.children[i].name])[|path|] == row.path[|path|] == (path + [dir.children[j].name])[|path|];
      }
    }
  }

  // Only the child above it contributes a row.
  lemma {:induction false} KidsCount(
    env: Environment, path: Path, dir: Node, upTo: nat, i: nat, enabled: bool, row: Row)
    requires WellNamed(dir) && dir.Directory? && upTo <= |dir.children| && i < |dir.children|
    requires path + [dir.children[i].name] <= row.path
    ensures multiset(VisitKids(env, path, dir, upTo, enabled).rows)[row] ==
      if i < upTo then multiset(VisitChild(env, path, dir.tagged, dir.children[i], enabled).rows)[row] else 0
    decreases upTo
  {
    hide *;
    NamesDiffer(dir, upTo - 1, i);
    VisitCases(env, path, dir, enabled);
    if upTo > 0 {
      var k := upTo - 1;
      var here := VisitChild(env, path, dir.tagged, dir.children[k], enabled).rows;
      KidsStep(env, path, dir, k, enabled);
      KidsCount(env, path, dir, k, i, enabled, row);
      if k != i && row in here {
        ChildRowBelow(env, path, dir, k, enabled, row);
        SiblingsApart(path, dir.children[k].name, dir.children[i].name, row.path);
      }
    }
  }

  lemma SiblingsApart(path: Path, a: string, b: string, below: Path)
    requires path + [a] <= below && path + [b] <= below
    ensures a == b
  {
    assert (path + [a])[|path|] == below[|path|] == (path + [b])[|path|];
  }

  lemma {:induction false} UpsertHolds(table: map<Path, Row>, rows: seq<Row>, row: Row)
    requires forall other :: other in rows && other.path == row.path ==> other == row
    ensures row in rows ==> row.path in Upsert(table, rows) && Upsert(table, rows)[row.path] == row
    ensures row !in rows ==> (row.path in Upsert(table, rows) <==> row.path in table)
    ensures row !in rows && row.path in table ==> Upsert(table, rows)[row.path] == table[row.path]
  {
    if rows != [] {
      var init := rows[..|rows| - 1];
      UpsertHolds(table, init, row);
      assert forall other :: other in rows <==> other in init || other == rows[|rows| - 1];
    }
  }

  // ---------- rows add up ----------

  function RowTotals(row: Row): Totals
  {
    Totals(row.size, row.count,
           if row.totalSize.Some? then row.totalSize.value else 0,
           if row.totalCount.Some? then row.totalCount.value else 0)
  }

  // The sum over the rows of a directory's direct children.
  function ChildSum(rows: seq<Row>, dir: Path): Totals
  {
    if rows == [] then ZERO
    else
      var before, last := ChildSum(rows[..|rows| - 1], dir), rows[|rows| - 1];
      if |last.path| == |dir| + 1 && dir < last.path then Add(before, RowTotals(last)) else before
  }

  lemma ChildSumEmpty(dir: Path)
    ensures ChildSum([], dir) == ZERO
  {
  }

  lemma NamesDiffer(dir: Node, j: int, k: int)
    requires WellNamed(dir) && dir.Directory?
    ensures 0 <= j < |dir.children| && 0 <= k < |dir.children| && j != k ==>
      dir.children[j].name != dir.children[k].name
  {
  }

  lemma ChildSumSnoc(rows: seq<Row>, last: Row, dir: Path)
    ensures ChildSum(rows + [last], dir) ==
      if |last.path| == |dir| + 1 && dir < last.path then Add(ChildSum(rows, dir), RowTotals(last))
      else ChildSum(rows, dir)
  {
    hide Add, RowTotals;
    assert (rows + [last])[..|rows|] == rows;
  }

  lemma {:induction false} ChildSumConcat(a: seq<Row>, b: seq<Row>, dir: Path)
    ensures ChildSum(a + b, dir) == Add(ChildSum(a, dir), ChildSum(b, dir))
  {
    hide ChildSum, Add, RowTotals;
    ChildSumEmpty(dir);
    if b == [] {
      assert a + b == a;
      ScanTheorems.AddLaws(ChildSum(a, dir), ZERO, ZERO);
    } else {
      var init, last := b[..|b| - 1], b[|b| - 1];
      ChildSumConcat(a, init, dir);
      ChildSumSnoc(a + init, last, dir);
      ChildSumSnoc(init, last, dir);
      ScanTheorems.AddLaws(ChildSum(a, dir), ChildSum(init, dir), RowTotals(last));
      assert a + b == (a + init) + [last] && b == init + [last];
    }
  }

  lemma {:induction false} ChildSumElsewhere(rows: seq<Row>, dir: Path)
    requires forall row :: row in rows ==> !(|row.path| == |dir| + 1 && dir < row.path)
    ensures ChildSum(rows, dir) == ZERO
  {
    if rows != [] {
      assert rows[|rows| - 1] in rows;
      ChildSumElsewhere(rows[..|rows| - 1], dir);
    }
  }

  // Seen from the parent, a child contributes exactly its own row.
  lemma ChildRowSum(env: Environment, path: Path, dir: Node, i: nat, enabled: bool)
    requires dir.Directory? && i < |dir.children|
    ensures var o := VisitChild(env, path, dir.tagged, dir.children[i], enabled); ChildSum(o.rows, path) == o.totals
  {
    hide Visit, VisitKids, Environment.Hard, ChildEnabled, ChildSum, Add;
    ChildSumEmpty(path);
    var child := dir.children[i];
    var below := path + [child.name];
    var e := ChildEnabled(env, path, dir.tagged, child, enabled);
    VisitCases(env, below, child.node, e);
    var o := Visit(env, below, child.node, e);
    if !child.node.Gone? {
      var deeper := if child.node.Directory? && child.node.listable
        then VisitKids(env, below, child.node, |child.node.children|, e).rows else [];
      forall row | row in deeper ensures |row.path| > |path| + 1 {
        var j := KidRow(env, below, child.node, |child.node.children|, e, row);
        ChildRowBelow(env, below, child.node, j, e, row);
      }
      ChildSumElsewhere(deeper, path);
      ChildSumSnoc(deeper, env.RowFor(below, o.totals), path);
      assert o.rows == deeper + [env.RowFor(below, o.totals)];
      ScanTheorems.AddLaws(o.totals, ZERO, ZERO);
    }
  }

  lemma {:induction false} KidRowsSum(env: Environment, path: Path, dir: Node, upTo: nat, enabled: bool)
    requires dir.Directory? && upTo <= |dir.children|
    ensures var o := VisitKids(env, path, dir, upTo, enabled); ChildSum(o.rows, path) == o.totals
  {
    hide *;
    ChildSumEmpty(path);
    VisitCases(env, path, dir, enabled);
    if upTo > 0 {
      var before := VisitKids(env, path, dir, upTo - 1, enabled);
      var here := VisitChild(env, path, dir.tagged, dir.children[upTo - 1], enabled);
      KidsStep(env, path, dir, upTo - 1, enabled);
      KidRowsSum(env, path, dir, upTo - 1, enabled);
      ChildRowSum(env, path, dir, upTo - 1, enabled);
      ChildSumConcat(before.rows, here.rows, path);
    }
  }

  lemma DirectoryRowAddsUp(env: Environment, path: Path, node: Node, enabled: bool)
    requires node.Directory?
    ensures var o := Visit(env, path, node, enabled); ChildSum(o.rows, path) == o.totals
  {
    hide Visit, VisitKids, ChildSum, Add, RowTotals;
    ChildSumEmpty(path);
    VisitCases(env, path, node, enabled);
    KidRowsSum(env, path, node, |node.children|, enabled);
    var inner := if node.listable then VisitKids(env, path, node, |node.children|, enabled) else Outcome(ZERO, []);
    ChildSumSnoc(inner.rows, env.RowFor(path, inner.totals), path);
    assert inner.rows + [env.RowFor(path, inner.totals)] == Visit(env, path, node, enabled).rows;
  }

  // In everything a scan writes, the row of each visited directory is the sum of
  // the rows of its direct children.
  lemma {:induction false} EveryDirectoryAddsUp(env: Environment, path: Path, node: Node, enabled: bool, rel: Path)
    requires WellNamed(node) && !node.Gone?
    requires Reach(env, path, node, enabled, rel).Some? && Reach(env, path, node, enabled, rel).value.node.Directory?
    ensures ChildSum(Visit(env, path, node, enabled).rows, path + rel) ==
      RowTotals(ReachedRow(env, path + rel, Reach(env, path, node, enabled, rel).value))
    decreases |rel|
  {
    hide Visit, VisitKids, Environment.Hard, ChildEnabled, ChildSum;
    if rel == [] {
      assert path + rel == path;
      DirectoryRowAddsUp(env, path, node, enabled);
    } else {
      var i := Find(node.children, rel[0]).value;
      var child := node.children[i];
      var e := ChildEnabled(env, path, node.tagged, child, enabled);
      EveryDirectoryAddsUp(env, path + [rel[0]], child.node, e, rel[1..]);
      assert path + rel == path + [rel[0]] + rel[1..];
      OtherChildrenAddNothing(env, path, node, |node.children|, i, enabled, path + rel);
      VisitCases(env, path, node, enabled);
      var inner := VisitKids(env, path, node, |node.children|, enabled);
      ChildSumSnoc(inner.rows, env.RowFor(path, inner.totals), path + rel);
    }
  }

  lemma {:induction false} OtherChildrenAddNothing(
    env: Environment, path: Path, dir: Node, upTo: nat, i: nat, enabled: bool, target: Path)
    requires WellNamed(dir) && dir.Directory? && upTo <= |dir.children| && i < |dir.children|
    requires path + [dir.children[i].name] <= target
    ensures ChildSum(VisitKids(env, path, dir, upTo, enabled).rows, target) ==
      if i < upTo then ChildSum(VisitChild(env, path, dir.tagged, dir.children[i], enabled).rows, target) else ZERO
    decreases upTo
  {
    hide *;
    ChildSumEmpty(target);
    NamesDiffer(dir, upTo - 1, i);
    VisitCases(env, path, dir, enabled);
    if upTo > 0 {
      var k := upTo - 1;
      var here := VisitChild(env, path, dir.tagged, dir.children[k], enabled).rows;
      KidsStep(env, path, dir, k, enabled);
      OtherChildrenAddNothing(env, path, dir, k, i, enabled, target);
      ChildSumConcat(VisitKids(env, path, dir, k, enabled).rows, here, target);
      ScanTheorems.AddLaws(ChildSum(here, target), ZERO, ZERO);
      ScanTheorems.AddLaws(ChildSum(VisitKids(env, path, dir, k, enabled).rows, target), ZERO, ZERO);
      if k != i {
        forall row | row in here ensures !(target < row.path) {
          ChildRowBelow(env, path, dir, k, enabled, row);
          assert (path + [dir.children[k].name])[|path|] == row.path[|path|];
          assert (path + [dir.children[i].name])[|path|] == target[|path|];
        }
        ChildSumElsewhere(here, target);
      }
    }
  }

  // ---------- scans that find nothing usable in the cache ----------

  // A row written before the total columns existed counts as absent.
  ghost predicate HasTotals(table: map<Path, Row>, path: Path)
  {
    path in table && table[path].totalSize.Some?
  }

  // An unforced scan without a usable row does what a forced one does: it answers with
  // the flat sum over the leaves, writes the same rows, and the path's own row, written
  // once, holds the flat sum with the physical totals. A usable row answers by itself,
  // and a hard excluded path answers nothing.
  lemma FreshScan(env: Environment, table: map<Path, Row>, path: Path, node: Node, force: bool)
    ensures var rows := ScanRows(env, table, path, node, force);
      if env.Hard(path) then rows == [] && ScanAnswer(env, table, path, node, force) == (0, 0)
      else if force || !HasTotals(table, path) then
        var sum := ScanTheorems.Tally(env, path, ScanTheorems.Leaves(node), !env.Excluded(path));
        ScanAnswer(env, table, path, node, force) == (sum.size, sum.count) &&
        rows == ScanRows(env, table, path, node, true) &&
        (!node.Gone? ==>
           Holds(rows, Row(path, sum.size, sum.count, Some(sum.totalSize), Some(sum.totalCount), env.excludes)))
      else
        rows == [] && ScanAnswer(env, table, path, node, force) == (table[path].size, table[path].count)
  {
    hide Visit, Environment.Hard, Environment.Excluded, Holds, ScanTheorems.Tally, ScanTheorems.Leaves;
    ScanTheorems.VisitIsTally(env, path, node, !env.Excluded(path));
    if !node.Gone? {
      OwnRow(env, path, node, !env.Excluded(path));
    }
  }

  // Scanning again at once answers the same and writes nothing.
  lemma SecondScan(env: Environment, table: map<Path, Row>, path: Path, node: Node, force: bool)
    requires !node.Gone?
    ensures var after := Upsert(table, ScanRows(env, table, path, node, force));
      ScanAnswer(env, after, path, node, false) == ScanAnswer(env, table, path, node, force) &&
      ScanRows(env, after, path, node, false) == []
  {
    hide Visit, Environment.Hard, Environment.Excluded, Upsert, ReachedRow;
    var rows := ScanRows(env, table, path, node, force);
    NothingUpserted(table);
    if !env.Hard(path) && (force || !HasTotals(table, path)) {
      var enabled := !env.Excluded(path);
      OwnRow(env, path, node, enabled);
      RowOfVisit(env, path, node, enabled);
      assert rows == Visit(env, path, node, enabled).rows;
      UpsertHolds(table, rows, ReachedRow(env, path, Reached(node, enabled)));
    }
  }

  lemma RowOfVisit(env: Environment, path: Path, node: Node, enabled: bool)
    ensures var row, totals := ReachedRow(env, path, Reached(node, enabled)), Visit(env, path, node, enabled).totals;
      row.path == path && row.size == totals.size && row.count == totals.count && row.totalSize.Some?
  {
    hide Visit;
  }

  lemma NothingUpserted(table: map<Path, Row>)
    ensures Upsert(table, []) == table
  {
  }

  // ---------- cached answers ----------

  lemma {:induction false} ReachedIsOpen(env: Environment, path: Path, node: Node, enabled: bool, rel: Path)
    requires Reach(env, path, node, enabled, rel).Some?
    requires !env.Hard(path) && (enabled ==> !env.Excluded(path)) && !node.Gone?
    ensures var reached := Reach(env, path, node, enabled, rel).value;
      !env.Hard(path + rel) && (reached.enabled ==> !env.Excluded(path + rel)) && !reached.node.Gone?
    decreases |rel|
  {
    hide Environment.Hard, Environment.Excluded;
    if rel == [] {
      assert path + rel == path;
    } else {
      var child := node.children[Find(node.children, rel[0]).value];
      ReachedIsOpen(env, path + [rel[0]], child.node, ChildEnabled(env, path, node.tagged, child, enabled), rel[1..]);
      assert path + rel == path + [rel[0]] + rel[1..];
    }
  }

  // Whether a visited path counts where it is visited, read off the tree: nothing on
  // the way down is excluded, and no tagged directory drops it.
  lemma {:induction false} ReachedEnabled(env: Environment, path: Path, node: Node, enabled: bool, rel: Path)
    requires Reach(env, path, node, enabled, rel).Some?
    ensures Reach(env, path, node, enabled, rel).value.enabled <==>
      enabled && ScanTheorems.NoneExcluded(env, path, rel) && TagsPass(node, rel)
    decreases |rel|
  {
    hide Environment.Hard, Environment.Excluded, ScanTheorems.NoneExcluded;
    NoneExcludedSteps(env, path, rel);
    if rel != [] {
      var child := node.children[Find(node.children, rel[0]).value];
      ReachedEnabled(env, path + [rel[0]], child.node, ChildEnabled(env, path, node.tagged, child, enabled), rel[1..]);
    }
  }

  lemma NoneExcludedSteps(env: Environment, path: Path, rel: Path)
    ensures rel == [] ==> ScanTheorems.NoneExcluded(env, path, rel)
    ensures rel != [] ==>
      (ScanTheorems.NoneExcluded(env, path, rel) <==>
       !env.Excluded(path + [rel[0]]) && ScanTheorems.NoneExcluded(env, path + [rel[0]], rel[1..]))
  {
    hide Environment.Excluded, ScanTheorems.NoneExcluded;
    if rel != [] {
      var leaf := ScanTheorems.Leaf(rel[1..], [], 0);
      ScanTheorems.ExcludedUnder(env, path, rel[0], false, leaf);
      assert ScanTheorems.Lift(rel[0], false, leaf).rel == rel;
    } else {
      NothingOnTheWay(env, path);
    }
  }

  lemma NothingOnTheWay(env: Environment, path: Path)
    ensures ScanTheorems.NoneExcluded(env, path, [])
  {
  }

  // Every tagged directory on the way down is the last one, and passes only its tag.
  ghost predicate TagsPass(node: Node, rel: Path)
    decreases |rel|
  {
    rel != [] && node.Directory? && Find(node.children, rel[0]).Some? ==>
      var child := node.children[Find(node.children, rel[0]).value];
      (node.tagged ==> !child.node.Directory? && child.name == CACHEDIR_TAG_NAME) && TagsPass(child.node, rel[1..])
  }

  // A file below the node that counts in a scan of the node itself.
  ghost predicate HasEffective(env: Environment, path: Path, leaves: seq<ScanTheorems.Leaf>)
  {
    exists leaf :: leaf in leaves && ScanTheorems.Physical(env, path, leaf) && ScanTheorems.Effective(env, path, leaf)
  }

  lemma {:induction false} TallyIsEmpty(env: Environment, path: Path, leaves: seq<ScanTheorems.Leaf>)
    ensures var sum := ScanTheorems.Tally(env, path, leaves, true);
      (sum.size, sum.count) == (0, 0) <==> !HasEffective(env, path, leaves)
    ensures var sum := ScanTheorems.Tally(env, path, leaves, true); sum.count == 0 ==> sum.size == 0
  {
    hide ScanTheorems.Physical, ScanTheorems.Effective;
    if leaves != [] {
      var init, last := leaves[..|leaves| - 1], leaves[|leaves| - 1];
      TallyIsEmpty(env, path, init);
      assert forall leaf :: leaf in leaves <==> leaf in init || leaf == last;
    }
  }

  // What the cached answer of a visited path depends on.
  lemma CacheInContext(env: Environment, table: map<Path, Row>, path: Path, node: Node, rel: Path)
    requires WellNamed(node) && !node.Gone? && !env.Hard(path)
    requires Reach(env, path, node, !env.Excluded(path), rel).Some?
    ensures var after := Upsert(table, ScanRows(env, table, path, node, true));
      var reached := Reach(env, path, node, !env.Excluded(path), rel).value;
      var forced := ScanAnswer(env, after, path + rel, reached.node, true);
      ScanAnswer(env, after, path + rel, reached.node, false) == forced <==>
        reached.enabled || env.Excluded(path + rel) || forced == (0, 0)
  {
    hide Visit, VisitKids, Reach, Upsert, WellNamed, ChildEnabled, Text, ExcludedBy;
    hide Environment.Hard, Environment.Excluded;
    var reached := Reach(env, path, node, !env.Excluded(path), rel).value;
    ReachedIsOpen(env, path, node, !env.Excluded(path), rel);
    VisitedOnce(env, path, node, !env.Excluded(path), rel);
    var rows := ScanRows(env, table, path, node, true);
    UpsertHolds(table, rows, ReachedRow(env, path + rel, reached));
    ScanTheorems.PhysicalTotals(env, env, path + rel, reached.node, reached.enabled, false);
  }

  // After a forced scan, an ordinary scan of any visited path answers what a forced
  // scan of it would exactly if the path is excluded itself, or nothing at or above it
  // is excluded and no tag drops it, or no file below it counts anyway.
  lemma CacheCoherence(env: Environment, table: map<Path, Row>, path: Path, node: Node, rel: Path)
    requires WellNamed(node) && !node.Gone? && !env.Hard(path)
    requires Reach(env, path, node, !env.Excluded(path), rel).Some?
    ensures var after := Upsert(table, ScanRows(env, table, path, node, true));
      var reached := Reach(env, path, node, !env.Excluded(path), rel).value.node;
      ScanAnswer(env, after, path + rel, reached, false) == ScanAnswer(env, after, path + rel, reached, true) <==>
        env.Excluded(path + rel) ||
        (!env.Excluded(path) && ScanTheorems.NoneExcluded(env, path, rel) && TagsPass(node, rel)) ||
        !HasEffective(env, path + rel, ScanTheorems.Leaves(reached))
  {
    hide *;
    var reached := Reach(env, path, node, !env.Excluded(path), rel).value;
    var after := Upsert(table, ScanRows(env, table, path, node, true));
    CacheInContext(env, table, path, node, rel);
    ReachedEnabled(env, path, node, !env.Excluded(path), rel);
    ReachedIsOpen(env, path, node, !env.Excluded(path), rel);
    ScanTheorems.ScanIsFlatSum(env, after, path + rel, reached.node);
    TallyIsEmpty(env, path + rel, ScanTheorems.Leaves(reached.node));
  }

  // ---------- profiles without re-inclusion ----------

  // Whatever lies below an excluded path is excluded.
  ghost predicate DownwardClosed(env: Environment)
  {
    forall p: Path, q: Path :: Valid(p) && Valid(q) && p <= q && env.Excluded(p) ==> env.Excluded(q)
  }

  lemma ExclusionReaches(env: Environment, path: Path, rel: Path)
    requires DownwardClosed(env) && Valid(path + rel)
    ensures env.Excluded(path) || !ScanTheorems.NoneExcluded(env, path, rel) ==> env.Excluded(path + rel)
  {
    hide Environment.Excluded;
    forall k | 0 <= k <= |rel| ensures env.Excluded(path + rel[..k]) ==> env.Excluded(path + rel) {
      assert path + rel[..k] == (path + rel)[..|path| + k];
      assert Valid(path + rel[..k]);
    }
    assert path + rel[..0] == path;
  }

  // With such a profile, and no tag on the way, the cached answer is always the fresh one.
  lemma CachedAnswersStand(env: Environment, table: map<Path, Row>, path: Path, node: Node, rel: Path)
    requires WellNamed(node) && !node.Gone? && !env.Hard(path)
    requires DownwardClosed(env) && Valid(path + rel) && TagsPass(node, rel)
    requires Reach(env, path, node, !env.Excluded(path), rel).Some?
    ensures var after := Upsert(table, ScanRows(env, table, path, node, true));
      var reached := Reach(env, path, node, !env.Excluded(path), rel).value;
      ScanAnswer(env, after, path + rel, reached.node, false) == ScanAnswer(env, after, path + rel, reached.node, true)
  {
    hide *;
    CacheCoherence(env, table, path, node, rel);
    ExclusionReaches(env, path, rel);
  }

  // Subtree patterns, plain or at any depth, without "!".
  predicate SubtreePatterns(patterns: seq<string>)
  {
    forall p :: p in patterns ==> !Negative(p) && (Compile(p).Prefix? || Compile(p).Segment?)
  }

  lemma OccursInLonger(needle: string, part: string, text: string)
    requires part <= text && Infix(needle, part)
    ensures Infix(needle, text)
  {
    var i :| 0 <= i <= |part| && OccursAt(needle, part, i);
    assert text[i..i + |needle|] == part[i..i + |needle|];
    assert OccursAt(needle, text, i);
  }

  lemma OccursAtEnd(needle: string, text: string)
    requires EndsWith(text, needle)
    ensures Infix(needle + "/", text + "/")
  {
    var i := |text| - |needle|;
    assert (text + "/")[i..i + |needle| + 1] == text[i..] + "/";
    assert OccursAt(needle + "/", text + "/", i);
  }

  lemma SegmentMatchesBelow(p: Path, q: Path, needle: string)
    requires Valid(p) && Valid(q) && p < q && needle != ""
    requires HasSegment(Text(p), needle)
    ensures HasSegment(Text(q), needle)
  {
    hide Infix, OccursAt;
    TextStripped(p);
    TextStripped(q);
    FlatBelow(p, q);
    var wide := "/" + needle + "/";
    assert ("/" + needle) + "/" == wide;
    if !Infix(wide, Flat(p) + "/") {
      assert p != [];
      OccursAtEnd("/" + needle, Flat(p));
    }
    OccursInLonger(wide, Flat(p) + "/", Flat(q) + "/");
  }

  lemma PrefixMatchesBelow(p: Path, q: Path, base: string)
    requires Valid(p) && Valid(q) && p < q
    requires Text(p) == base || RStrip(base) + "/" <= Text(p)
    ensures RStrip(base) + "/" <= Text(q)
  {
    TextStripped(p);
    FlatBelow(p, q);
    assert p != [] ==> Flat(p) <= Flat(p) + "/";
    assert p == [] && Text(p) != base ==> RStrip(base) + "/" == "/";
  }

  lemma SubtreeMatchesBelow(p: Path, q: Path, pattern: string)
    requires Valid(p) && Valid(q) && p <= q
    requires (Compile(pattern).Prefix? || Compile(pattern).Segment?) && PatternMatches(Text(p), Compile(pattern))
    ensures PatternMatches(Text(q), Compile(pattern))
  {
    if p != q {
      if Compile(pattern).Prefix? {
        PrefixMatchesBelow(p, q, Compile(pattern).value);
      } else {
        SegmentNeedle(pattern);
        SegmentMatchesBelow(p, q, Compile(pattern).value);
      }
    }
  }

  lemma SegmentNeedle(pattern: string)
    requires Compile(pattern).Segment?
    ensures Compile(pattern).value != ""
  {
    var body := if "!" <= pattern then pattern[1..] else pattern;
    var stripped := RStrip(body[..|body| - 3]);
    assert "**/"[2] == '/';
  }

  lemma SubtreeProfileIsClosed(env: Environment)
    requires SubtreePatterns(env.excludes)
    ensures DownwardClosed(env)
  {
    forall p: Path, q: Path | Valid(p) && Valid(q) && p <= q && env.Excluded(p) ensures env.Excluded(q) {
      PositiveExclusion(Text(p), env.excludes);
      PositiveExclusion(Text(q), env.excludes);
      var pattern :| pattern in env.excludes && PatternMatches(Text(p), Compile(pattern));
      SubtreeMatchesBelow(p, q, pattern);
    }
  }

  lemma PositiveExclusion(text: string, patterns: seq<string>)
    requires SubtreePatterns(patterns)
    ensures ExcludedBy(text, patterns) <==> AnyMatches(text, patterns)
  {
    hide PatternMatches, Compile;
    ExcludedByAppend(text, [], patterns);
    assert [] + patterns == patterns;
  }
}
