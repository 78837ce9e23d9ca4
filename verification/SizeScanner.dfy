// The recursive size scan and the cache rows it leaves behind.
module SizeScanner {
  import opened Strings
  import opened Patterns
  import opened Paths
  import Selection

  const DEFAULT_SKIP_PREFIXES: seq<string> := ["/proc", "/sys", "/dev", "/run"]
  const CACHEDIR_TAG_NAME := "CACHEDIR.TAG"
  const BATCH_ROWS := 512

  // What lstat, scandir and the tag file show. A node that cannot be examined is
  // Gone; a directory that cannot be opened is not listable.
  datatype Node =
    | File(size: nat)
    | Symlink
    | Special
    | Directory(tagged: bool, listable: bool, children: seq<Child>)
    | Gone

  datatype Child = Child(name: string, node: Node)

  // Effective size and file count, then the physical ones.
  datatype Totals = Totals(size: nat, count: nat, totalSize: nat, totalCount: nat)

  const ZERO := Totals(0, 0, 0, 0)

  function Add(a: Totals, b: Totals): Totals
  {
    Totals(a.size + b.size, a.count + b.count, a.totalSize + b.totalSize, a.totalCount + b.totalCount)
  }

  // One row of fs_cache. The scan key stands for the pattern list it is the digest
  // of; rows written before the total columns existed have no totals.
  datatype Row = Row(
    path: Path, size: nat, count: nat, totalSize: Option<nat>, totalCount: Option<nat>, scanKey: seq<string>)

  function HardPatterns(symlinks: set<string>, aliases: seq<string>): seq<string>
  {
    if aliases == [] then ["/proc/**", "/sys/**", "/dev/**", "/run/**", Selection.SYSTEM_HARD_EXACT]
    else
      var last := aliases[|aliases| - 1];
      HardPatterns(symlinks, aliases[..|aliases| - 1]) + if last in symlinks then [last] else []
  }

  datatype Environment = Environment(backupRoot: Path, excludes: seq<string>, symlinks: set<string>) {
    predicate Hard(path: Path)
    {
      var text := Text(path);
      ContainsText(Text(backupRoot), text) ||
      (exists k :: 0 <= k < |DEFAULT_SKIP_PREFIXES| && Selection.EqualsOrBelow(text, DEFAULT_SKIP_PREFIXES[k])) ||
      AnyMatches(text, HardPatterns(symlinks, Selection.ROOT_COMPAT_SYMLINKS))
    }

    predicate Excluded(path: Path)
    {
      ExcludedBy(Text(path), excludes)
    }

    function RowFor(path: Path, t: Totals): Row
    {
      Row(path, t.size, t.count, Some(t.totalSize), Some(t.totalCount), excludes)
    }
  }

  // ---------- what one traversal computes ----------

  datatype Outcome = Outcome(totals: Totals, rows: seq<Row>)

  function LeafTotals(size: nat, enabled: bool): Totals
  {
    Totals(if enabled then size else 0, if enabled then 1 else 0, size, 1)
  }

  // A tag keeps itself and drops everything else in its directory.
  predicate ChildEnabled(env: Environment, path: Path, tagged: bool, child: Child, enabled: bool)
  {
    enabled && (tagged ==> !child.node.Directory? && child.name == CACHEDIR_TAG_NAME) &&
    !env.Excluded(path + [child.name])
  }

  function Visit(env: Environment, path: Path, node: Node, enabled: bool): Outcome
    decreases node, 1, 0
  {
    if node.Gone? then Outcome(ZERO, [])
    else if node.Directory? then
      var inner := if node.listable then VisitKids(env, path, node, |node.children|, enabled) else Outcome(ZERO, []);
      Outcome(inner.totals, inner.rows + [env.RowFor(path, inner.totals)])
    else
      var totals := LeafTotals(if node.File? then node.size else 0, enabled);
      Outcome(totals, [env.RowFor(path, totals)])
  }

  // The first `upTo` directory entries.
  function VisitKids(env: Environment, path: Path, dir: Node, upTo: nat, enabled: bool): Outcome
    requires dir.Directory? && upTo <= |dir.children|
    decreases dir, 0, upTo
  {
    if upTo == 0 then Outcome(ZERO, [])
    else
      var before := VisitKids(env, path, dir, upTo - 1, enabled);
      var here := VisitChild(env, path, dir.tagged, dir.children[upTo - 1], enabled);
      Outcome(Add(before.totals, here.totals), before.rows + here.rows)
  }

  // Below the scan root, devices, sockets and pipes are not counted.
  function VisitChild(env: Environment, path: Path, tagged: bool, child: Child, enabled: bool): Outcome
    decreases child.node, 2, 0
  {
    if child.node.Gone? || child.node.Special? || env.Hard(path + [child.name]) then Outcome(ZERO, [])
    else Visit(env, path + [child.name], child.node, ChildEnabled(env, path, tagged, child, enabled))
  }

  function Upsert(table: map<Path, Row>, rows: seq<Row>): map<Path, Row>
  {
    if rows == [] then table
    else
      var last := rows[|rows| - 1];
      Upsert(table, rows[..|rows| - 1])[last.path := last]
  }

  lemma {:induction false} UpsertConcat(table: map<Path, Row>, a: seq<Row>, b: seq<Row>)
    ensures Upsert(table, a + b) == Upsert(Upsert(table, a), b)
  {
    if b == [] {
      assert a + b == a;
    } else {
      assert (a + b)[..|a + b| - 1] == a + b[..|b| - 1];
      UpsertConcat(table, a, b[..|b| - 1]);
    }
  }

  // The result of a scan and the rows it writes, given the cached table.
  function CachedAnswer(table: map<Path, Row>, path: Path): Option<(nat, nat)>
  {
    if path in table && table[path].totalSize.Some? then Some((table[path].size, table[path].count)) else None
  }

  function ScanAnswer(env: Environment, table: map<Path, Row>, path: Path, node: Node, force: bool): (nat, nat)
  {
    if env.Hard(path) then (0, 0)
    else if !force && CachedAnswer(table, path).Some? then CachedAnswer(table, path).value
    else
      var totals := Visit(env, path, node, !env.Excluded(path)).totals;
      (totals.size, totals.count)
  }

  function ScanRows(env: Environment, table: map<Path, Row>, path: Path, node: Node, force: bool): seq<Row>
  {
    if env.Hard(path) || (!force && CachedAnswer(table, path).Some?) then []
    else Visit(env, path, node, !env.Excluded(path)).rows
  }

  lemma VisitCases(env: Environment, path: Path, node: Node, enabled: bool)
    ensures var o := Visit(env, path, node, enabled);
      if node.Gone? then o == Outcome(ZERO, [])
      else if !node.Directory? then
        var totals := LeafTotals(if node.File? then node.size else 0, enabled);
        o == Outcome(totals, [env.RowFor(path, totals)])
      else if !node.listable then o == Outcome(ZERO, [env.RowFor(path, ZERO)])
      else
        var inner := VisitKids(env, path, node, |node.children|, enabled);
        o == Outcome(inner.totals, inner.rows + [env.RowFor(path, inner.totals)])
    ensures node.Directory? ==> VisitKids(env, path, node, 0, enabled) == Outcome(ZERO, [])
  {
  }

  lemma KidsStep(env: Environment, path: Path, dir: Node, i: nat, enabled: bool)
    requires dir.Directory? && i < |dir.children|
    ensures var before := VisitKids(env, path, dir, i, enabled);
      var here := VisitChild(env, path, dir.tagged, dir.children[i], enabled);
      VisitKids(env, path, dir, i + 1, enabled) == Outcome(Add(before.totals, here.totals), before.rows + here.rows)
  {
  }

  // ---------- the scanner ----------

  class CacheDB {
    var rows: map<Path, Row>
    ghost const stored: map<Path, Row>
    // Every row ever handed to the table, in order.
    ghost var written: seq<Row>

    ghost predicate Valid()
      reads this
    {
      rows == Upsert(stored, written)
    }

    constructor (stored: map<Path, Row>)
      ensures Valid() && rows == stored && written == []
    {
      this.stored, rows, written := stored, stored, [];
    }

    method PutFsMany(batch: seq<Row>)
      requires Valid()
      modifies this
      ensures Valid()
      ensures rows == Upsert(old(rows), batch) && written == old(written) + batch
    {
      var i := 0;
      while i < |batch|
        invariant 0 <= i <= |batch|
        invariant rows == Upsert(old(rows), batch[..i]) && written == old(written)
      {
        assert batch[..i + 1][..i] == batch[..i];
        rows := rows[batch[i].path := batch[i]];
        i := i + 1;
      }
      assert batch[..|batch|] == batch;
      written := written + batch;
      UpsertConcat(stored, old(written), batch);
    }
  }

  datatype Source = Filesystem | Cache | CacheStaleProfile

  class SizeScanner {
    const env: Environment
    const cache: CacheDB
    var pending: seq<Row>
    var bytes: nat
    var items: nat
    var lastSource: Source

    constructor (env: Environment, cache: CacheDB)
      ensures this.env == env && this.cache == cache && pending == [] && lastSource == Filesystem
    {
      this.env, this.cache := env, cache;
      pending, bytes, items, lastSource := [], 0, 0, Filesystem;
    }

    // Rows written and rows still queued: batching only moves the border.
    ghost function Log(): seq<Row>
      reads this, cache
    {
      cache.written + pending
    }

    method ExcludedByProfile(path: Path) returns (excluded: bool)
      ensures excluded == env.Excluded(path)
    {
      hide PatternMatches;
      var text := Text(path);
      excluded := false;
      for i := 0 to |env.excludes|
        invariant excluded == ExcludedBy(text, env.excludes[..i])
      {
        assert env.excludes[..i + 1][..i] == env.excludes[..i];
        if PatternMatches(text, Compile(env.excludes[i])) {
          excluded := !Negative(env.excludes[i]);
        }
      }
      assert env.excludes[..|env.excludes|] == env.excludes;
    }

    method FlushCacheRows()
      requires cache.Valid()
      modifies this`pending, cache
      ensures cache.Valid() && pending == [] && Log() == old(Log())
    {
      if pending == [] {
        return;
      }
      var rows := pending;
      pending := [];
      cache.PutFsMany(rows);
    }

    method QueueCacheRow(row: Row)
      requires cache.Valid() && |pending| < BATCH_ROWS
      modifies this`pending, cache
      ensures cache.Valid() && |pending| < BATCH_ROWS && Log() == old(Log()) + [row]
      ensures pending == if |old(pending)| < 511 then old(pending) + [row] else []
    {
      pending := pending + [row];
      assert Log() == old(Log()) + [row];
      if |pending| >= BATCH_ROWS {
        FlushCacheRows();
      }
    }

    method Account(size: nat, count: nat)
      modifies this`bytes, this`items
      ensures bytes == old(bytes) + size && items == old(items) + count
    {
      bytes, items := bytes + size, items + count;
    }

    method ScanRecursive(path: Path, node: Node, enabled: bool) returns (totals: Totals)
      requires cache.Valid() && |pending| < BATCH_ROWS
      modifies this`pending, this`bytes, this`items, cache
      ensures cache.Valid() && |pending| < BATCH_ROWS
      ensures totals == Visit(env, path, node, enabled).totals
      ensures Log() == old(Log()) + Visit(env, path, node, enabled).rows
      ensures bytes == old(bytes) + totals.totalSize && items == old(items) + totals.totalCount
      decreases node, 1
    {
      hide Visit, VisitKids, Upsert, Environment.Hard, Environment.Excluded;
      VisitCases(env, path, node, enabled);
      if node.Gone? {
        return ZERO;
      }
      if !node.Directory? {
        totals := LeafTotals(if node.File? then node.size else 0, enabled);
        Account(totals.totalSize, totals.totalCount);
        QueueCacheRow(env.RowFor(path, totals));
        return;
      }
      totals := ZERO;
      if !node.listable {
        QueueCacheRow(env.RowFor(path, ZERO));
        return;
      }
      var cachedir := enabled && node.tagged;
      for i := 0 to |node.children|
        invariant cache.Valid() && |pending| < BATCH_ROWS
        invariant totals == VisitKids(env, path, node, i, enabled).totals
        invariant Log() == old(Log()) + VisitKids(env, path, node, i, enabled).rows
        invariant bytes == old(bytes) + totals.totalSize && items == old(items) + totals.totalCount
      {
        KidsStep(env, path, node, i, enabled);
        var here := ScanChild(path, node.children[i], enabled, cachedir, node.tagged);
        totals := Add(totals, here);
      }
      QueueCacheRow(env.RowFor(path, totals));
    }

    // One directory entry of the loop above.
    method ScanChild(path: Path, child: Child, enabled: bool, cachedir: bool, ghost tagged: bool)
      returns (totals: Totals)
      requires cache.Valid() && |pending| < BATCH_ROWS
      requires cachedir == (enabled && tagged)
      modifies this`pending, this`bytes, this`items, cache
      ensures cache.Valid() && |pending| < BATCH_ROWS
      ensures totals == VisitChild(env, path, tagged, child, enabled).totals
      ensures Log() == old(Log()) + VisitChild(env, path, tagged, child, enabled).rows
      ensures bytes == old(bytes) + totals.totalSize && items == old(items) + totals.totalCount
      decreases child.node, 2
    {
      hide Visit, VisitKids, Upsert, Environment.Hard, Environment.Excluded;
      var childPath := path + [child.name];
      VisitCases(env, childPath, child.node, ChildEnabled(env, path, tagged, child, enabled));
      totals := ZERO;
      if child.node.Gone? || env.Hard(childPath) {
        return;
      }
      var excluded := ExcludedByProfile(childPath);
      if child.node.Symlink? || child.node.File? {
        var size := if child.node.File? then child.node.size else 0;
        var childEnabled := enabled && (!cachedir || child.name == CACHEDIR_TAG_NAME) && !excluded;
        totals := LeafTotals(size, childEnabled);
        Account(size, 1);
        QueueCacheRow(env.RowFor(childPath, totals));
      } else if child.node.Directory? {
        totals := ScanRecursive(childPath, child.node, enabled && !cachedir && !excluded);
      }
    }

    // The path has been resolved, so it names no symbolic link.
    method Scan(path: Path, node: Node, force: bool) returns (answer: (nat, nat))
      requires !node.Symlink? && pending == [] && cache.Valid()
      modifies this, cache
      ensures cache.Valid() && pending == []
      ensures answer == ScanAnswer(env, old(cache.rows), path, node, force)
      ensures cache.written == old(cache.written) + ScanRows(env, old(cache.rows), path, node, force)
      ensures cache.rows == Upsert(old(cache.rows), ScanRows(env, old(cache.rows), path, node, force))
      ensures !env.Hard(path) && !force && CachedAnswer(old(cache.rows), path).Some? ==>
        lastSource == if old(cache.rows)[path].scanKey == env.excludes then Cache else CacheStaleProfile
      ensures !env.Hard(path) && (force || CachedAnswer(old(cache.rows), path).None?) ==>
        var totals := Visit(env, path, node, !env.Excluded(path)).totals;
        lastSource == Filesystem && bytes == totals.totalSize && items == totals.totalCount
      ensures env.Hard(path) ==> lastSource == old(lastSource)
    {
      hide Visit, VisitKids, Environment.Hard, Environment.Excluded;
      if env.Hard(path) {
        return (0, 0);
      }
      if !force && path in cache.rows && cache.rows[path].totalSize.Some? {
        lastSource := if cache.rows[path].scanKey == env.excludes then Cache else CacheStaleProfile;
        return (cache.rows[path].size, cache.rows[path].count);
      }
      bytes, items, lastSource, pending := 0, 0, Filesystem, [];
      assert Log() == cache.written;
      var excluded := ExcludedByProfile(path);
      var totals := ScanRecursive(path, node, !excluded);
      FlushCacheRows();
      assert cache.written == Log();
      UpsertConcat(cache.stored, old(cache.written), Visit(env, path, node, !excluded).rows);
      return (totals.size, totals.count);
    }
  }
}
