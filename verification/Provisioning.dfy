// The configure helper: admission of a backup root, the preflight and the
// ordered filesystem operations that build one user's runtime tree.
module Provisioning {
  import opened Strings
  import opened Paths
  import Numerals

  // ---------- the filesystem ----------

  datatype Kind = Dir | Link | Regular | Other

  // Permission bits of st_mode, owner, and the (device, inode) identity.
  datatype Inode = Inode(kind: Kind, uid: nat, mode: bv12, identity: nat, content: string)

  datatype State = State(nodes: map<Path, Inode>, nextIdentity: nat, umask: bv12) {
    predicate IsDir(path: Path)
    {
      path in nodes && nodes[path].kind == Dir
    }
  }

  datatype Op = Mkdir(path: Path, mode: bv12) | Chown(path: Path, uid: nat) | Chmod(path: Path, mode: bv12)

  function Apply(s: State, op: Op): State
  {
    if op.Mkdir? then
      var made := Inode(Dir, 0, op.mode & !s.umask, s.nextIdentity, "");
      s.(nodes := s.nodes[op.path := made], nextIdentity := s.nextIdentity + 1)
    else if op.path !in s.nodes then s
    else if op.Chown? then s.(nodes := s.nodes[op.path := s.nodes[op.path].(uid := op.uid)])
    else s.(nodes := s.nodes[op.path := s.nodes[op.path].(mode := op.mode)])
  }

  // A run of operations, each of which must be possible where it is made.
  predicate Possible(s: State, op: Op)
  {
    if op.Mkdir? then op.path !in s.nodes && op.path != [] && s.IsDir(op.path[..|op.path| - 1])
    else op.path in s.nodes
  }

  function Run(s: State, ops: seq<Op>): State
  {
    if ops == [] then s else Apply(Run(s, ops[..|ops| - 1]), ops[|ops| - 1])
  }

  predicate AllPossible(s: State, ops: seq<Op>)
  {
    ops == [] ||
    (AllPossible(s, ops[..|ops| - 1]) && Possible(Run(s, ops[..|ops| - 1]), ops[|ops| - 1]))
  }

  lemma RunSnoc(s: State, ops: seq<Op>, op: Op)
    ensures Run(s, ops + [op]) == Apply(Run(s, ops), op)
    ensures AllPossible(s, ops + [op]) <==> AllPossible(s, ops) && Possible(Run(s, ops), op)
  {
    hide Possible, Apply;
    assert (ops + [op])[..|ops|] == ops;
  }

  // ---------- what is provisioned ----------

  const WRITABLE_BY_OTHERS: bv12 := 0x012 // 0o022
  const WORLD_TRAVERSAL: bv12 := 0x001
  const ROOT_PARENT_MODE: bv12 := 0x1C9 // 0o711
  const BACKUP_ROOT_MODE: bv12 := 0x1C9
  const USER_DIRECTORY_MODE: bv12 := 0x1C0 // 0o700
  const APPROVAL_MARKER_MODE: bv12 := 0x180 // 0o600
  const APPROVAL_MARKER_CONTENT := "ubackup-root-v1\n"
  const DEFAULT_BACKUP_ROOT: Path := ["backup"]
  const BLOCKED_BACKUP_ROOTS: seq<Path> :=
    [[], ["etc"], ["usr"], ["var"], ["home"], ["root"], ["proc"], ["sys"], ["dev"], ["run"]]
  const MAX_VALID_UID := 0xFFFFFFFE

  datatype Error =
    | InvalidCallerUid | InvalidBackupRoot | BackupRootChanged | UnsafeExistingPath | ProvisioningFailed
    | ApprovalRequired | ApprovalInvalid | ApprovalChanged

  datatype Target = Target(path: Path, uid: nat, mode: bv12, chownNew: bool, rejectWritable: bool)

  function UserRoot(root: Path, uid: nat): Path
  {
    root + [".ubackup", "users", Numerals.Decimal(uid)]
  }

  function UserTarget(root: Path, uid: nat, below: Path): Target
  {
    Target(UserRoot(root, uid) + below, uid, USER_DIRECTORY_MODE, true, false)
  }

  // GuiPaths.directories, relative to the user's root.
  const USER_DIRECTORIES: seq<Path> :=
    [[], ["cache"], ["state"], ["runtime"], ["logs"], ["cache", "xdg"], ["state", "xdg-config"],
     ["state", "xdg-data"], ["runtime", "home"], ["runtime", "tmp"]]

  // The order of provision_user_runtime: two root-owned parents, then the user's.
  function Targets(root: Path, uid: nat): (targets: seq<Target>)
    ensures |targets| == 2 + |USER_DIRECTORIES|
  {
    [Target(root + [".ubackup"], 0, ROOT_PARENT_MODE, false, true),
     Target(root + [".ubackup", "users"], 0, ROOT_PARENT_MODE, false, true)] +
    seq(|USER_DIRECTORIES|, i requires 0 <= i < |USER_DIRECTORIES| => UserTarget(root, uid, USER_DIRECTORIES[i]))
  }

  // What an existing target must be before anything is changed.
  predicate Safe(nodes: map<Path, Inode>, t: Target)
  {
    t.path in nodes ==>
      nodes[t.path].kind == Dir && nodes[t.path].uid == t.uid &&
      (t.rejectWritable ==> nodes[t.path].mode & WRITABLE_BY_OTHERS == 0)
  }

  ghost predicate PreflightPasses(nodes: map<Path, Inode>, targets: seq<Target>)
  {
    forall k :: 0 <= k < |targets| ==> Safe(nodes, targets[k])
  }

  // The operations that bring one target into shape.
  function EnsureOps(nodes: map<Path, Inode>, t: Target): seq<Op>
  {
    if t.path !in nodes then
      [Mkdir(t.path, t.mode)] + (if t.chownNew then [Chown(t.path, t.uid)] else []) + [Chmod(t.path, t.mode)]
    else if nodes[t.path].mode != t.mode then [Chmod(t.path, t.mode)]
    else []
  }

  function TargetOps(nodes: map<Path, Inode>, targets: seq<Target>): seq<Op>
  {
    if targets == [] then []
    else TargetOps(nodes, targets[..|targets| - 1]) + EnsureOps(nodes, targets[|targets| - 1])
  }

  function ProvisionOps(nodes: map<Path, Inode>, root: Path, targets: seq<Target>): seq<Op>
  {
    [Chmod(root, BACKUP_ROOT_MODE)] + TargetOps(nodes, targets)
  }

  // ---------- admission ----------

  predicate Blocked(path: Path)
  {
    exists k :: 0 <= k < |BLOCKED_BACKUP_ROOTS| &&
      (path == BLOCKED_BACKUP_ROOTS[k] || (BLOCKED_BACKUP_ROOTS[k] != [] && BLOCKED_BACKUP_ROOTS[k] <= path))
  }

  predicate SoundComponent(nodes: map<Path, Inode>, path: Path, traversal: bool, k: nat)
    requires k <= |path|
  {
    path[..k] in nodes &&
    var info := nodes[path[..k]];
    info.kind == Dir && info.uid == 0 && info.mode & WRITABLE_BY_OTHERS == 0 &&
    (traversal && k < |path| ==> info.mode & WORLD_TRAVERSAL != 0)
  }

  predicate Trusted(nodes: map<Path, Inode>, path: Path, traversal: bool)
  {
    forall k :: 0 <= k <= |path| ==> SoundComponent(nodes, path, traversal, k)
  }

  // The inspected components, each with its identity.
  function Ancestry(nodes: map<Path, Inode>, path: Path, traversal: bool): seq<(Path, nat)>
    requires Trusted(nodes, path, traversal)
  {
    seq(|path| + 1, k requires 0 <= k <= |path| =>
      assert SoundComponent(nodes, path, traversal, k); (path[..k], nodes[path[..k]].identity))
  }

  function RootIdentity(nodes: map<Path, Inode>, path: Path, traversal: bool): nat
    requires Trusted(nodes, path, traversal)
  {
    assert path[..|path|] == path;
    assert SoundComponent(nodes, path, traversal, |path|);
    nodes[path].identity
  }

  function ApprovalMarker(nodes: map<Path, Inode>, root: Path): Result<nat, Error>
  {
    var parent, marker := root + [".ubackup"], root + [".ubackup", "approved"];
    if parent !in nodes then Err(ApprovalRequired)
    else if nodes[parent].kind != Dir || nodes[parent].uid != 0 || nodes[parent].mode & WRITABLE_BY_OTHERS != 0 then
      Err(ApprovalInvalid)
    else if marker !in nodes then Err(ApprovalRequired)
    else if nodes[marker].kind != Regular || nodes[marker].uid != 0 || nodes[marker].mode != APPROVAL_MARKER_MODE then
      Err(ApprovalInvalid)
    else if nodes[marker].content != APPROVAL_MARKER_CONTENT then Err(ApprovalInvalid)
    else Ok(nodes[marker].identity)
  }

  datatype RootAdmission = RootAdmission(
    root: Path, rootIdentity: nat, ancestry: seq<(Path, nat)>, marker: Option<nat>, traversal: bool)

  function Admit(nodes: map<Path, Inode>, path: Path): Result<RootAdmission, Error>
  {
    var traversal := path != DEFAULT_BACKUP_ROOT;
    if Blocked(path) then Err(InvalidBackupRoot)
    else if !Trusted(nodes, path, traversal) then Err(InvalidBackupRoot)
    else if traversal && ApprovalMarker(nodes, path).Err? then Err(ApprovalMarker(nodes, path).error)
    else
      Ok(RootAdmission(path, RootIdentity(nodes, path, traversal), Ancestry(nodes, path, traversal),
                       if traversal then Some(ApprovalMarker(nodes, path).value) else None, traversal))
  }

  function Revalidate(nodes: map<Path, Inode>, a: RootAdmission): Option<Error>
  {
    if !Trusted(nodes, a.root, a.traversal) then Some(InvalidBackupRoot)
    else if Ancestry(nodes, a.root, a.traversal) != a.ancestry ||
      RootIdentity(nodes, a.root, a.traversal) != a.rootIdentity then Some(BackupRootChanged)
    else if a.marker.None? then None
    else
      var marker := ApprovalMarker(nodes, a.root);
      if marker.Err? then Some(marker.error)
      else if marker.value != a.marker.value then Some(ApprovalChanged)
      else None
  }

  // ---------- what a run of operations does ----------

  lemma RunOne(s: State, op: Op)
    ensures AllPossible(s, []) && Run(s, []) == s
    ensures AllPossible(s, [op]) <==> Possible(s, op)
    ensures Possible(s, op) ==> Run(s, [op]) == Apply(s, op)
  {
    assert [op][..0] == [];
  }

  lemma NewDirectoryOps(s: State, t: Target)
    ensures t.path !in s.nodes && Possible(s, Mkdir(t.path, t.mode)) ==>
      var made := Apply(s, Mkdir(t.path, t.mode));
      var owned := if t.chownNew then Apply(made, Chown(t.path, t.uid)) else made;
      var secured := Apply(owned, Chmod(t.path, t.mode));
      AllPossible(s, EnsureOps(s.nodes, t)) && Run(s, EnsureOps(s.nodes, t)) == secured &&
      t.path in made.nodes && t.path in owned.nodes && t.path in secured.nodes &&
      secured.nodes[t.path] == Inode(Dir, if t.chownNew then t.uid else 0, t.mode, s.nextIdentity, "")
  {
    if t.path !in s.nodes && Possible(s, Mkdir(t.path, t.mode)) {
      var mkdir, chown, chmod := Mkdir(t.path, t.mode), Chown(t.path, t.uid), Chmod(t.path, t.mode);
      RunOne(s, mkdir);
      if t.chownNew {
        RunSnoc(s, [mkdir], chown);
        RunSnoc(s, [mkdir] + [chown], chmod);
        assert EnsureOps(s.nodes, t) == [mkdir] + [chown] + [chmod];
      } else {
        RunSnoc(s, [mkdir], chmod);
        assert EnsureOps(s.nodes, t) == [mkdir] + [chmod];
      }
    }
  }

  lemma {:induction false} RunConcat(s: State, a: seq<Op>, b: seq<Op>)
    ensures Run(s, a + b) == Run(Run(s, a), b)
    ensures AllPossible(s, a + b) <==> AllPossible(s, a) && AllPossible(Run(s, a), b)
  {
    hide Run, AllPossible, Possible, Apply;
    if b == [] {
      assert a + b == a;
      RunNothing(Run(s, a));
    } else {
      var init, last := b[..|b| - 1], b[|b| - 1];
      RunConcat(s, a, init);
      RunSnoc(s, a + init, last);
      RunSnoc(Run(s, a), init, last);
      assert a + b == (a + init) + [last] && b == init + [last];
    }
  }

  lemma RunNothing(s: State)
    ensures Run(s, []) == s && AllPossible(s, [])
  {
  }

  // Distinct targets below the root, each after its parent.
  ghost predicate Ordered(root: Path, targets: seq<Target>)
  {
    (forall i, j :: 0 <= i < j < |targets| ==> targets[i].path != targets[j].path) &&
    (forall i :: 0 <= i < |targets| ==> root < targets[i].path && ParentBefore(root, targets, i)) &&
    forall i :: 0 <= i < |targets| ==>
      (targets[i].chownNew || targets[i].uid == 0) &&
      (targets[i].rejectWritable ==> targets[i].mode & WRITABLE_BY_OTHERS == 0)
  }

  ghost predicate ParentBefore(root: Path, targets: seq<Target>, i: nat)
    requires i < |targets|
  {
    var path := targets[i].path;
    path != [] &&
    (path[..|path| - 1] == root || exists j :: 0 <= j < i && targets[j].path == path[..|path| - 1])
  }

  // A finished target: an existing directory only changes its mode.
  ghost predicate Shaped(s: State, e: State, t: Target)
  {
    t.path in e.nodes &&
    if t.path in s.nodes then e.nodes[t.path] == s.nodes[t.path].(mode := t.mode)
    else e.nodes[t.path].kind == Dir && e.nodes[t.path].uid == t.uid && e.nodes[t.path].mode == t.mode
  }

  ghost predicate Unchanged(s: State, e: State, path: Path)
  {
    (path in s.nodes <==> path in e.nodes) && (path in s.nodes ==> s.nodes[path] == e.nodes[path])
  }

  // The first `upTo` targets are finished; only they and the root's mode differ.
  ghost predicate Done(s: State, e: State, root: Path, targets: seq<Target>, upTo: nat)
    requires upTo <= |targets|
  {
    root in s.nodes && root in e.nodes && e.nodes[root] == s.nodes[root].(mode := BACKUP_ROOT_MODE) &&
    (forall j :: 0 <= j < upTo ==> Shaped(s, e, targets[j])) &&
    forall path :: path != root && (forall j :: 0 <= j < upTo ==> path != targets[j].path) ==> Unchanged(s, e, path)
  }

  // One target: its operations are possible, shape it and touch nothing else.
  lemma EnsureEffect(e: State, t: Target)
    requires t.path in e.nodes || Possible(e, Mkdir(t.path, t.mode))
    requires t.chownNew || t.uid == 0
    ensures var after := Run(e, EnsureOps(e.nodes, t));
      AllPossible(e, EnsureOps(e.nodes, t)) && Shaped(e, after, t) &&
      forall path :: path != t.path ==> Unchanged(e, after, path)
  {
    RunOne(e, Chmod(t.path, t.mode));
    NewDirectoryOps(e, t);
    if t.path !in e.nodes {
      hide Run, AllPossible;
    }
  }

  lemma DoneStart(s: State, root: Path, targets: seq<Target>)
    requires s.IsDir(root)
    ensures var ops := ProvisionOps(s.nodes, root, []); AllPossible(s, ops) && Done(s, Run(s, ops), root, targets, 0)
  {
    RunOne(s, Chmod(root, BACKUP_ROOT_MODE));
    FirstOp(s, root);
  }

  lemma {:induction false} Progress(s: State, root: Path, targets: seq<Target>, upTo: nat)
    requires Ordered(root, targets) && PreflightPasses(s.nodes, targets) && s.IsDir(root) && upTo <= |targets|
    ensures var ops := ProvisionOps(s.nodes, root, targets[..upTo]);
      AllPossible(s, ops) && Done(s, Run(s, ops), root, targets, upTo)
  {
    hide *;
    if upTo == 0 {
      DoneStart(s, root, targets);
      assert targets[..0] == [];
    } else {
      var t := targets[upTo - 1];
      var before := ProvisionOps(s.nodes, root, targets[..upTo - 1]);
      var e := Run(s, before);
      Progress(s, root, targets, upTo - 1);
      TargetReady(s, e, root, targets, upTo - 1);
      TargetShape(root, targets, upTo - 1);
      EnsureEffect(e, t);
      OpsStep(s.nodes, root, targets, upTo - 1);
      RunConcat(s, before, EnsureOps(s.nodes, t));
      SameOps(s, e, t);
      DoneStep(s, e, Run(e, EnsureOps(s.nodes, t)), root, targets, upTo - 1);
    }
  }

  lemma OpsStep(nodes: map<Path, Inode>, root: Path, targets: seq<Target>, i: nat)
    requires i < |targets|
    ensures ProvisionOps(nodes, root, targets[..i + 1]) ==
      ProvisionOps(nodes, root, targets[..i]) + EnsureOps(nodes, targets[i])
  {
    hide EnsureOps;
    assert targets[..i + 1][..i] == targets[..i];
  }

  lemma SameOps(s: State, e: State, t: Target)
    requires Unchanged(s, e, t.path)
    ensures EnsureOps(s.nodes, t) == EnsureOps(e.nodes, t)
  {
  }

  lemma OrderedAt(root: Path, targets: seq<Target>, i: nat)
    requires Ordered(root, targets) && i < |targets|
    ensures root < targets[i].path && ParentBefore(root, targets, i)
    ensures forall j :: 0 <= j < i ==> targets[i].path != targets[j].path
  {
  }

  lemma ParentIsDir(s: State, e: State, root: Path, targets: seq<Target>, i: nat)
    requires Ordered(root, targets) && PreflightPasses(s.nodes, targets) && s.IsDir(root) && i < |targets|
    requires Done(s, e, root, targets, i)
    ensures targets[i].path != [] && e.IsDir(targets[i].path[..|targets[i].path| - 1])
  {
    OrderedAt(root, targets, i);
    hide Ordered;
    var parent := targets[i].path[..|targets[i].path| - 1];
    if parent != root {
      var j :| 0 <= j < i && targets[j].path == parent;
      assert Shaped(s, e, targets[j]) && Safe(s.nodes, targets[j]);
    }
  }

  // The next target is as it was, safe, and can be created.
  lemma TargetReady(s: State, e: State, root: Path, targets: seq<Target>, i: nat)
    requires Ordered(root, targets) && PreflightPasses(s.nodes, targets) && s.IsDir(root) && i < |targets|
    requires Done(s, e, root, targets, i)
    ensures Unchanged(s, e, targets[i].path) && Safe(e.nodes, targets[i])
    ensures targets[i].path in e.nodes || Possible(e, Mkdir(targets[i].path, targets[i].mode))
  {
    ParentIsDir(s, e, root, targets, i);
    OrderedAt(root, targets, i);
    hide Ordered, Shaped;
    assert Unchanged(s, e, targets[i].path) && Safe(s.nodes, targets[i]);
  }

  lemma DoneStep(s: State, e: State, after: State, root: Path, targets: seq<Target>, i: nat)
    requires Ordered(root, targets) && i < |targets| && Done(s, e, root, targets, i)
    requires Unchanged(s, e, targets[i].path) && Shaped(e, after, targets[i])
    requires forall path :: path != targets[i].path ==> Unchanged(e, after, path)
    ensures Done(s, after, root, targets, i + 1)
  {
    assert root != targets[i].path && Unchanged(e, after, root);
    forall j | 0 <= j < i + 1 ensures Shaped(s, after, targets[j]) {
      if j < i {
        assert Shaped(s, e, targets[j]) && targets[j].path != targets[i].path;
        assert Unchanged(e, after, targets[j].path);
      }
    }
    forall path | path != root && (forall j :: 0 <= j < i + 1 ==> path != targets[j].path)
      ensures Unchanged(s, after, path)
    {
      assert path != targets[i].path;
      assert Unchanged(s, e, path) && Unchanged(e, after, path);
    }
  }

  // The parent of each user directory comes earlier in the list.
  function ParentIndex(i: nat): (j: nat)
    requires 0 < i < |USER_DIRECTORIES|
    ensures j < i
  {
    [0, 0, 0, 0, 0, 1, 2, 2, 3, 3][i]
  }

  lemma UserDirectoryParent(i: nat)
    requires 0 < i < |USER_DIRECTORIES|
    ensures USER_DIRECTORIES[i] != []
    ensures USER_DIRECTORIES[i][..|USER_DIRECTORIES[i]| - 1] == USER_DIRECTORIES[ParentIndex(i)]
  {
  }

  lemma UserDirectoriesDiffer(i: nat, j: nat)
    requires i < j < |USER_DIRECTORIES|
    ensures USER_DIRECTORIES[i] != USER_DIRECTORIES[j]
  {
    var p, q := USER_DIRECTORIES[i], USER_DIRECTORIES[j];
    if |p| == |q| {
      assert |p[|p| - 1]| != |q[|q| - 1]| || p[|p| - 1][0] != q[|q| - 1][0];
    }
  }

  lemma TargetPaths(root: Path, uid: nat, i: nat)
    requires 2 <= i < |Targets(root, uid)|
    ensures Targets(root, uid)[i] == UserTarget(root, uid, USER_DIRECTORIES[i - 2])
    ensures |Targets(root, uid)[i].path| >= |root| + 3 && root < Targets(root, uid)[i].path
  {
    hide Numerals.Decimal;
  }

  lemma TargetsDiffer(root: Path, uid: nat, i: nat, j: nat)
    requires i < j < |Targets(root, uid)|
    ensures Targets(root, uid)[i].path != Targets(root, uid)[j].path
  {
    hide Numerals.Decimal, UserRoot;
    if i >= 2 {
      TargetPaths(root, uid, i);
      TargetPaths(root, uid, j);
      UserDirectoriesDiffer(i - 2, j - 2);
      var user := UserRoot(root, uid);
      assert (user + USER_DIRECTORIES[i - 2])[|user|..] == USER_DIRECTORIES[i - 2];
      assert (user + USER_DIRECTORIES[j - 2])[|user|..] == USER_DIRECTORIES[j - 2];
    } else if j >= 2 {
      TargetPaths(root, uid, j);
    }
  }

  lemma TargetParent(root: Path, uid: nat, i: nat)
    requires i < |Targets(root, uid)|
    ensures root < Targets(root, uid)[i].path && ParentBefore(root, Targets(root, uid), i)
  {
    hide Numerals.Decimal;
    var targets := Targets(root, uid);
    var path := targets[i].path;
    if i == 0 {
      assert path[..|path| - 1] == root;
    } else if i == 1 {
      assert path[..|path| - 1] == targets[0].path;
    } else {
      TargetPaths(root, uid, i);
      var user := UserRoot(root, uid);
      if i == 2 {
        assert path == user && path[..|path| - 1] == targets[1].path;
      } else {
        var below := USER_DIRECTORIES[i - 2];
        UserDirectoryParent(i - 2);
        TargetPaths(root, uid, 2 + ParentIndex(i - 2));
        assert (user + below)[..|path| - 1] == user + below[..|below| - 1];
        assert targets[2 + ParentIndex(i - 2)].path == path[..|path| - 1];
      }
    }
  }

  lemma TargetsOrdered(root: Path, uid: nat)
    ensures Ordered(root, Targets(root, uid))
  {
    var targets := Targets(root, uid);
    forall i, j | 0 <= i < j < |targets| ensures targets[i].path != targets[j].path {
      TargetsDiffer(root, uid, i, j);
    }
    forall i | 0 <= i < |targets| ensures root < targets[i].path && ParentBefore(root, targets, i) {
      TargetParent(root, uid, i);
    }
    forall i | 0 <= i < |targets|
      ensures (targets[i].chownNew || targets[i].uid == 0) &&
        (targets[i].rejectWritable ==> targets[i].mode & WRITABLE_BY_OTHERS == 0)
    {
      assert ROOT_PARENT_MODE & WRITABLE_BY_OTHERS == 0;
    }
  }

  // Why provisioning an admitted root refuses, if it does.
  ghost function Verdict(nodes: map<Path, Inode>, admission: RootAdmission, uid: nat): Option<Error>
  {
    if !PreflightPasses(nodes, Targets(admission.root, uid)) then Some(UnsafeExistingPath)
    else Revalidate(nodes, admission)
  }

  lemma VerdictCases(nodes: map<Path, Inode>, admission: RootAdmission, uid: nat)
    ensures Verdict(nodes, admission, uid) ==
      if !PreflightPasses(nodes, Targets(admission.root, uid)) then Some(UnsafeExistingPath)
      else Revalidate(nodes, admission)
  {
  }

  const PREPARE_OPS: seq<Op> :=
    [Mkdir(DEFAULT_BACKUP_ROOT, BACKUP_ROOT_MODE), Chmod(DEFAULT_BACKUP_ROOT, BACKUP_ROOT_MODE)]

  predicate CreatesDefault(nodes: map<Path, Inode>, path: Path)
  {
    path == DEFAULT_BACKUP_ROOT && path !in nodes && Trusted(nodes, [], false)
  }

  function PreparedState(s: State, path: Path): State
  {
    if CreatesDefault(s.nodes, path) then Run(s, PREPARE_OPS) else s
  }

  lemma AdmittedExists(nodes: map<Path, Inode>, path: Path)
    ensures Admit(nodes, path).Ok? ==> path in nodes && Admit(nodes, path).value.root == path
  {
    assert path[..|path|] == path;
    assert Admit(nodes, path).Ok? ==> SoundComponent(nodes, path, path != DEFAULT_BACKUP_ROOT, |path|);
  }

  // Creating the default root below a trusted "/" yields an admissible root.
  lemma DefaultCreation(s: State)
    ensures CreatesDefault(s.nodes, DEFAULT_BACKUP_ROOT) ==>
      var mkdir, chmod := Mkdir(DEFAULT_BACKUP_ROOT, BACKUP_ROOT_MODE), Chmod(DEFAULT_BACKUP_ROOT, BACKUP_ROOT_MODE);
      var after := Apply(Apply(s, mkdir), chmod);
      Possible(s, mkdir) && Possible(Apply(s, mkdir), chmod) && Run(s, PREPARE_OPS) == after &&
      Admit(after.nodes, DEFAULT_BACKUP_ROOT).Ok?
  {
    if CreatesDefault(s.nodes, DEFAULT_BACKUP_ROOT) {
      var mkdir, chmod := Mkdir(DEFAULT_BACKUP_ROOT, BACKUP_ROOT_MODE), Chmod(DEFAULT_BACKUP_ROOT, BACKUP_ROOT_MODE);
      var root: Path := [];
      assert SoundComponent(s.nodes, root, false, 0) && root[..0] == root;
      assert DEFAULT_BACKUP_ROOT[..0] == root && DEFAULT_BACKUP_ROOT[..1] == DEFAULT_BACKUP_ROOT;
      RunOne(s, mkdir);
      RunSnoc(s, [mkdir], chmod);
      assert PREPARE_OPS == [mkdir] + [chmod];
      var after := Apply(Apply(s, mkdir), chmod);
      assert BACKUP_ROOT_MODE & WRITABLE_BY_OTHERS == 0;
      assert SoundComponent(after.nodes, DEFAULT_BACKUP_ROOT, false, 0);
      assert SoundComponent(after.nodes, DEFAULT_BACKUP_ROOT, false, 1);
    }
  }

  // ---------- the helper ----------

  class FilesystemOps {
    var state: State
    // Everything done so far, in order.
    ghost var trace: seq<Op>

    constructor (state: State)
      ensures this.state == state && trace == []
    {
      this.state, trace := state, [];
    }

    method Make(path: Path, mode: bv12) returns (ok: bool)
      modifies this
      ensures ok <==> Possible(old(state), Mkdir(path, mode))
      ensures ok ==> state == Apply(old(state), Mkdir(path, mode)) && trace == old(trace) + [Mkdir(path, mode)]
      ensures !ok ==> state == old(state) && trace == old(trace)
    {
      ok := path !in state.nodes && path != [] && state.IsDir(path[..|path| - 1]);
      if ok {
        state := Apply(state, Mkdir(path, mode));
        trace := trace + [Mkdir(path, mode)];
      }
    }

    method Change(op: Op) returns (ok: bool)
      requires !op.Mkdir?
      modifies this
      ensures ok <==> Possible(old(state), op)
      ensures ok ==> state == Apply(old(state), op) && trace == old(trace) + [op]
      ensures !ok ==> state == old(state) && trace == old(trace)
    {
      ok := op.path in state.nodes;
      if ok {
        state := Apply(state, op);
        trace := trace + [op];
      }
    }

    method ExistingDirectory(t: Target) returns (error: Option<Error>)
      modifies this
      ensures error.None? <==> t.path in old(state).nodes && Safe(old(state).nodes, t)
      ensures error.None? ==>
        var ops := if old(state).nodes[t.path].mode != t.mode then [Chmod(t.path, t.mode)] else [];
        trace == old(trace) + ops && AllPossible(old(state), ops) && state == Run(old(state), ops)
      ensures error.Some? ==> state == old(state) && trace == old(trace)
    {
      RunOne(state, Chmod(t.path, t.mode));
      if t.path !in state.nodes {
        return Some(ProvisioningFailed);
      }
      var info := state.nodes[t.path];
      if info.kind != Dir || info.uid != t.uid || (t.rejectWritable && info.mode & WRITABLE_BY_OTHERS != 0) {
        return Some(UnsafeExistingPath);
      }
      error := None;
      if info.mode != t.mode {
        var ok := Change(Chmod(t.path, t.mode));
      }
    }

    method EnsureDirectory(t: Target) returns (error: Option<Error>)
      requires (t.chownNew || t.uid == 0) && (t.rejectWritable ==> t.mode & WRITABLE_BY_OTHERS == 0)
      modifies this
      ensures error.None? <==>
        Safe(old(state).nodes, t) && (t.path in old(state).nodes || Possible(old(state), Mkdir(t.path, t.mode)))
      ensures error.None? ==> var ops := EnsureOps(old(state).nodes, t);
        trace == old(trace) + ops && AllPossible(old(state), ops) && state == Run(old(state), ops)
      ensures error.Some? ==> state == old(state) && trace == old(trace)
    {
      hide AllPossible, Run, Apply;
      if t.path in state.nodes {
        error := ExistingDirectory(t);
        return;
      }
      NewDirectoryOps(state, t);
      var made := Make(t.path, t.mode);
      if !made {
        return Some(ProvisioningFailed);
      }
      if t.chownNew {
        var owned := Change(Chown(t.path, t.uid));
      }
      var secured := Change(Chmod(t.path, t.mode));
      RunOne(state, Chmod(t.path, t.mode));
      error := ExistingDirectory(t);
    }

    method PreflightProvision(targets: seq<Target>) returns (safe: bool)
      ensures safe <==> PreflightPasses(state.nodes, targets)
    {
      for i := 0 to |targets|
        invariant PreflightPasses(state.nodes, targets[..i])
      {
        if !Safe(state.nodes, targets[i]) {
          return false;
        }
        assert targets[..i + 1] == targets[..i] + [targets[i]];
      }
      assert targets[..|targets|] == targets;
      return true;
    }

    // The part of provision_user_runtime after the admission: preflight, then
    // revalidation, then the changes, which can no longer fail.
    method Provision(admission: RootAdmission, uid: nat) returns (error: Option<Error>)
      modifies this
      ensures error == Verdict(old(state).nodes, admission, uid)
      ensures error.Some? ==> state == old(state) && trace == old(trace)
      ensures error.None? ==>
        var ops := ProvisionOps(old(state).nodes, admission.root, Targets(admission.root, uid));
        trace == old(trace) + ops && AllPossible(old(state), ops) && state == Run(old(state), ops)
    {
      hide *;
      VerdictCases(state.nodes, admission, uid);
      var root, targets := admission.root, Targets(admission.root, uid);
      TargetsOrdered(root, uid);
      var safe := PreflightProvision(targets);
      if !safe {
        return Some(UnsafeExistingPath);
      }
      error := Revalidate(state.nodes, admission);
      if error.Some? {
        return;
      }
      ghost var s := state;
      RootIsDir(s, admission);
      FirstOp(s, root);
      var secured := Change(Chmod(root, BACKUP_ROOT_MODE));
      ghost var rest := EnsureAll(s, root, targets);
    }

    // prepare_backup_root: only the fixed default root is ever created.
    method PrepareBackupRoot(path: Path) returns (result: Result<RootAdmission, Error>)
      modifies this
      ensures state == PreparedState(old(state), path)
      ensures result == Admit(state.nodes, path)
      ensures CreatesDefault(old(state).nodes, path) ==> result.Ok? && trace == old(trace) + PREPARE_OPS
      ensures !CreatesDefault(old(state).nodes, path) ==> trace == old(trace)
    {
      hide ApprovalMarker, Run;
      result := Admit(state.nodes, path);
      AdmittedExists(state.nodes, path);
      if result.Ok? || path != DEFAULT_BACKUP_ROOT || result.error != InvalidBackupRoot || path in state.nodes ||
        !Trusted(state.nodes, [], false)
      {
        return;
      }
      DefaultCreation(state);
      var made := Make(path, BACKUP_ROOT_MODE);
      var secured := Change(Chmod(path, BACKUP_ROOT_MODE));
      result := Admit(state.nodes, path);
    }

    method ProvisionUserRuntime(path: Path, uid: int, admission: Option<RootAdmission>) returns (error: Option<Error>)
      modifies this
      ensures !(1 <= uid <= MAX_VALID_UID) ==> error == Some(InvalidCallerUid) && state == old(state)
      ensures 1 <= uid <= MAX_VALID_UID && admission.Some? && admission.value.root != path ==>
        error == Some(BackupRootChanged) && state == old(state)
      ensures 1 <= uid <= MAX_VALID_UID && (admission.Some? ==> admission.value.root == path) ==>
        var start := if admission.Some? then old(state) else PreparedState(old(state), path);
        var admitted := if admission.Some? then Ok(admission.value) else Admit(start.nodes, path);
        error == (if admitted.Err? then Some(admitted.error) else Verdict(start.nodes, admitted.value, uid)) &&
        state == if error.Some? then start else Run(start, ProvisionOps(start.nodes, path, Targets(path, uid)))
    {
      hide Targets, Run, PreflightPasses, Revalidate, PreparedState, ProvisionOps;
      if !(1 <= uid <= MAX_VALID_UID) {
        return Some(InvalidCallerUid);
      }
      var admitted: RootAdmission;
      if admission.None? {
        var prepared := PrepareBackupRoot(path);
        if prepared.Err? {
          return Some(prepared.error);
        }
        admitted := prepared.value;
      } else {
        if admission.value.root != path {
          return Some(BackupRootChanged);
        }
        admitted := admission.value;
      }
      error := Provision(admitted, uid);
    }

    method EnsureAll(ghost s: State, root: Path, targets: seq<Target>) returns (ghost rest: seq<Op>)
      requires Ordered(root, targets) && PreflightPasses(s.nodes, targets) && s.IsDir(root)
      requires state == Run(s, ProvisionOps(s.nodes, root, []))
      modifies this
      ensures var ops := ProvisionOps(s.nodes, root, targets);
        state == Run(s, ops) && AllPossible(s, ops) &&
        trace == old(trace) + rest && ProvisionOps(s.nodes, root, []) + rest == ops
    {
      hide Run, AllPossible, Possible, Apply, EnsureOps, TargetOps, PreflightPasses, Safe, Done, Ordered, ProvisionOps;
      assert targets[..0] == [];
      ghost var first := ProvisionOps(s.nodes, root, []);
      rest := [];
      for i := 0 to |targets|
        invariant state == Run(s, ProvisionOps(s.nodes, root, targets[..i]))
        invariant first + rest == ProvisionOps(s.nodes, root, targets[..i]) && trace == old(trace) + rest
      {
        Progress(s, root, targets, i);
        TargetReady(s, state, root, targets, i);
        SameOps(s, state, targets[i]);
        OpsStep(s.nodes, root, targets, i);
        RunConcat(s, ProvisionOps(s.nodes, root, targets[..i]), EnsureOps(s.nodes, targets[i]));
        TargetShape(root, targets, i);
        var failed := EnsureDirectory(targets[i]);
        rest := rest + EnsureOps(s.nodes, targets[i]);
      }
      assert targets[..|targets|] == targets;
      Progress(s, root, targets, |targets|);
    }
  }

  lemma TargetShape(root: Path, targets: seq<Target>, i: nat)
    requires Ordered(root, targets) && i < |targets|
    ensures targets[i].chownNew || targets[i].uid == 0
    ensures targets[i].rejectWritable ==> targets[i].mode & WRITABLE_BY_OTHERS == 0
  {
  }

  lemma RootIsDir(s: State, admission: RootAdmission)
    requires Revalidate(s.nodes, admission).None?
    ensures s.IsDir(admission.root)
  {
    assert admission.root[..|admission.root|] == admission.root;
    assert SoundComponent(s.nodes, admission.root, admission.traversal, |admission.root|);
  }

  lemma FirstOp(s: State, root: Path)
    requires s.IsDir(root)
    ensures var op := Chmod(root, BACKUP_ROOT_MODE);
      !op.Mkdir? && Possible(s, op) && ProvisionOps(s.nodes, root, []) == [op] &&
      Run(s, ProvisionOps(s.nodes, root, [])) == Apply(s, op)
  {
    RunOne(s, Chmod(root, BACKUP_ROOT_MODE));
  }
}
