// Provisioning over whole runs: what a finished run leaves, why a second run
// changes nothing, and from which interruptions a rerun can recover.
module ProvisionTheorems {
  import opened Strings
  import opened Paths
  import opened Provisioning
  import Numerals

  // ---------- a finished run ----------

  predicate Owned(e: State, path: Path, uid: nat, mode: bv12)
  {
    e.IsDir(path) && e.nodes[path].uid == uid && e.nodes[path].mode == mode
  }

  lemma RootParents(root: Path, uid: nat)
    ensures Targets(root, uid)[0] == Target(root + [".ubackup"], 0, 0x1C9, false, true)
    ensures Targets(root, uid)[1] == Target(root + [".ubackup", "users"], 0, 0x1C9, false, true)
  {
  }

  // An admitted root that passes the checks ends with every directory owned and
  // closed as intended; existing directories keep their identity, and nothing
  // but the targets and the root's mode is different.
  lemma ProvisionedTree(s: State, a: RootAdmission, uid: nat)
    requires Verdict(s.nodes, a, uid).None?
    ensures var targets := Targets(a.root, uid);
      var ops := ProvisionOps(s.nodes, a.root, targets);
      var e := Run(s, ops);
      AllPossible(s, ops) && Done(s, e, a.root, targets, |targets|) &&
      Owned(e, a.root + [".ubackup"], 0, 0x1C9) && Owned(e, a.root + [".ubackup", "users"], 0, 0x1C9) &&
      (forall k :: 0 <= k < |USER_DIRECTORIES| ==> Owned(e, UserRoot(a.root, uid) + USER_DIRECTORIES[k], uid, 0x1C0)) &&
      forall k :: 0 <= k < |targets| ==> Owned(e, targets[k].path, targets[k].uid, targets[k].mode)
  {
    var targets := Targets(a.root, uid);
    hide Targets, Run, AllPossible, Ordered, ProvisionOps, Revalidate;
    TargetsOrdered(a.root, uid);
    RootIsDir(s, a);
    Progress(s, a.root, targets, |targets|);
    assert targets[..|targets|] == targets;
    var e := Run(s, ProvisionOps(s.nodes, a.root, targets));
    forall k | 0 <= k < |targets| ensures Owned(e, targets[k].path, targets[k].uid, targets[k].mode) {
      assert Shaped(s, e, targets[k]) && Safe(s.nodes, targets[k]);
    }
    forall k | 0 <= k < |USER_DIRECTORIES|
      ensures Owned(e, UserRoot(a.root, uid) + USER_DIRECTORIES[k], uid, 0x1C0)
    {
      TargetPaths(a.root, uid, k + 2);
    }
    RootParents(a.root, uid);
  }

  // ---------- what every run leaves alone ----------

  // Modes of existing directories may have been set; nothing else that existed
  // has changed, and nothing but targets may be new.
  ghost predicate Preserves(s: State, e: State, root: Path, targets: seq<Target>)
  {
    (forall path :: path != root && (forall j :: 0 <= j < |targets| ==> path != targets[j].path) ==>
        Unchanged(s, e, path)) &&
    Remodes(s, e, root, BACKUP_ROOT_MODE) &&
    forall j :: 0 <= j < |targets| ==> Remodes(s, e, targets[j].path, targets[j].mode)
  }

  ghost predicate Remodes(s: State, e: State, path: Path, mode: bv12)
  {
    path in s.nodes ==>
      path in e.nodes && (e.nodes[path] == s.nodes[path] || e.nodes[path] == s.nodes[path].(mode := mode))
  }

  lemma ShortIsNoTarget(root: Path, uid: nat, path: Path)
    ensures var targets := Targets(root, uid);
      (|path| <= |root| || path == root + [".ubackup", "approved"]) ==>
        forall j :: 0 <= j < |targets| ==> path != targets[j].path
  {
    var targets := Targets(root, uid);
    forall j | 0 <= j < |targets|
      ensures (|path| <= |root| || path == root + [".ubackup", "approved"]) ==> path != targets[j].path
    {
      if j >= 2 {
        TargetPaths(root, uid, j);
      } else {
        assert (root + [".ubackup", "approved"])[|root| + 1] == "approved";
        assert (root + [".ubackup", "users"])[|root| + 1] == "users";
        assert "approved" != "users" by {
          assert |"approved"| != |"users"|;
        }
      }
    }
  }

  lemma ComponentStable(s: State, e: State, a: RootAdmission, uid: nat, k: nat)
    requires Preserves(s, e, a.root, Targets(a.root, uid)) && k <= |a.root|
    requires SoundComponent(s.nodes, a.root, a.traversal, k)
    ensures SoundComponent(e.nodes, a.root, a.traversal, k)
    ensures e.nodes[a.root[..k]].identity == s.nodes[a.root[..k]].identity
  {
    hide Targets;
    ShortIsNoTarget(a.root, uid, a.root[..k]);
    assert BACKUP_ROOT_MODE & WRITABLE_BY_OTHERS == 0;
    if k == |a.root| {
      assert a.root[..k] == a.root;
    } else {
      assert a.root[..k] != a.root;
      assert Unchanged(s, e, a.root[..k]);
    }
  }

  lemma MarkerStable(s: State, e: State, root: Path, uid: nat)
    requires Preserves(s, e, root, Targets(root, uid)) && ApprovalMarker(s.nodes, root).Ok?
    ensures ApprovalMarker(e.nodes, root) == ApprovalMarker(s.nodes, root)
  {
    var targets := Targets(root, uid);
    var marker := root + [".ubackup", "approved"];
    assert targets[0] == Target(root + [".ubackup"], 0, ROOT_PARENT_MODE, false, true);
    hide Targets;
    ShortIsNoTarget(root, uid, marker);
    assert Remodes(s, e, targets[0].path, targets[0].mode);
    assert ROOT_PARENT_MODE & WRITABLE_BY_OTHERS == 0;
    assert Unchanged(s, e, marker);
  }

  // Whatever prefix of a run was made, the admission still revalidates.
  lemma RevalidateStable(s: State, e: State, a: RootAdmission, uid: nat)
    requires Preserves(s, e, a.root, Targets(a.root, uid)) && Revalidate(s.nodes, a).None?
    ensures Revalidate(e.nodes, a).None?
  {
    hide Targets, Preserves, SoundComponent, ApprovalMarker;
    var root, traversal := a.root, a.traversal;
    forall k | 0 <= k <= |root|
      ensures SoundComponent(s.nodes, root, traversal, k) && SoundComponent(e.nodes, root, traversal, k)
    {
      ComponentStable(s, e, a, uid, k);
    }
    var before, after := Ancestry(s.nodes, root, traversal), Ancestry(e.nodes, root, traversal);
    forall k | 0 <= k <= |root| ensures before[k] == after[k] {
      ComponentStable(s, e, a, uid, k);
    }
    assert before == after;
    assert root[..|root|] == root;
    ComponentStable(s, e, a, uid, |root|);
    if a.marker.Some? {
      MarkerStable(s, e, root, uid);
    }
  }

  lemma DonePreserves(s: State, e: State, root: Path, targets: seq<Target>, upTo: nat)
    requires upTo <= |targets| && Ordered(root, targets) && Done(s, e, root, targets, upTo)
    ensures Preserves(s, e, root, targets)
  {
    forall j | 0 <= j < |targets| ensures Remodes(s, e, targets[j].path, targets[j].mode) {
      OrderedAt(root, targets, j);
      if j < upTo {
        assert Shaped(s, e, targets[j]);
      } else {
        assert Unchanged(s, e, targets[j].path);
      }
    }
  }

  // ---------- running it again ----------

  lemma {:induction false} NothingToDo(e: State, targets: seq<Target>)
    requires forall k :: 0 <= k < |targets| ==>
      targets[k].path in e.nodes && e.nodes[targets[k].path].mode == targets[k].mode
    ensures TargetOps(e.nodes, targets) == []
  {
    if targets != [] {
      var init := targets[..|targets| - 1];
      assert forall k :: 0 <= k < |init| ==> init[k] == targets[k];
      NothingToDo(e, init);
    }
  }

  // A second run on the result passes every check again and changes nothing.
  lemma SecondRun(s: State, a: RootAdmission, uid: nat)
    requires Verdict(s.nodes, a, uid).None?
    ensures var targets := Targets(a.root, uid);
      var e := Run(s, ProvisionOps(s.nodes, a.root, targets));
      Verdict(e.nodes, a, uid).None? && Run(e, ProvisionOps(e.nodes, a.root, targets)) == e
  {
    var targets := Targets(a.root, uid);
    var ops := ProvisionOps(s.nodes, a.root, targets);
    var e := Run(s, ops);
    hide Targets, Run, AllPossible, Revalidate;
    ProvisionedTree(s, a, uid);
    TargetsOrdered(a.root, uid);
    DonePreserves(s, e, a.root, targets, |targets|);
    RevalidateStable(s, e, a, uid);
    forall k | 0 <= k < |targets| ensures Safe(e.nodes, targets[k]) {
      TargetShape(a.root, targets, k);
    }
    NothingToDo(e, targets);
    assert ProvisionOps(e.nodes, a.root, targets) == [Chmod(a.root, BACKUP_ROOT_MODE)];
    ChmodAgain(e, a.root, BACKUP_ROOT_MODE);
  }

  lemma ChmodAgain(e: State, path: Path, mode: bv12)
    requires path in e.nodes && e.nodes[path].mode == mode
    ensures Run(e, [Chmod(path, mode)]) == e
  {
    hide Run;
    RunOne(e, Chmod(path, mode));
    assert e.nodes[path] == e.nodes[path].(mode := mode);
    assert e.nodes[path := e.nodes[path]] == e.nodes;
  }

  // ---------- interrupted runs ----------

  // The first k operations end inside one target, or right after the root's chmod.
  lemma {:induction false} PrefixPlace(nodes: map<Path, Inode>, root: Path, targets: seq<Target>, n: nat, k: nat)
    returns (i: nat, m: nat)
    requires n <= |targets| && 1 <= k <= |ProvisionOps(nodes, root, targets[..n])|
    ensures i <= n && (m == 0 ==> i == 0 && k == 1)
    ensures m > 0 ==> i < n && m <= |EnsureOps(nodes, targets[i])|
    ensures m > 0 ==> ProvisionOps(nodes, root, targets[..n])[k - 1] == EnsureOps(nodes, targets[i])[m - 1]
    ensures m == 0 ==> ProvisionOps(nodes, root, targets[..n])[k - 1] == Chmod(root, BACKUP_ROOT_MODE)
    ensures ProvisionOps(nodes, root, targets[..n])[..k] == ProvisionOps(nodes, root, targets[..i]) +
      if m == 0 then [] else EnsureOps(nodes, targets[i])[..m]
  {
    hide EnsureOps, TargetOps, ProvisionOps;
    StartOps(nodes, root);
    var ops := ProvisionOps(nodes, root, targets[..n]);
    if n == 0 {
      i, m := 0, 0;
      assert targets[..0] == [] && ops[..k] == ops;
    } else {
      var before := ProvisionOps(nodes, root, targets[..n - 1]);
      OpsStep(nodes, root, targets, n - 1);
      if k <= |before| {
        i, m := PrefixPlace(nodes, root, targets, n - 1, k);
        assert ops[..k] == before[..k] && ops[k - 1] == before[k - 1];
      } else {
        i, m := n - 1, k - |before|;
        assert ops[..k] == before + EnsureOps(nodes, targets[i])[..m];
      }
    }
  }

  lemma StartOps(nodes: map<Path, Inode>, root: Path)
    ensures ProvisionOps(nodes, root, []) == [Chmod(root, BACKUP_ROOT_MODE)]
  {
  }

  lemma MaskedMode(mode: bv12, umask: bv12)
    requires mode & WRITABLE_BY_OTHERS == 0
    ensures (mode & !umask) & WRITABLE_BY_OTHERS == 0
  {
  }

  // The operations on one target, one after the other.
  lemma NewPrefix(e: State, t: Target, m: nat)
    requires t.path !in e.nodes && 0 < m <= |EnsureOps(e.nodes, t)|
    ensures var made := Apply(e, Mkdir(t.path, t.mode));
      var owned := if t.chownNew then Apply(made, Chown(t.path, t.uid)) else made;
      Run(e, EnsureOps(e.nodes, t)[..m]) ==
        if m == 1 then made else if m == 2 && t.chownNew then owned else Apply(owned, Chmod(t.path, t.mode))
  {
    hide Apply, Possible, Run;
    var ops := EnsureOps(e.nodes, t);
    RunNothing(e);
    RunSnoc(e, [], ops[0]);
    assert ops[..1] == [] + [ops[0]];
    if m >= 2 {
      RunSnoc(e, ops[..1], ops[1]);
      assert ops[..2] == ops[..1] + [ops[1]];
    }
    if m >= 3 {
      RunSnoc(e, ops[..2], ops[2]);
      assert ops[..3] == ops[..2] + [ops[2]];
    }
  }

  // The state inside one target: only a directory made but not yet handed over
  // is unsafe.
  lemma PartialEffect(e: State, t: Target, m: nat)
    requires t.path in e.nodes || Possible(e, Mkdir(t.path, t.mode))
    requires (t.chownNew || t.uid == 0) && (t.rejectWritable ==> t.mode & WRITABLE_BY_OTHERS == 0)
    requires 0 < m <= |EnsureOps(e.nodes, t)| && Safe(e.nodes, t)
    ensures var after := Run(e, EnsureOps(e.nodes, t)[..m]);
      (forall path :: path != t.path ==> Unchanged(e, after, path)) && Remodes(e, after, t.path, t.mode) &&
      (Safe(after.nodes, t) <==> !(EnsureOps(e.nodes, t)[m - 1].Mkdir? && t.uid != 0))
  {
    hide Run, AllPossible;
    var ops := EnsureOps(e.nodes, t);
    if t.path in e.nodes {
      RunOne(e, Chmod(t.path, t.mode));
      assert ops[..m] == [Chmod(t.path, t.mode)];
    } else {
      NewPrefix(e, t, m);
      if t.rejectWritable {
        MaskedMode(t.mode, e.umask);
      }
    }
  }

  predicate UserDirectory(root: Path, uid: nat, path: Path)
  {
    UserRoot(root, uid) <= path
  }

  lemma UserTargets(root: Path, uid: nat, i: nat)
    requires i < |Targets(root, uid)|
    ensures Targets(root, uid)[i].uid == if UserDirectory(root, uid, Targets(root, uid)[i].path) then uid else 0
  {
    hide Numerals.Decimal;
    if i >= 2 {
      TargetPaths(root, uid, i);
    }
  }

  // After any number of operations a rerun is admitted and safe, except exactly
  // when the last one made a user directory that still belongs to root: then the
  // preflight refuses until somebody removes it.
  lemma InterruptedRun(s: State, a: RootAdmission, uid: nat, k: nat)
    requires Verdict(s.nodes, a, uid).None? && uid > 0
    requires k <= |ProvisionOps(s.nodes, a.root, Targets(a.root, uid))|
    ensures var ops := ProvisionOps(s.nodes, a.root, Targets(a.root, uid));
      Verdict(Run(s, ops[..k]).nodes, a, uid) ==
        if k > 0 && ops[k - 1].Mkdir? && UserDirectory(a.root, uid, ops[k - 1].path) then Some(UnsafeExistingPath)
        else None
  {
    var root, targets := a.root, Targets(a.root, uid);
    var ops := ProvisionOps(s.nodes, root, targets);
    hide *;
    VerdictCases(s.nodes, a, uid);
    VerdictCases(Run(s, ops[..k]).nodes, a, uid);
    TargetsOrdered(root, uid);
    RootIsDir(s, a);
    if k == 0 {
      RunNothing(s);
      assert ops[..0] == [];
    } else {
      assert targets[..|targets|] == targets;
      var i, m := PrefixPlace(s.nodes, root, targets, |targets|, k);
      var d := Run(s, ProvisionOps(s.nodes, root, targets[..i]));
      Progress(s, root, targets, i);
      if m == 0 {
        assert ops[..k] == ProvisionOps(s.nodes, root, targets[..i]);
        DonePreserves(s, d, root, targets, i);
        DoneIsSafe(s, d, root, targets, i);
        RevalidateStable(s, d, a, uid);
      } else {
        RunConcat(s, ProvisionOps(s.nodes, root, targets[..i]), EnsureOps(s.nodes, targets[i])[..m]);
        InsideTarget(s, d, root, targets, i, m);
        RevalidateStable(s, Run(s, ops[..k]), a, uid);
        UserTargets(root, uid, i);
        EnsurePaths(s.nodes, targets[i], m - 1);
      }
    }
  }

  lemma EnsurePaths(nodes: map<Path, Inode>, t: Target, m: nat)
    requires m < |EnsureOps(nodes, t)|
    ensures EnsureOps(nodes, t)[m].path == t.path
  {
  }

  lemma DoneIsSafe(s: State, d: State, root: Path, targets: seq<Target>, upTo: nat)
    requires Ordered(root, targets) && PreflightPasses(s.nodes, targets) && upTo <= |targets|
    requires Done(s, d, root, targets, upTo)
    ensures PreflightPasses(d.nodes, targets)
  {
    forall j | 0 <= j < |targets| ensures Safe(d.nodes, targets[j]) {
      OrderedAt(root, targets, j);
      TargetShape(root, targets, j);
      assert Safe(s.nodes, targets[j]);
      if j < upTo {
        assert Shaped(s, d, targets[j]);
      } else {
        assert Unchanged(s, d, targets[j].path);
      }
    }
  }

  lemma InsideTarget(s: State, d: State, root: Path, targets: seq<Target>, i: nat, m: nat)
    requires Ordered(root, targets) && PreflightPasses(s.nodes, targets) && s.IsDir(root) && i < |targets|
    requires Done(s, d, root, targets, i) && 0 < m <= |EnsureOps(s.nodes, targets[i])|
    ensures var e := Run(d, EnsureOps(s.nodes, targets[i])[..m]);
      Preserves(s, e, root, targets) &&
      (PreflightPasses(e.nodes, targets) <==> !(EnsureOps(s.nodes, targets[i])[m - 1].Mkdir? && targets[i].uid != 0))
  {
    var t := targets[i];
    var e := Run(d, EnsureOps(s.nodes, t)[..m]);
    hide Run, Possible, EnsureOps, Safe, Done;
    TargetReady(s, d, root, targets, i);
    TargetShape(root, targets, i);
    SameOps(s, d, t);
    PartialEffect(d, t, m);
    DonePreserves(s, d, root, targets, i);
    DoneIsSafe(s, d, root, targets, i);
    OthersKept(s, d, e, root, targets, i);
  }

  lemma OthersKept(s: State, d: State, e: State, root: Path, targets: seq<Target>, i: nat)
    requires Ordered(root, targets) && i < |targets| && Preserves(s, d, root, targets)
    requires PreflightPasses(d.nodes, targets) && Unchanged(s, d, targets[i].path)
    requires (forall path :: path != targets[i].path ==> Unchanged(d, e, path)) &&
      Remodes(d, e, targets[i].path, targets[i].mode)
    ensures Preserves(s, e, root, targets)
    ensures PreflightPasses(e.nodes, targets) <==> Safe(e.nodes, targets[i])
  {
    OrderedAt(root, targets, i);
    assert root != targets[i].path && Unchanged(d, e, root);
    forall j | 0 <= j < |targets|
      ensures Remodes(s, e, targets[j].path, targets[j].mode) && (j != i ==> Safe(e.nodes, targets[j]))
    {
      OrderedAt(root, targets, j);
      assert Remodes(s, d, targets[j].path, targets[j].mode) && Safe(d.nodes, targets[j]);
      assert j != i ==> Unchanged(d, e, targets[j].path);
    }
    forall path | path != root && (forall j :: 0 <= j < |targets| ==> path != targets[j].path)
      ensures Unchanged(s, e, path)
    {
      assert Unchanged(s, d, path) && Unchanged(d, e, path);
    }
  }

  // ---------- at every moment of a run ----------

  // mkdir asks for the final mode, and the umask can only take bits away from it. No
  // later directory has the same identity.
  lemma MadeMode(s: State, path: Path, mode: bv12)
    ensures var made, after := Apply(s, Mkdir(path, mode)).nodes[path], Apply(s, Mkdir(path, mode));
      s.nextIdentity <= made.identity < after.nextIdentity &&
      made.kind == Dir && made.uid == 0 && IsMasked(made.mode, mode, s.umask)
  {
    hide IsMasked;
    MaskSplits(mode, s.umask);
  }

  // The mode without the bits of the umask.
  predicate IsMasked(made: bv12, mode: bv12, umask: bv12)
  {
    made & umask == 0 && made | umask == mode | umask
  }

  lemma MaskSplits(mode: bv12, umask: bv12)
    ensures IsMasked(mode & !umask, mode, umask)
  {
  }

  // The permissions nobody but the owner may get on a directory made by the run.
  function Denied(root: Path, uid: nat, path: Path): bv12
  {
    if UserDirectory(root, uid, path) then 0x03F else 0x036 // 0o077, 0o066
  }

  predicate Lacks(mode: bv12, denied: bv12)
  {
    mode & denied == 0
  }

  ghost predicate Narrow(root: Path, uid: nat, op: Op)
  {
    op.Chown? || Lacks(op.mode, Denied(root, uid, op.path))
  }

  lemma MaskedLacks(mode: bv12, umask: bv12, denied: bv12)
    requires Lacks(mode, denied)
    ensures Lacks(mode & !umask, denied)
  {
  }

  lemma {:induction false} RunIsNarrow(s: State, ops: seq<Op>, root: Path, uid: nat)
    requires forall op :: op in ops ==> Narrow(root, uid, op)
    ensures forall path :: path in Run(s, ops).nodes && path !in s.nodes ==>
      Lacks(Run(s, ops).nodes[path].mode, Denied(root, uid, path))
  {
    hide Denied, Apply, Narrow, Lacks;
    if ops != [] {
      var init, last := ops[..|ops| - 1], ops[|ops| - 1];
      RunIsNarrow(s, init, root, uid);
      assert Narrow(root, uid, last);
      ApplyIsNarrow(Run(s, init), last, root, uid);
    }
  }

  lemma ApplyIsNarrow(s: State, op: Op, root: Path, uid: nat)
    requires Narrow(root, uid, op)
    ensures forall path :: path in Apply(s, op).nodes ==>
      (path in s.nodes && Apply(s, op).nodes[path].mode == s.nodes[path].mode) ||
      Lacks(Apply(s, op).nodes[path].mode, Denied(root, uid, path))
  {
    hide Denied, Lacks;
    if op.Mkdir? {
      MaskedLacks(op.mode, s.umask, Denied(root, uid, op.path));
    }
  }

  lemma {:induction false} OpsAreNarrow(nodes: map<Path, Inode>, targets: seq<Target>, root: Path, uid: nat)
    requires forall t :: t in targets ==> Lacks(t.mode, Denied(root, uid, t.path))
    ensures forall op :: op in TargetOps(nodes, targets) ==> Narrow(root, uid, op)
  {
    hide Denied, Lacks;
    if targets != [] {
      var init, last := targets[..|targets| - 1], targets[|targets| - 1];
      OpsAreNarrow(nodes, init, root, uid);
      assert last in targets;
    }
  }

  lemma TargetsAreNarrow(root: Path, uid: nat, t: Target)
    requires t in Targets(root, uid)
    ensures Lacks(t.mode, Denied(root, uid, t.path))
  {
    var i :| 0 <= i < |Targets(root, uid)| && Targets(root, uid)[i] == t;
    if i < 2 {
      assert |t.path| < |UserRoot(root, uid)|;
    } else {
      assert USER_DIRECTORY_MODE & 0x03F == 0;
      assert USER_DIRECTORY_MODE & 0x036 == 0;
    }
  }

  lemma RootModeLacks()
    ensures Lacks(BACKUP_ROOT_MODE, 0x036)
  {
  }

  // However early a run stops, and whatever the umask, what it has made is never open:
  // nobody but the owner can read or write a new directory, or enter one of the user's.
  lemma NeverOpen(s: State, root: Path, uid: nat, k: nat)
    requires k <= |ProvisionOps(s.nodes, root, Targets(root, uid))|
    ensures var after := Run(s, ProvisionOps(s.nodes, root, Targets(root, uid))[..k]);
      forall path :: path in after.nodes && path !in s.nodes ==>
        Lacks(after.nodes[path].mode, if UserRoot(root, uid) <= path then 0x03F else 0x036)
  {
    hide Run, Targets, TargetOps, Lacks;
    var ops := ProvisionOps(s.nodes, root, Targets(root, uid));
    forall t | t in Targets(root, uid) ensures Lacks(t.mode, Denied(root, uid, t.path)) {
      TargetsAreNarrow(root, uid, t);
    }
    OpsAreNarrow(s.nodes, Targets(root, uid), root, uid);
    assert Lacks(BACKUP_ROOT_MODE, 0x036) by { RootModeLacks(); }
    assert !(UserRoot(root, uid) <= root);
    RunIsNarrow(s, ops[..k], root, uid);
  }
}
