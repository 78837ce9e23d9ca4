// When a backup root is admitted and revalidated and when a user's tree is refused,
// said of inodes and permission bits.
module AdmissionTheorems {
  import opened Strings
  import opened Paths
  import opened Provisioning
  import Numerals

  // A directory of root's that nobody else may write.
  ghost predicate Secure(nodes: map<Path, Inode>, path: Path)
  {
    path in nodes && nodes[path].kind == Dir && nodes[path].uid == 0 && nodes[path].mode & 0x012 == 0
  }

  // Every component is secure, and outside the default root others may pass through.
  ghost predicate SecureWay(nodes: map<Path, Inode>, path: Path)
  {
    forall k :: 0 <= k <= |path| ==>
      Secure(nodes, path[..k]) &&
      (path != ["backup"] && k < |path| ==> nodes[path[..k]].mode & 0x001 != 0)
  }

  ghost predicate SystemPath(path: Path)
  {
    path == [] || path[0] in ["etc", "usr", "var", "home", "root", "proc", "sys", "dev", "run"]
  }

  ghost predicate ApprovalPresent(nodes: map<Path, Inode>, path: Path)
  {
    path + [".ubackup"] in nodes &&
    (Secure(nodes, path + [".ubackup"]) ==> path + [".ubackup", "approved"] in nodes)
  }

  ghost predicate Approved(nodes: map<Path, Inode>, path: Path)
  {
    Secure(nodes, path + [".ubackup"]) && path + [".ubackup", "approved"] in nodes &&
    var marker := nodes[path + [".ubackup", "approved"]];
    marker.kind == Regular && marker.uid == 0 && marker.mode == 0x180 && marker.content == "ubackup-root-v1\n"
  }

  lemma BlockedExactly(path: Path)
    ensures Blocked(path) <==> SystemPath(path)
  {
    if Blocked(path) && path != [] {
      var k :| 0 <= k < |BLOCKED_BACKUP_ROOTS| &&
        (path == BLOCKED_BACKUP_ROOTS[k] || (BLOCKED_BACKUP_ROOTS[k] != [] && BLOCKED_BACKUP_ROOTS[k] <= path));
      assert path[0] == BLOCKED_BACKUP_ROOTS[k][0];
    }
    if path == [] {
      assert path == BLOCKED_BACKUP_ROOTS[0];
    } else if SystemPath(path) {
      var names := ["etc", "usr", "var", "home", "root", "proc", "sys", "dev", "run"];
      var k :| 0 <= k < |names| && names[k] == path[0];
      assert BLOCKED_BACKUP_ROOTS[k + 1] == [names[k]];
      assert BLOCKED_BACKUP_ROOTS[k + 1] <= path;
    }
  }

  lemma TrustedExactly(nodes: map<Path, Inode>, path: Path)
    ensures Trusted(nodes, path, path != DEFAULT_BACKUP_ROOT) <==> SecureWay(nodes, path)
  {
    var traversal := path != DEFAULT_BACKUP_ROOT;
    if Trusted(nodes, path, traversal) {
      forall k | 0 <= k <= |path|
        ensures Secure(nodes, path[..k])
        ensures path != ["backup"] && k < |path| ==> nodes[path[..k]].mode & 0x001 != 0
      {
        assert SoundComponent(nodes, path, traversal, k);
      }
    }
    if SecureWay(nodes, path) {
      forall k | 0 <= k <= |path| ensures SoundComponent(nodes, path, traversal, k) {
        assert Secure(nodes, path[..k]);
      }
    }
  }

  ghost function Refusal(nodes: map<Path, Inode>, path: Path): Error
  {
    if SystemPath(path) || !SecureWay(nodes, path) then InvalidBackupRoot
    else if ApprovalPresent(nodes, path) then ApprovalInvalid
    else ApprovalRequired
  }

  // Admission and its errors, in the order in which they are found.
  lemma AdmittedExactly(nodes: map<Path, Inode>, path: Path)
    ensures Admit(nodes, path).Ok? <==>
      !SystemPath(path) && SecureWay(nodes, path) && (path == ["backup"] || Approved(nodes, path))
    ensures Admit(nodes, path).Err? ==> Admit(nodes, path).error == Refusal(nodes, path)
  {
    hide Trusted, Blocked, SecureWay, SystemPath, Ancestry, RootIdentity;
    BlockedExactly(path);
    TrustedExactly(nodes, path);
  }

  // An admission revalidates exactly if admitting the root again gives the same one.
  lemma RevalidateExactly(before: map<Path, Inode>, after: map<Path, Inode>, path: Path)
    requires Admit(before, path).Ok?
    ensures Revalidate(after, Admit(before, path).value).None? <==> Admit(after, path) == Admit(before, path)
  {
    hide Trusted, Blocked, Ancestry, RootIdentity, ApprovalMarker;
  }

  ghost predicate SameInode(before: map<Path, Inode>, after: map<Path, Inode>, path: Path)
  {
    path in before && path in after && after[path].identity == before[path].identity
  }

  // What such an admission pins: the identity of every component and of the marker.
  lemma RevalidatedIsSame(before: map<Path, Inode>, after: map<Path, Inode>, path: Path)
    requires Admit(before, path).Ok? && Admit(after, path).Ok?
    ensures Admit(after, path) == Admit(before, path) <==>
      (forall k :: 0 <= k <= |path| ==> SameInode(before, after, path[..k])) &&
      (path != ["backup"] ==> SameInode(before, after, path + [".ubackup", "approved"]))
  {
    hide Trusted, Blocked, SecureWay, SystemPath, ApprovalMarker;
    AdmittedExactly(before, path);
    AdmittedExactly(after, path);
    var a, b := Admit(before, path).value, Admit(after, path).value;
    WayIdentities(before, path);
    WayIdentities(after, path);
    MarkerIdentity(before, path);
    MarkerIdentity(after, path);
    assert path[..|path|] == path;
    if a.ancestry == b.ancestry {
      forall k | 0 <= k <= |path| ensures after[path[..k]].identity == before[path[..k]].identity {
        assert a.ancestry[k] == b.ancestry[k];
      }
    }
  }

  lemma WayIdentities(nodes: map<Path, Inode>, path: Path)
    requires Admit(nodes, path).Ok?
    ensures var a := Admit(nodes, path).value;
      a.root == path && a.traversal == (path != ["backup"]) && |a.ancestry| == |path| + 1 &&
      (forall k :: 0 <= k <= |path| ==>
          path[..k] in nodes && a.ancestry[k] == (path[..k], nodes[path[..k]].identity)) &&
      path in nodes && a.rootIdentity == nodes[path].identity
  {
    hide ApprovalMarker, Blocked;
    assert path[..|path|] == path;
    forall k | 0 <= k <= |path| ensures path[..k] in nodes {
      assert SoundComponent(nodes, path, path != DEFAULT_BACKUP_ROOT, k);
    }
  }

  lemma MarkerIdentity(nodes: map<Path, Inode>, path: Path)
    requires Admit(nodes, path).Ok?
    ensures path != ["backup"] ==>
      path + [".ubackup", "approved"] in nodes &&
      Admit(nodes, path).value.marker == Some(nodes[path + [".ubackup", "approved"]].identity)
    ensures path == ["backup"] ==> Admit(nodes, path).value.marker == None
  {
    hide Trusted, Blocked, Ancestry, RootIdentity;
  }

  // Provisioning refuses a tree exactly if one of the two parents exists and is not
  // secure, or one of the user's directories exists and is not the user's directory.
  lemma RefusedExactly(nodes: map<Path, Inode>, admission: RootAdmission, uid: nat)
    ensures Verdict(nodes, admission, uid) == Some(UnsafeExistingPath) <==>
      (admission.root + [".ubackup"] in nodes && !Secure(nodes, admission.root + [".ubackup"])) ||
      (admission.root + [".ubackup", "users"] in nodes && !Secure(nodes, admission.root + [".ubackup", "users"])) ||
      exists k :: 0 <= k < |USER_DIRECTORIES| && Foreign(nodes, UserPath(admission.root, uid, k), uid)
  {
    hide Safe, Revalidate, Secure;
    var root, targets := admission.root, Targets(admission.root, uid);
    RevalidateErrors(nodes, admission);
    SafeParent(nodes, root + [".ubackup"]);
    SafeParent(nodes, root + [".ubackup", "users"]);
    forall k | 0 <= k < |USER_DIRECTORIES|
      ensures Safe(nodes, targets[k + 2]) <==> !Foreign(nodes, UserPath(root, uid, k), uid)
    {
      SafeUser(nodes, UserPath(root, uid, k), uid);
    }
    assert targets[0] == Target(root + [".ubackup"], 0, ROOT_PARENT_MODE, false, true);
    assert targets[1] == Target(root + [".ubackup", "users"], 0, ROOT_PARENT_MODE, false, true);
    if !PreflightPasses(nodes, targets) {
      var k :| 0 <= k < |targets| && !Safe(nodes, targets[k]);
      assert k >= 2 ==> Foreign(nodes, UserPath(root, uid, k - 2), uid);
    }
  }

  // Nothing but the absent default root below a secure "/" is ever created by preparing.
  lemma PreparedExactly(s: State, path: Path)
    ensures PreparedState(s, path) != s ==> path == ["backup"] && path !in s.nodes && Secure(s.nodes, [])
    ensures path == ["backup"] && path !in s.nodes && Secure(s.nodes, []) ==>
      var prepared := PreparedState(s, path);
      Secure(prepared.nodes, path) && prepared.nodes[path].mode == 0x1C9 && Admit(prepared.nodes, path).Ok? &&
      forall other :: other != path ==>
        (other in prepared.nodes <==> other in s.nodes) &&
        (other in s.nodes ==> prepared.nodes[other] == s.nodes[other])
  {
    hide Run, Admit;
    RootTrusted(s.nodes);
    DefaultCreation(s);
    if CreatesDefault(s.nodes, path) {
      CreatedRoot(s);
    }
  }

  lemma RootTrusted(nodes: map<Path, Inode>)
    ensures Trusted(nodes, [], false) <==> Secure(nodes, [])
  {
    var root: Path := [];
    assert root[..0] == root;
    if Trusted(nodes, root, false) {
      assert SoundComponent(nodes, root, false, 0);
    }
  }

  lemma CreatedRoot(s: State)
    requires ["backup"] !in s.nodes
    ensures var path, after := ["backup"],
                Apply(Apply(s, Mkdir(DEFAULT_BACKUP_ROOT, BACKUP_ROOT_MODE)),
                      Chmod(DEFAULT_BACKUP_ROOT, BACKUP_ROOT_MODE));
      Secure(after.nodes, path) && after.nodes[path].mode == 0x1C9 &&
      forall other :: other != path ==>
        (other in after.nodes <==> other in s.nodes) && (other in s.nodes ==> after.nodes[other] == s.nodes[other])
  {
    assert BACKUP_ROOT_MODE & 0x012 == 0;
  }

  function UserPath(root: Path, uid: nat, k: nat): Path
    requires k < |USER_DIRECTORIES|
  {
    root + [".ubackup", "users", Numerals.Decimal(uid)] + USER_DIRECTORIES[k]
  }

  ghost predicate Foreign(nodes: map<Path, Inode>, path: Path, uid: nat)
  {
    path in nodes && (nodes[path].kind != Dir || nodes[path].uid != uid)
  }

  lemma RevalidateErrors(nodes: map<Path, Inode>, admission: RootAdmission)
    ensures Revalidate(nodes, admission) != Some(UnsafeExistingPath)
  {
    hide Trusted, Ancestry, RootIdentity;
  }

  lemma SafeParent(nodes: map<Path, Inode>, path: Path)
    ensures Safe(nodes, Target(path, 0, ROOT_PARENT_MODE, false, true)) <==> (path in nodes ==> Secure(nodes, path))
  {
  }

  lemma SafeUser(nodes: map<Path, Inode>, path: Path, uid: nat)
    ensures Safe(nodes, Target(path, uid, USER_DIRECTORY_MODE, true, false)) <==> !Foreign(nodes, path, uid)
  {
  }
}
