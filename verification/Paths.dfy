// Absolute paths as sequences of components, and their text as pathlib prints it.
module Paths {
  import opened Strings
  import opened Patterns

  type Path = seq<string>

  predicate ValidName(name: string)
  {
    name != "" && name != "." && '/' !in name
  }

  predicate Valid(path: Path)
  {
    forall i :: 0 <= i < |path| ==> ValidName(path[i])
  }

  predicate PathMetaFree(path: Path)
  {
    forall i :: 0 <= i < |path| ==> MetaFree(path[i])
  }

  // Every component with its leading slash; empty for the root.
  function Flat(path: Path): (text: string)
    ensures path != [] ==> "/" <= text
  {
    if path == [] then "" else "/" + path[0] + Flat(path[1..])
  }

  function Text(path: Path): (text: string)
    ensures "/" <= text
  {
    if path == [] then "/" else Flat(path)
  }

  lemma {:induction false} FlatEnd(path: Path)
    requires Valid(path) && path != []
    ensures Flat(path)[|Flat(path)| - 1] != '/'
  {
    if |path| > 1 {
      FlatEnd(path[1..]);
    } else {
      assert Flat(path) == "/" + path[0];
      assert path[0][|path[0]| - 1] in path[0];
    }
  }

  lemma TextStripped(path: Path)
    requires Valid(path)
    ensures RStrip(Text(path)) == Flat(path)
  {
    if path == [] {
      assert "/"[..0] == "";
    } else {
      FlatEnd(path);
      RStripFixed(Flat(path));
    }
  }

  // Two slash-free names followed by a slash or by nothing are aligned.
  lemma NamesAlign(a: string, restA: string, b: string, restB: string)
    requires '/' !in a && '/' !in b
    requires "/" <= restA && (restB == "" || "/" <= restB)
    requires a + restA <= b + restB
    ensures a == b && restA <= restB
  {
    var left, right := a + restA, b + restB;
    assert forall k :: 0 <= k < |a| ==> left[k] == a[k] && a[k] in a;
    assert forall k :: 0 <= k < |b| ==> right[k] == b[k] && b[k] in b;
    assert forall k :: 0 <= k < |left| ==> left[k] == right[k];
    assert left[|a|] == '/';
    assert restB != "" ==> right[|b|] == '/';
    assert |a| == |b|;
    assert left[..|a|] == a && right[..|b|] == b;
    assert left[|a|..] == restA && right[|a|..] == restB;
  }

  // The string test `prefix.rstrip("/") + "/"` is a prefix of the text exactly
  // when the components are a proper prefix.
  lemma {:induction false} FlatBelow(p: Path, q: Path)
    requires Valid(p) && Valid(q)
    ensures Flat(p) + "/" <= Flat(q) <==> p < q
  {
    if p == [] {
      assert Flat(p) + "/" == "/";
    } else if q == [] {
    } else {
      FlatBelow(p[1..], q[1..]);
      var restP := Flat(p[1..]) + "/";
      assert Flat(p) + "/" == "/" + (p[0] + restP);
      assert Flat(q) == "/" + (q[0] + Flat(q[1..]));
      assert ValidName(p[0]) && ValidName(q[0]);
      if Flat(p) + "/" <= Flat(q) {
        assert (Flat(p) + "/")[1..] == p[0] + restP;
        assert Flat(q)[1..] == q[0] + Flat(q[1..]);
        assert "/" <= restP;
        NamesAlign(p[0], restP, q[0], Flat(q[1..]));
        assert p == [p[0]] + p[1..] && q == [q[0]] + q[1..];
      }
      if p < q {
        assert p[0] == q[0] && p[1..] < q[1..];
        assert restP <= Flat(q[1..]);
      }
    }
  }

  lemma {:induction false} FlatInjective(p: Path, q: Path)
    requires Valid(p) && Valid(q) && Flat(p) == Flat(q)
    ensures p == q
  {
    var s := "x";
    assert Valid(q + [s]);
    FlatConcat(q, [s]);
    assert Flat([s]) == "/" + s by { assert [s][1..] == []; }
    assert Flat(p) + "/" <= Flat(q + [s]);
    FlatBelow(p, q + [s]);
    FlatConcat(p, [s]);
    assert Flat(q) + "/" <= Flat(p + [s]);
    FlatBelow(q, p + [s]);
    assert |p| == |q|;
    assert p == (q + [s])[..|p|];
  }

  lemma {:induction false} FlatConcat(p: Path, q: Path)
    ensures Flat(p + q) == Flat(p) + Flat(q)
  {
    if p == [] {
      assert p + q == q;
    } else {
      assert (p + q)[1..] == p[1..] + q;
      FlatConcat(p[1..], q);
    }
  }

  // Python's containment test on texts, as `_contains` and the prefix patterns write it.
  predicate ContainsText(root: string, text: string)
  {
    text == root || RStrip(root) + "/" <= text
  }

  // Containment of texts is the prefix relation on components.
  lemma ContainsIsPrefix(root: Path, path: Path)
    requires Valid(root) && Valid(path)
    ensures ContainsText(Text(root), Text(path)) <==> root <= path
  {
    TextStripped(root);
    FlatBelow(root, path);
    if Text(root) == Text(path) {
      TextStripped(path);
      FlatInjective(root, path);
    }
    if root <= path && |root| == |path| {
      assert root == path;
    }
    if root == [] {
      assert Flat(root) + "/" == "/";
    } else {
      assert |Flat(root)| > 1;
    }
  }

  lemma TextInjective(p: Path, q: Path)
    requires Valid(p) && Valid(q) && Text(p) == Text(q)
    ensures p == q
  {
    TextStripped(p);
    TextStripped(q);
    FlatInjective(p, q);
  }

  // Within `text` no slash is followed by another one or by "./".
  predicate Clean(text: string)
  {
    forall i :: 0 <= i < |text| - 1 && text[i] == '/' ==>
      text[i + 1] != '/' && !(i + 2 < |text| && text[i + 1] == '.' && text[i + 2] == '/')
  }

  lemma OccursChars(text: string, i: int)
    ensures OccursAt("//", text, i) ==> text[i] == '/' && text[i + 1] == '/'
    ensures OccursAt("/./", text, i) ==> text[i] == '/' && text[i + 1] == '.' && text[i + 2] == '/'
  {
    if OccursAt("//", text, i) {
      var part := text[i..i + 2];
      assert text[i] == part[0] && text[i + 1] == part[1];
    }
    if OccursAt("/./", text, i) {
      var part := text[i..i + 3];
      assert text[i] == part[0] && text[i + 1] == part[1] && text[i + 2] == part[2];
    }
  }

  lemma CleanHasNoSlashRun(text: string)
    requires Clean(text)
    ensures !Infix("//", text) && !Infix("/./", text)
  {
    forall i ensures !OccursAt("//", text, i) && !OccursAt("/./", text, i) {
      OccursChars(text, i);
    }
  }

  lemma CleanStep(name: string, rest: string)
    requires ValidName(name) && "/" <= rest && Clean(rest)
    ensures Clean("/" + name + rest)
  {
    var text := "/" + name + rest;
    assert forall k :: 1 <= k <= |name| ==> text[k] == name[k - 1] && name[k - 1] in name;
    assert forall k :: |name| < k < |text| ==> text[k] == rest[k - 1 - |name|];
    assert |name| == 1 ==> name == [name[0]];
    forall i | 0 <= i < |text| - 1 && text[i] == '/'
      ensures text[i + 1] != '/' && !(i + 2 < |text| && text[i + 1] == '.' && text[i + 2] == '/')
    {
      if i == 0 {
        assert text[1] == name[0];
      } else {
        assert i > |name|;
        assert rest[i - 1 - |name|] == '/';
      }
    }
  }

  lemma {:induction false} FlatClean(path: Path)
    requires Valid(path)
    ensures Clean(Flat(path) + "/")
  {
    if path != [] {
      FlatClean(path[1..]);
      assert Flat(path) + "/" == "/" + path[0] + (Flat(path[1..]) + "/");
      CleanStep(path[0], Flat(path[1..]) + "/");
    }
  }

  lemma {:induction false} FlatMetaFree(path: Path)
    requires PathMetaFree(path)
    ensures MetaFree(Flat(path))
  {
    if path != [] {
      FlatMetaFree(path[1..]);
    }
  }

  // Component paths print as normalised texts, so the matcher theorems apply to them.
  lemma TextNormalized(path: Path)
    requires Valid(path)
    ensures Normalized(Text(path))
    ensures PathMetaFree(path) ==> MetaFree(Text(path)) && MetaFree(Flat(path))
  {
    if PathMetaFree(path) {
      FlatMetaFree(path);
    }
    if path != [] {
      FlatClean(path);
      CleanHasNoSlashRun(Flat(path) + "/");
    }
  }
}
