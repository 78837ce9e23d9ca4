// Text operations shared by the path and pattern modules: the handful of
// Python string methods the planner uses, and the facts needed about them.
module Strings {

  datatype Option<+T> = None | Some(value: T)

  datatype Result<+T, +E> = Ok(value: T) | Err(error: E)

  predicate EndsWith(text: string, suffix: string)
  {
    |suffix| <= |text| && text[|text| - |suffix|..] == suffix
  }

  // `needle` occurs in `text` starting at index `i`.
  predicate OccursAt(needle: string, text: string, i: int)
  {
    0 <= i && i + |needle| <= |text| && text[i..i + |needle|] == needle
  }

  // Python's `needle in text`.
  predicate Infix(needle: string, text: string)
  {
    exists i :: 0 <= i <= |text| && OccursAt(needle, text, i)
  }

  // Python's `text.rstrip("/")`.
  function RStrip(text: string): (r: string)
    ensures r <= text
    ensures r != [] ==> r[|r| - 1] != '/'
    ensures forall i :: |r| <= i < |text| ==> text[i] == '/'
  {
    if text != [] && text[|text| - 1] == '/' then RStrip(text[..|text| - 1]) else text
  }

  lemma RStripFixed(text: string)
    requires text == [] || text[|text| - 1] != '/'
    ensures RStrip(text) == text
  {
  }

  lemma InfixTransitive(a: string, b: string, c: string)
    requires Infix(a, b) && Infix(b, c)
    ensures Infix(a, c)
  {
    var i :| 0 <= i <= |b| && OccursAt(a, b, i);
    var j :| 0 <= j <= |c| && OccursAt(b, c, j);
    assert forall k :: 0 <= k < |a| ==> a[k] == b[i + k] && b[i + k] == c[j + (i + k)];
    assert c[j + i..j + i + |a|] == a;
    assert OccursAt(a, c, j + i);
  }
}
