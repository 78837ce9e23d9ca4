// Bounded directory listings: the max-heap of filesystem_navigation.py and
// restic_engine.py keeps the first entries of the sort order and nothing else.
module Listing {
  import opened Strings

  const MAX_DIRECTORY_NODES := 10000

  // (not is_dir, name.casefold(), name)
  datatype Key = Key(notDirectory: bool, folded: string, name: string)

  datatype Entry = Entry(key: Key, item: nat)

  // ---------- the key order ----------

  // Python's string order: by code point, a proper prefix first.
  predicate TextLess(a: string, b: string)
  {
    if b == [] then false
    else if a == [] then true
    else if a[0] != b[0] then a[0] < b[0]
    else TextLess(a[1..], b[1..])
  }

  predicate KeyLess(a: Key, b: Key)
  {
    if a.notDirectory != b.notDirectory then b.notDirectory
    else if a.folded != b.folded then TextLess(a.folded, b.folded)
    else TextLess(a.name, b.name)
  }

  lemma {:induction false} TextTrichotomy(a: string, b: string)
    ensures TextLess(a, b) ==> a != b && !TextLess(b, a)
    ensures a != b ==> TextLess(a, b) || TextLess(b, a)
  {
    if a != [] && b != [] {
      assert a == [a[0]] + a[1..] && b == [b[0]] + b[1..];
      TextTrichotomy(a[1..], b[1..]);
    }
  }

  lemma {:induction false} TextTransitive(a: string, b: string, c: string)
    requires TextLess(a, b) && TextLess(b, c)
    ensures TextLess(a, c)
  {
    if a != [] && a[0] == b[0] == c[0] {
      TextTransitive(a[1..], b[1..], c[1..]);
    }
  }

  lemma KeyTrichotomy(a: Key, b: Key)
    ensures KeyLess(a, b) ==> a != b && !KeyLess(b, a)
    ensures a != b ==> KeyLess(a, b) || KeyLess(b, a)
  {
    hide TextLess;
    TextTrichotomy(a.folded, b.folded);
    TextTrichotomy(a.name, b.name);
  }

  lemma KeyTransitive(a: Key, b: Key, c: Key)
    requires KeyLess(a, b) && KeyLess(b, c)
    ensures KeyLess(a, c)
  {
    hide TextLess;
    TextTrichotomy(a.folded, b.folded);
    if a.notDirectory == b.notDirectory == c.notDirectory {
      if a.folded != b.folded && b.folded != c.folded {
        TextTransitive(a.folded, b.folded, c.folded);
        TextTrichotomy(a.folded, c.folded);
        TextTrichotomy(b.folded, c.folded);
      } else if a.folded == b.folded == c.folded {
        TextTransitive(a.name, b.name, c.name);
      }
    }
  }

  // Not greater: the order the heap and the sort compare with.
  predicate AtMost(a: Entry, b: Entry)
  {
    !KeyLess(b.key, a.key)
  }

  lemma AtMostTransitive(a: Entry, b: Entry, c: Entry)
    requires AtMost(a, b) && AtMost(b, c)
    ensures AtMost(a, c)
  {
    hide KeyLess;
    KeyTrichotomy(a.key, b.key);
    KeyTrichotomy(b.key, c.key);
    KeyTrichotomy(a.key, c.key);
    if KeyLess(c.key, a.key) && a.key != b.key && b.key != c.key {
      KeyTransitive(a.key, b.key, c.key);
    }
  }

  // ---------- sorting ----------

  ghost predicate DistinctKeys(entries: seq<Entry>)
  {
    forall i, j :: 0 <= i < j < |entries| ==> entries[i].key != entries[j].key
  }

  ghost predicate Sorted(entries: seq<Entry>)
  {
    forall i, j :: 0 <= i < j < |entries| ==> AtMost(entries[i], entries[j])
  }

  function Insert(entries: seq<Entry>, entry: Entry): (result: seq<Entry>)
    ensures multiset(result) == multiset(entries) + multiset{entry}
    ensures |result| == |entries| + 1
  {
    if entries == [] || KeyLess(entry.key, entries[0].key) then [entry] + entries
    else
      assert entries == [entries[0]] + entries[1..];
      [entries[0]] + Insert(entries[1..], entry)
  }

  // list.sort: the reference the bounded listing is compared with.
  function Sort(entries: seq<Entry>): (result: seq<Entry>)
    ensures multiset(result) == multiset(entries)
    ensures |result| == |entries|
  {
    if entries == [] then []
    else
      assert entries == entries[..|entries| - 1] + [entries[|entries| - 1]];
      Insert(Sort(entries[..|entries| - 1]), entries[|entries| - 1])
  }

  lemma {:induction false} InsertSorted(entries: seq<Entry>, entry: Entry)
    requires Sorted(entries)
    ensures Sorted(Insert(entries, entry))
  {
    hide KeyLess;
    KeyTrichotomyAll();
    if entries != [] {
      var head, tail := entries[0], entries[1..];
      if KeyLess(entry.key, head.key) {
        forall i | 0 <= i < |entries| ensures AtMost(entry, entries[i]) {
          if i > 0 {
            AtMostTransitive(entry, head, entries[i]);
          }
        }
      } else {
        InsertSorted(tail, entry);
        var rest := Insert(tail, entry);
        forall i | 0 <= i < |rest| ensures AtMost(head, rest[i]) {
          assert rest[i] in multiset(rest);
          assert rest[i] == entry || rest[i] in multiset(tail);
          if rest[i] != entry {
            var k :| 0 <= k < |tail| && tail[k] == rest[i];
            assert entries[k + 1] == tail[k];
          }
        }
      }
    }
  }

  lemma KeyTrichotomyAll()
    ensures forall a: Key, b: Key :: KeyLess(a, b) ==> !KeyLess(b, a)
  {
    forall a: Key, b: Key ensures KeyLess(a, b) ==> !KeyLess(b, a) {
      KeyTrichotomy(a, b);
    }
  }

  lemma {:induction false} SortSorted(entries: seq<Entry>)
    ensures Sorted(Sort(entries))
  {
    if entries != [] {
      SortSorted(entries[..|entries| - 1]);
      InsertSorted(Sort(entries[..|entries| - 1]), entries[|entries| - 1]);
    }
  }

  // `a` comes before `b` by code points: at the first difference, or as a proper beginning.
  ghost predicate Before(a: string, b: string)
  {
    exists k: nat :: DiffersAt(a, b, k)
  }

  ghost predicate DiffersAt(a: string, b: string, k: nat)
  {
    k <= |a| && k < |b| && (forall i :: 0 <= i < k ==> a[i] == b[i]) && (k == |a| || a[k] < b[k])
  }

  lemma {:induction false} TextLessIsBefore(a: string, b: string)
    ensures TextLess(a, b) <==> Before(a, b)
  {
    if a == [] || b == [] {
      assert b != [] ==> DiffersAt(a, b, 0);
    } else if a[0] != b[0] {
      assert a[0] < b[0] ==> DiffersAt(a, b, 0);
    } else {
      TextLessIsBefore(a[1..], b[1..]);
      if k: nat :| DiffersAt(a[1..], b[1..], k) {
        assert forall i :: 0 < i < k + 1 ==> a[i] == a[1..][i - 1] && b[i] == b[1..][i - 1];
        assert DiffersAt(a, b, k + 1);
      }
      if k: nat :| DiffersAt(a, b, k) {
        assert k > 0;
        assert DiffersAt(a[1..], b[1..], k - 1);
      }
    }
  }

  // How a directory is shown: directories first, then by folded name, then by name.
  ghost predicate InOrder(a: Key, b: Key)
  {
    (!b.notDirectory ==> !a.notDirectory) &&
    (a.notDirectory == b.notDirectory && a.folded != b.folded ==> Before(a.folded, b.folded)) &&
    (a.notDirectory == b.notDirectory && a.folded == b.folded && a.name != b.name ==> Before(a.name, b.name))
  }

  ghost predicate Presented(entries: seq<Entry>)
  {
    forall i, j :: 0 <= i < j < |entries| ==> InOrder(entries[i].key, entries[j].key)
  }

  lemma AtMostIsInOrder(a: Entry, b: Entry)
    ensures AtMost(a, b) ==> InOrder(a.key, b.key)
  {
    hide TextLess, Before;
    TextTrichotomy(a.key.folded, b.key.folded);
    TextTrichotomy(a.key.name, b.key.name);
    TextLessIsBefore(a.key.folded, b.key.folded);
    TextLessIsBefore(a.key.name, b.key.name);
  }

  // The order of a sorted directory, said without the comparison that sorts it.
  lemma SortPresents(entries: seq<Entry>)
    ensures Presented(Sort(entries))
  {
    hide Sort, AtMost, InOrder;
    SortSorted(entries);
    var sorted := Sort(entries);
    forall i, j | 0 <= i < j < |sorted| ensures InOrder(sorted[i].key, sorted[j].key) {
      AtMostIsInOrder(sorted[i], sorted[j]);
    }
  }

  lemma DistinctMembers(entries: seq<Entry>, a: Entry, b: Entry)
    requires DistinctKeys(entries) && a in entries && b in entries && a.key == b.key
    ensures a == b
  {
  }

  // A sorted permutation of entries with distinct keys is unique.
  lemma {:induction false} SortedUnique(a: seq<Entry>, b: seq<Entry>, all: seq<Entry>)
    requires Sorted(a) && Sorted(b) && multiset(a) == multiset(b)
    requires DistinctKeys(all) && (forall x :: x in a ==> x in all)
    ensures a == b
    decreases |a|
  {
    hide KeyLess, Sorted, DistinctKeys, AtMost;
    assert |a| == |multiset(a)| == |b|;
    if a != [] {
      FirstInBoth(a, b);
      FirstInBoth(b, a);
      SameFirst(a, b, all);
      SortedTail(a);
      SortedTail(b);
      SortedUnique(a[1..], b[1..], all);
      assert a == [a[0]] + a[1..] && b == [b[0]] + b[1..];
    }
  }

  lemma FirstInBoth(a: seq<Entry>, b: seq<Entry>)
    requires a != [] && multiset(a) == multiset(b)
    ensures a[0] in b
  {
    assert a[0] in multiset(b);
  }

  lemma SortedTail(entries: seq<Entry>)
    requires Sorted(entries) && entries != []
    ensures Sorted(entries[1..]) && multiset(entries[1..]) == multiset(entries) - multiset{entries[0]}
    ensures forall entry :: entry in entries[1..] ==> entry in entries
  {
    hide AtMost;
    assert entries == [entries[0]] + entries[1..];
  }

  lemma SameFirst(a: seq<Entry>, b: seq<Entry>, all: seq<Entry>)
    requires a != [] && b != [] && Sorted(a) && Sorted(b) && a[0] in b && b[0] in a
    requires DistinctKeys(all) && a[0] in all && b[0] in all
    ensures a[0] == b[0]
  {
    hide KeyLess, Sorted, DistinctKeys;
    FirstAtMost(a, b[0]);
    FirstAtMost(b, a[0]);
    KeyTrichotomy(a[0].key, b[0].key);
    if a[0].key == b[0].key {
      DistinctMembers(all, a[0], b[0]);
    }
  }

  lemma FirstAtMost(entries: seq<Entry>, entry: Entry)
    requires Sorted(entries) && entry in entries
    ensures AtMost(entries[0], entry)
  {
    KeyTrichotomy(entry.key, entry.key);
  }

  // ---------- the heap ----------

  // heapq order under _LargestKey: a parent is never smaller than its children.
  ghost predicate HeapOrdered(heap: seq<Entry>)
  {
    forall i {:trigger heap[i]} :: 1 <= i < |heap| ==> AtMost(heap[i], heap[(i - 1) / 2])
  }

  lemma {:induction false} RootIsLargest(heap: seq<Entry>, i: nat)
    requires HeapOrdered(heap) && i < |heap|
    ensures AtMost(heap[i], heap[0])
  {
    if i == 0 {
      KeyTrichotomy(heap[0].key, heap[0].key);
    } else {
      RootIsLargest(heap, (i - 1) / 2);
      AtMostTransitive(heap[i], heap[(i - 1) / 2], heap[0]);
    }
  }

  function Swap(heap: seq<Entry>, i: nat, j: nat): (swapped: seq<Entry>)
    requires i < |heap| && j < |heap|
    ensures |swapped| == |heap| && multiset(swapped) == multiset(heap)
  {
    heap[i := heap[j]][j := heap[i]]
  }

  // Heap order except that the entry at `hole` may be larger than its parent.
  ghost predicate OrderedAbove(heap: seq<Entry>, hole: nat)
  {
    (forall i {:trigger heap[i]} :: 1 <= i < |heap| && i != hole ==> AtMost(heap[i], heap[(i - 1) / 2])) &&
    (hole > 0 ==> forall i {:trigger heap[i]} :: 1 <= i < |heap| && (i - 1) / 2 == hole ==>
        AtMost(heap[i], heap[(hole - 1) / 2]))
  }

  // Heap order except that the entry at `hole` may be smaller than its children.
  ghost predicate OrderedBelow(heap: seq<Entry>, hole: nat)
  {
    (forall i {:trigger heap[i]} :: 1 <= i < |heap| && (i - 1) / 2 != hole ==> AtMost(heap[i], heap[(i - 1) / 2])) &&
    (hole > 0 ==> forall i {:trigger heap[i]} :: 1 <= i < |heap| && (i - 1) / 2 == hole ==>
        AtMost(heap[i], heap[(hole - 1) / 2]))
  }

  method HeapPush(heap: seq<Entry>, entry: Entry) returns (pushed: seq<Entry>)
    requires HeapOrdered(heap)
    ensures HeapOrdered(pushed) && multiset(pushed) == multiset(heap) + multiset{entry}
    ensures |pushed| == |heap| + 1
  {
    hide KeyLess;
    KeyTrichotomyAll();
    pushed := heap + [entry];
    var hole := |heap|;
    while hole > 0 && KeyLess(pushed[(hole - 1) / 2].key, pushed[hole].key)
      invariant 0 <= hole < |pushed| == |heap| + 1
      invariant multiset(pushed) == multiset(heap) + multiset{entry}
      invariant OrderedAbove(pushed, hole)
    {
      var parent := (hole - 1) / 2;
      SwapUp(pushed, hole);
      pushed := Swap(pushed, hole, parent);
      hole := parent;
    }
  }

  lemma SwapUp(heap: seq<Entry>, hole: nat)
    requires 0 < hole < |heap| && OrderedAbove(heap, hole)
    requires KeyLess(heap[(hole - 1) / 2].key, heap[hole].key)
    ensures OrderedAbove(Swap(heap, hole, (hole - 1) / 2), (hole - 1) / 2)
  {
    hide KeyLess;
    KeyTrichotomyAll();
    var parent := (hole - 1) / 2;
    var swapped := Swap(heap, hole, parent);
    forall i {:trigger swapped[i]} | 1 <= i < |heap| && i != parent ensures AtMost(swapped[i], swapped[(i - 1) / 2]) {
      if i != hole && (i - 1) / 2 == parent {
        AtMostTransitive(heap[i], heap[parent], heap[hole]);
      }
    }
    if parent > 0 {
      forall i | 1 <= i < |heap| && (i - 1) / 2 == parent
        ensures AtMost(swapped[i], swapped[(parent - 1) / 2])
      {
        if i != hole {
          AtMostTransitive(heap[i], heap[parent], heap[(parent - 1) / 2]);
        }
      }
    }
  }

  method HeapReplace(heap: seq<Entry>, entry: Entry) returns (replaced: seq<Entry>)
    requires HeapOrdered(heap) && heap != []
    ensures HeapOrdered(replaced)
    ensures multiset(replaced) == multiset(heap) - multiset{heap[0]} + multiset{entry}
    ensures |replaced| == |heap|
  {
    hide KeyLess;
    KeyTrichotomyAll();
    replaced := heap[0 := entry];
    var hole := 0;
    while 2 * hole + 1 < |replaced|
      invariant 0 <= hole < |replaced| == |heap|
      invariant multiset(replaced) == multiset(heap) - multiset{heap[0]} + multiset{entry}
      invariant OrderedBelow(replaced, hole)
    {
      var child := 2 * hole + 1;
      if child + 1 < |replaced| && KeyLess(replaced[child].key, replaced[child + 1].key) {
        child := child + 1;
      }
      if !KeyLess(replaced[hole].key, replaced[child].key) {
        StopDown(replaced, hole, child);
        return;
      }
      SwapDown(replaced, hole, child);
      replaced := Swap(replaced, hole, child);
      hole := child;
    }
  }

  lemma StopDown(heap: seq<Entry>, hole: nat, child: nat)
    requires child < |heap| && OrderedBelow(heap, hole)
    requires (child == 2 * hole + 1 || child == 2 * hole + 2)
    requires 2 * hole + 1 < |heap| ==> AtMost(heap[2 * hole + 1], heap[child])
    requires 2 * hole + 2 < |heap| ==> AtMost(heap[2 * hole + 2], heap[child])
    requires AtMost(heap[child], heap[hole])
    ensures HeapOrdered(heap)
  {
    hide KeyLess;
    forall i | 1 <= i < |heap| && (i - 1) / 2 == hole ensures AtMost(heap[i], heap[hole]) {
      AtMostTransitive(heap[i], heap[child], heap[hole]);
    }
  }

  lemma SwapDown(heap: seq<Entry>, hole: nat, child: nat)
    requires child < |heap| && OrderedBelow(heap, hole)
    requires (child == 2 * hole + 1 || child == 2 * hole + 2)
    requires 2 * hole + 1 < |heap| ==> AtMost(heap[2 * hole + 1], heap[child])
    requires 2 * hole + 2 < |heap| ==> AtMost(heap[2 * hole + 2], heap[child])
    requires KeyLess(heap[hole].key, heap[child].key)
    ensures OrderedBelow(Swap(heap, hole, child), child)
  {
    hide KeyLess;
    KeyTrichotomyAll();
    var swapped := Swap(heap, hole, child);
    assert hole < child;
    forall i {:trigger swapped[i]} | 1 <= i < |heap| && (i - 1) / 2 != child
      ensures AtMost(swapped[i], swapped[(i - 1) / 2])
    {
      if i == hole {
        assert AtMost(heap[child], heap[(hole - 1) / 2]);
      }
    }
  }

  // ---------- the bounded listing ----------

  // The heap holds what comes first: nothing outside it sorts before anything in it.
  ghost predicate KeepsFirst(heap: seq<Entry>, rest: seq<Entry>, seen: seq<Entry>, keep: nat)
  {
    HeapOrdered(heap) && multiset(heap) + multiset(rest) == multiset(seen) &&
    |heap| <= keep && (|heap| < keep ==> rest == []) &&
    forall x, y :: x in heap && y in rest ==> AtMost(x, y)
  }

  lemma PushStep(heap: seq<Entry>, rest: seq<Entry>, seen: seq<Entry>, keep: nat, entry: Entry, pushed: seq<Entry>)
    requires KeepsFirst(heap, rest, seen, keep) && |heap| < keep
    requires HeapOrdered(pushed) && |pushed| == |heap| + 1
    requires multiset(pushed) == multiset(heap) + multiset{entry}
    ensures KeepsFirst(pushed, rest, seen + [entry], keep)
  {
    hide HeapOrdered, AtMost;
  }

  lemma ReplaceStep(heap: seq<Entry>, rest: seq<Entry>, seen: seq<Entry>, keep: nat, entry: Entry, replaced: seq<Entry>)
    requires KeepsFirst(heap, rest, seen, keep) && |heap| == keep > 0
    requires KeyLess(entry.key, heap[0].key)
    requires HeapOrdered(replaced) && |replaced| == |heap|
    requires multiset(replaced) == multiset(heap) - multiset{heap[0]} + multiset{entry}
    ensures KeepsFirst(replaced, rest + [heap[0]], seen + [entry], keep)
  {
    KeyTrichotomy(entry.key, heap[0].key);
    hide KeyLess;
    var displaced := rest + [heap[0]];
    assert heap[0] in multiset(heap);
    forall x, y | x in replaced && y in displaced ensures AtMost(x, y) {
      assert x in multiset(replaced);
      if x != entry {
        assert x in multiset(heap);
        RootIsLargestMember(heap, x);
      }
      if y in rest && x == entry {
        assert heap[0] in heap;
        AtMostTransitive(entry, heap[0], y);
      }
    }
    hide HeapOrdered, AtMost;
    assert multiset(displaced) == multiset(rest) + multiset{heap[0]};
  }

  lemma SkipStep(heap: seq<Entry>, rest: seq<Entry>, seen: seq<Entry>, keep: nat, entry: Entry)
    requires KeepsFirst(heap, rest, seen, keep) && |heap| == keep > 0
    requires AtMost(heap[0], entry)
    ensures KeepsFirst(heap, rest + [entry], seen + [entry], keep)
  {
    forall x | x in heap ensures AtMost(x, entry) {
      RootIsLargestMember(heap, x);
      AtMostTransitive(x, heap[0], entry);
    }
    hide HeapOrdered, AtMost;
  }

  lemma RootIsLargestMember(heap: seq<Entry>, entry: Entry)
    requires HeapOrdered(heap) && entry in heap
    ensures AtMost(entry, heap[0])
  {
    hide HeapOrdered, AtMost;
    var i: nat :| i < |heap| && heap[i] == entry;
    RootIsLargest(heap, i);
  }

  // What the heap keeps, once sorted, is the start of the sorted whole.
  lemma KeptIsPrefix(heap: seq<Entry>, rest: seq<Entry>, all: seq<Entry>, keep: nat)
    requires KeepsFirst(heap, rest, all, keep) && DistinctKeys(all)
    ensures |heap| == if |all| < keep then |all| else keep
    ensures Sort(heap) == Sort(all)[..|heap|]
  {
    hide KeyLess, HeapOrdered, Sort;
    assert |multiset(all)| == |multiset(heap)| + |multiset(rest)|;
    var kept, left, joined := Sort(heap), Sort(rest), Sort(heap) + Sort(rest);
    SortSorted(heap);
    SortSorted(rest);
    SortSorted(all);
    forall i, j | 0 <= i < j < |joined| ensures AtMost(joined[i], joined[j]) {
      if i < |kept| <= j {
        assert joined[i] in multiset(heap) && joined[j] in multiset(rest);
        assert joined[i] in heap && joined[j] in rest;
      }
    }
    assert multiset(joined) == multiset(all);
    forall x | x in joined ensures x in all {
      assert x in multiset(all);
    }
    SortedUnique(joined, Sort(all), all);
  }

  lemma EmptyHeap()
    ensures HeapOrdered([])
  {
  }

  // Push while there is room, then replace the root whenever a smaller key
  // arrives. Comparing with an empty heap is the source's IndexError.
  method KeepFirst(entries: seq<Entry>, keep: nat) returns (heap: seq<Entry>, indexError: bool)
    requires DistinctKeys(entries)
    ensures indexError <==> keep == 0 && entries != []
    ensures !indexError ==> |heap| == (if |entries| < keep then |entries| else keep)
    ensures !indexError ==> Sort(heap) == Sort(entries)[..|heap|]
  {
    hide KeyLess, HeapOrdered, Sort;
    EmptyHeap();
    heap, indexError := [], false;
    ghost var rest := [];
    for i := 0 to |entries|
      invariant KeepsFirst(heap, rest, entries[..i], keep)
      invariant |heap| <= keep
      invariant keep == 0 ==> i == 0
    {
      var entry := entries[i];
      assert entries[..i + 1] == entries[..i] + [entry];
      if |heap| < keep {
        var pushed := HeapPush(heap, entry);
        PushStep(heap, rest, entries[..i], keep, entry, pushed);
        heap := pushed;
      } else if heap == [] {
        return heap, true;
      } else if KeyLess(entry.key, heap[0].key) {
        var replaced := HeapReplace(heap, entry);
        ReplaceStep(heap, rest, entries[..i], keep, entry, replaced);
        rest := rest + [heap[0]];
        heap := replaced;
      } else {
        SkipStep(heap, rest, entries[..i], keep, entry);
        rest := rest + [entry];
      }
    }
    assert entries[..|entries|] == entries;
    KeptIsPrefix(heap, rest, entries, keep);
  }

  // Python's entries[start:start + count] for non-negative bounds.
  function Window(entries: seq<Entry>, start: nat, count: nat): (window: seq<Entry>)
    ensures |window| <= count
    ensures forall k :: 0 <= k < |window| ==> start + k < |entries| && window[k] == entries[start + k]
  {
    var first := if start < |entries| then start else |entries|;
    var last := if start + count < |entries| then start + count else |entries|;
    entries[first..last]
  }

  lemma WindowOfPrefix(entries: seq<Entry>, start: nat, count: nat)
    ensures var cut := if start + count < |entries| then start + count else |entries|;
      Window(entries[..cut], start, count) == Window(entries, start, count)
  {
  }

  lemma WindowPresents(entries: seq<Entry>, start: nat, count: nat)
    ensures Presented(Window(Sort(entries), start, count))
  {
    hide Sort, InOrder;
    SortPresents(entries);
  }

  datatype ListingError = InvalidSchema | NegativeOffset | WindowTooLarge | ProcessingFailed | NeedsPagination

  // filesystem_navigation.children over the scandir entries in arrival order.
  method Children(entries: seq<Entry>, limit: int, offset: int, probe: bool)
    returns (result: Result<seq<Entry>, ListingError>)
    requires DistinctKeys(entries)
    ensures result.Err? <==> offset < 0 || limit < 1 || offset + limit > MAX_DIRECTORY_NODES
    ensures result.Err? ==> result.error == InvalidSchema
    ensures result.Ok? ==> result.value == Window(Sort(entries), offset, limit + if probe then 1 else 0)
    ensures result.Ok? ==> Presented(result.value)
  {
    hide Sort, KeyLess, HeapOrdered, Window, Presented;
    if offset < 0 || limit < 1 || offset + limit > MAX_DIRECTORY_NODES {
      return Err(InvalidSchema);
    }
    var extra := if probe then 1 else 0;
    var heap, indexError := KeepFirst(entries, offset + limit + extra);
    WindowOfPrefix(Sort(entries), offset, limit + extra);
    WindowPresents(entries, offset, limit + extra);
    return Ok(Window(Sort(heap), offset, limit + extra));
  }

  function RequestedLimit(limit: Option<int>): (requested: nat)
    ensures requested <= MAX_DIRECTORY_NODES
  {
    if limit.None? || limit.value > MAX_DIRECTORY_NODES then MAX_DIRECTORY_NODES
    else if limit.value < 0 then 0
    else limit.value
  }

  // What restic's list_directory answers for the immediate children it streams.
  function ListingVerdict(count: nat, limit: Option<int>, offset: int, probe: bool): Option<ListingError>
  {
    var keep := offset + RequestedLimit(limit) + if probe then 1 else 0;
    if offset < 0 || offset > MAX_DIRECTORY_NODES then Some(NegativeOffset)
    else if limit.Some? && offset + RequestedLimit(limit) > MAX_DIRECTORY_NODES then Some(WindowTooLarge)
    else if keep == 0 && count > 0 then Some(ProcessingFailed)
    else if limit.None? && count > MAX_DIRECTORY_NODES && keep > MAX_DIRECTORY_NODES then Some(NeedsPagination)
    else None
  }

  function ListingAnswer(nodes: seq<Entry>, limit: Option<int>, offset: int, probe: bool)
    : Result<seq<Entry>, ListingError>
  {
    var verdict := ListingVerdict(|nodes|, limit, offset, probe);
    if verdict.Some? then Err(verdict.value)
    else Ok(Window(Sort(nodes), offset, RequestedLimit(limit) + if probe then 1 else 0))
  }

  method ListDirectory(nodes: seq<Entry>, limit: Option<int>, offset: int, probe: bool)
    returns (result: Result<seq<Entry>, ListingError>)
    requires DistinctKeys(nodes)
    ensures result == ListingAnswer(nodes, limit, offset, probe)
    ensures result.Ok? ==> Presented(result.value)
    ensures result == Err(NegativeOffset) <==> !(0 <= offset <= 10000)
    ensures result == Err(WindowTooLarge) <==>
      0 <= offset <= 10000 && limit.Some? &&
      if limit.value > 10000 then offset > 0 else limit.value > 0 && offset + limit.value > 10000
    ensures result == Err(ProcessingFailed) <==>
      offset == 0 && limit.Some? && limit.value <= 0 && !probe && nodes != []
    ensures result == Err(NeedsPagination) <==>
      0 <= offset <= 10000 && limit.None? && (offset > 0 || probe) && |nodes| > 10000
    ensures result != Err(InvalidSchema)
  {
    hide Sort, KeyLess, HeapOrdered, Window, Presented;
    if offset < 0 || offset > MAX_DIRECTORY_NODES {
      return Err(NegativeOffset);
    }
    var requested := RequestedLimit(limit);
    if limit.Some? && offset + requested > MAX_DIRECTORY_NODES {
      return Err(WindowTooLarge);
    }
    var extra := if probe then 1 else 0;
    var heap, indexError := KeepFirst(nodes, offset + requested + extra);
    if indexError {
      return Err(ProcessingFailed);
    }
    if limit.None? && |heap| > MAX_DIRECTORY_NODES {
      return Err(NeedsPagination);
    }
    WindowOfPrefix(Sort(nodes), offset, requested + extra);
    WindowPresents(nodes, offset, requested + extra);
    return Ok(Window(Sort(heap), offset, requested + extra));
  }

  lemma SortLength(nodes: seq<Entry>)
    ensures |Sort(nodes)| == |nodes|
  {
    hide Sort;
    assert |multiset(Sort(nodes))| == |multiset(nodes)|;
  }

  // The guard against unpaginated huge directories never fires on the plain call,
  // which answers with the first MAX_DIRECTORY_NODES entries, however many there
  // are. With an offset or a probe it fires exactly when it should.
  lemma UnpaginatedListing(nodes: seq<Entry>, offset: nat, probe: bool)
    requires offset <= MAX_DIRECTORY_NODES
    ensures var answer, sorted := ListingAnswer(nodes, None, offset, probe), Sort(nodes);
      if |nodes| <= MAX_DIRECTORY_NODES then
        answer == Ok(if offset <= |sorted| then sorted[offset..] else [])
      else if offset == 0 && !probe then |sorted| >= MAX_DIRECTORY_NODES && answer == Ok(sorted[..MAX_DIRECTORY_NODES])
      else answer == Err(NeedsPagination)
  {
    hide Sort, Window;
    SortLength(nodes);
    WindowBounds(Sort(nodes), offset, MAX_DIRECTORY_NODES + if probe then 1 else 0);
  }

  lemma WindowBounds(entries: seq<Entry>, start: nat, count: nat)
    ensures start + count >= |entries| ==>
      Window(entries, start, count) == if start <= |entries| then entries[start..] else []
    ensures start == 0 && count <= |entries| ==> Window(entries, start, count) == entries[..count]
  {
  }

  lemma WindowJoin(entries: seq<Entry>, start: nat, first: nat, second: nat)
    ensures Window(entries, start, first + second) ==
      Window(entries, start, first) + Window(entries, start + first, second)
    ensures |Window(entries, start, first + 1)| == first + 1 <==> |entries| > start + first
    ensures Window(entries, start, first) ==
      var longer := Window(entries, start, first + 1);
      if |longer| > first then longer[..first] else longer
  {
  }

  // Two consecutive pages are the page of both lengths: nothing is lost or repeated
  // between them. A probe adds one entry exactly when there is a further page.
  lemma PagesJoin(nodes: seq<Entry>, first: nat, second: nat, offset: nat)
    requires 0 < first && offset + first + second <= MAX_DIRECTORY_NODES
    ensures var page, next := ListingAnswer(nodes, Some(first), offset, false),
                              ListingAnswer(nodes, Some(second), offset + first, false);
      page.Ok? && next.Ok? && ListingAnswer(nodes, Some(first + second), offset, false) == Ok(page.value + next.value)
    ensures var probed := ListingAnswer(nodes, Some(first), offset, true);
      probed.Ok? && (|probed.value| == first + 1 <==> |nodes| > offset + first) &&
      ListingAnswer(nodes, Some(first), offset, false) ==
        Ok(if |probed.value| > first then probed.value[..first] else probed.value)
  {
    hide Sort, Window;
    SortLength(nodes);
    WindowJoin(Sort(nodes), offset, first, second);
  }
}
