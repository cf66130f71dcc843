/**
 The k-way merge of compaction (`internal/compact/merge.go`): a binary heap yields the
 entries of several sorted tables in one order, newest version of a key first.
 */
module Merge {
  import opened Bytes
  import opened Entries

  /** An entry and the input it came from. */
  datatype Item = Item(idx: nat, e: Entry)

  /** mergeHeap.Less: by key, then newest first, then by input. */
  predicate Before(a: Item, b: Item) {
    if a.e.key != b.e.key then Less(a.e.key, b.e.key)
    else if a.e.seqno != b.e.seqno then a.e.seqno > b.e.seqno
    else a.idx < b.idx
  }

  lemma BeforeTransitive(a: Item, b: Item, c: Item)
    requires !Before(b, a) && !Before(c, b)
    ensures !Before(c, a)
  {
    LessTrichotomy(a.e.key, b.e.key);
    LessTrichotomy(b.e.key, c.e.key);
    LessTrichotomy(a.e.key, c.e.key);
    if a.e.key != b.e.key && b.e.key != c.e.key {
      LessTransitive(a.e.key, b.e.key, c.e.key);
    }
  }

  lemma BeforeTotal(a: Item, b: Item)
    ensures !(Before(a, b) && Before(b, a))
  {
    LessTrichotomy(a.e.key, b.e.key);
  }

  // ---------- the heap ----------

  function Parent(j: nat): (p: nat)
    requires j > 0
    ensures p < j
  {
    (j - 1) / 2
  }

  /** No item comes before its parent, except possibly item `bad`. */
  predicate HeapBut(h: seq<Item>, bad: int) {
    forall j :: 1 <= j < |h| && j != bad ==> !Before(h[j], h[Parent(j)])
  }

  predicate IsHeap(h: seq<Item>) {
    HeapBut(h, -1)
  }

  /** The root of a heap comes before every other item. */
  lemma {:induction false} RootFirst(h: seq<Item>, j: nat)
    requires IsHeap(h) && j < |h|
    ensures !Before(h[j], h[0])
  {
    if j > 0 {
      RootFirst(h, Parent(j));
      BeforeTransitive(h[0], h[Parent(j)], h[j]);
    } else {
      BeforeTotal(h[0], h[0]);
    }
  }

  function Swap(h: seq<Item>, i: nat, j: nat): (r: seq<Item>)
    requires i < |h| && j < |h|
    ensures |r| == |h| && multiset(r) == multiset(h)
  {
    h[i := h[j]][j := h[i]]
  }

  class MergeHeap {
    var items: seq<Item>

    ghost predicate Valid()
      reads this
    {
      IsHeap(items)
    }

    constructor ()
      ensures Valid() && items == []
    {
      items := [];
    }

    /** heap.Push: append and sift up. */
    method Push(x: Item)
      requires Valid()
      modifies this
      ensures Valid() && multiset(items) == multiset(old(items)) + multiset{x}
    {
      items := items + [x];
      var j := |items| - 1;
      while j > 0 && Before(items[j], items[Parent(j)])
        invariant 0 <= j < |items|
        invariant multiset(items) == multiset(old(items)) + multiset{x}
        invariant HeapBut(items, j)
        invariant forall c :: 1 <= c < |items| && Parent(c) == j && j > 0 ==> !Before(items[c], items[Parent(j)])
      {
        SiftUpStep(items, j);
        items := Swap(items, j, Parent(j));
        j := Parent(j);
      }
    }

    /** heap.Pop: the root goes, the last item takes its place and sifts down. */
    method Pop() returns (x: Item)
      requires Valid() && items != []
      modifies this
      ensures Valid() && multiset(items) + multiset{x} == multiset(old(items))
      ensures forall y :: y in old(items) ==> !Before(y, x)
    {
      x := items[0];
      forall y | y in items
        ensures !Before(y, x)
      {
        var j :| 0 <= j < |items| && items[j] == y;
        RootFirst(items, j);
      }
      var n := |items| - 1;
      assert items == items[..n] + [items[n]];
      if n == 0 {
        items := [];
        return;
      }
      assert multiset(items[..n][0 := items[n]]) + multiset{x} == multiset(items);
      items := items[..n][0 := items[n]];
      Down();
    }

    method Down()
      requires items != []
      requires forall j :: 1 <= j < |items| && Parent(j) != 0 ==> !Before(items[j], items[Parent(j)])
      modifies this
      ensures Valid() && multiset(items) == multiset(old(items))
    {
      var i := 0;
      while true
        invariant 0 <= i < |items| && multiset(items) == multiset(old(items))
        invariant forall j :: 1 <= j < |items| && Parent(j) != i ==> !Before(items[j], items[Parent(j)])
        invariant forall j :: 1 <= j < |items| && Parent(j) == i && i > 0 ==> !Before(items[j], items[Parent(i)])
        decreases |items| - i
      {
        if 2 * i + 1 >= |items| {
          NoChildren(items, i);
          break;
        }
        var j := FirstChild(items, i);
        if !Before(items[j], items[i]) {
          SiblingAfter(items, i, j);
          break;
        }
        SiftDownStep(items, i, j);
        items := Swap(items, i, j);
        i := j;
      }
    }
  }

  lemma NoChildren(h: seq<Item>, i: nat)
    requires 2 * i + 1 >= |h|
    ensures forall c :: 1 <= c < |h| ==> Parent(c) != i
  {
  }

  /** The child of `i` that comes first. */
  method FirstChild(h: seq<Item>, i: nat) returns (j: nat)
    requires 2 * i + 1 < |h|
    ensures i < j < |h| && Parent(j) == i
    ensures forall c :: 1 <= c < |h| && Parent(c) == i ==> c == j || !Before(h[c], h[j])
  {
    j := 2 * i + 1;
    if j + 1 < |h| && Before(h[j + 1], h[j]) {
      j := j + 1;
    }
    BeforeTotal(h[2 * i + 1], h[j]);
    forall c | 1 <= c < |h| && Parent(c) == i
      ensures c == 2 * i + 1 || c == 2 * i + 2
    {
    }
  }

  lemma SiftUpStep(h: seq<Item>, j: nat)
    requires 0 < j < |h| && HeapBut(h, j) && Before(h[j], h[Parent(j)])
    requires forall c :: 1 <= c < |h| && Parent(c) == j ==> !Before(h[c], h[Parent(j)])
    ensures var p, g := Parent(j), Swap(h, j, Parent(j));
            && HeapBut(g, p)
            && forall c :: 1 <= c < |g| && Parent(c) == p && p > 0 ==> !Before(g[c], g[Parent(p)])
  {
    var p, g := Parent(j), Swap(h, j, Parent(j));
    BeforeTotal(h[j], h[p]);
    forall c | 1 <= c < |g| && c != p
      ensures !Before(g[c], g[Parent(c)])
    {
      if Parent(c) == p && c != j {
        BeforeTransitive(h[j], h[p], h[c]);
      }
    }
    if p > 0 {
      forall c | 1 <= c < |g| && Parent(c) == p
        ensures !Before(g[c], g[Parent(p)])
      {
        if c != j {
          BeforeTransitive(h[Parent(p)], h[p], h[c]);
        }
      }
    }
  }

  /** The smaller child is not before its parent, so neither is the other. */
  lemma SiblingAfter(h: seq<Item>, i: nat, j: nat)
    requires i < |h| && 1 <= j < |h| && Parent(j) == i && !Before(h[j], h[i])
    requires forall c :: 1 <= c < |h| && Parent(c) == i ==> c == j || !Before(h[c], h[j])
    ensures forall c :: 1 <= c < |h| && Parent(c) == i ==> !Before(h[c], h[i])
  {
    forall c | 1 <= c < |h| && Parent(c) == i
      ensures !Before(h[c], h[i])
    {
      if c != j {
        BeforeTransitive(h[i], h[j], h[c]);
      }
    }
  }

  lemma SiftDownStep(h: seq<Item>, i: nat, j: nat)
    requires i < |h| && 1 <= j < |h| && Parent(j) == i && Before(h[j], h[i])
    requires forall c :: 1 <= c < |h| && Parent(c) == i ==> c == j || !Before(h[c], h[j])
    requires forall c :: 1 <= c < |h| && Parent(c) != i ==> !Before(h[c], h[Parent(c)])
    requires forall c :: 1 <= c < |h| && Parent(c) == i && i > 0 ==> !Before(h[c], h[Parent(i)])
    ensures var g := Swap(h, i, j);
            && (forall c :: 1 <= c < |g| && Parent(c) != j ==> !Before(g[c], g[Parent(c)]))
            && (forall c :: 1 <= c < |g| && Parent(c) == j ==> !Before(g[c], g[Parent(j)]))
  {
    var g := Swap(h, i, j);
    BeforeTotal(h[j], h[i]);
  }

  // ---------- what a merge should be ----------

  /** The union of the first `n` inputs, newest version wins, the earlier input on a tie. */
  function MergedTo(inputs: seq<seq<Entry>>, n: nat): seq<Entry>
    requires n <= |inputs|
  {
    if n == 0 then [] else MergeTwo(MergedTo(inputs, n - 1), inputs[n - 1])
  }

  /** The newest version of a key among the first `n` inputs. */
  function NewestTo(inputs: seq<seq<Entry>>, n: nat, k: Data): Option<Entry>
    requires n <= |inputs|
  {
    if n == 0 then None else Newer(NewestTo(inputs, n - 1, k), Find(inputs[n - 1], k))
  }

  ghost predicate AllSorted(inputs: seq<seq<Entry>>) {
    forall i :: 0 <= i < |inputs| ==> Sorted(inputs[i])
  }

  lemma {:induction false} FindMergedTo(inputs: seq<seq<Entry>>, n: nat, k: Data)
    requires AllSorted(inputs) && n <= |inputs|
    ensures Sorted(MergedTo(inputs, n)) && Find(MergedTo(inputs, n), k) == NewestTo(inputs, n, k)
  {
    if n != 0 {
      FindMergedTo(inputs, n - 1, k);
      MergeTwoSorted(MergedTo(inputs, n - 1), inputs[n - 1]);
      FindMergeTwo(MergedTo(inputs, n - 1), inputs[n - 1], k);
    }
  }

  /** DropTombstones removes a key whose newest version is a deletion. */
  function Emit(r: Option<Entry>, drop: bool): Option<Entry> {
    if drop && r.Some? && r.value.deleted then None else r
  }

  function Kept(s: seq<Entry>, drop: bool): seq<Entry> {
    if s == [] then []
    else (if drop && s[0].deleted then [] else [s[0]]) + Kept(s[1..], drop)
  }

  lemma {:induction false} KeptMembers(s: seq<Entry>, drop: bool)
    ensures forall e :: e in Kept(s, drop) <==> e in s && !(drop && e.deleted)
  {
    if s != [] {
      KeptMembers(s[1..], drop);
      assert s == [s[0]] + s[1..];
    }
  }

  lemma {:induction false} KeptSorted(s: seq<Entry>, drop: bool)
    requires Sorted(s)
    ensures Sorted(Kept(s, drop))
  {
    if s != [] {
      KeptSorted(s[1..], drop);
      KeptMembers(s[1..], drop);
      TailAbove(s[0].key, s);
      if !(drop && s[0].deleted) {
        ConsSorted(s[0], Kept(s[1..], drop));
      }
    }
  }

  lemma FindKept(s: seq<Entry>, drop: bool, k: Data)
    requires Sorted(s)
    ensures Find(Kept(s, drop), k) == Emit(Find(s, k), drop)
  {
    KeptSorted(s, drop);
    KeptMembers(s, drop);
    var r := Find(s, k);
    forall e | e in Kept(s, drop) && e.key == k
      ensures r == Some(e)
    {
      FindMember(s, e);
    }
    FindUnique(Kept(s, drop), k, Emit(r, drop));
  }

  /** The table a merge of `inputs` should write. */
  function Merged(inputs: seq<seq<Entry>>, drop: bool): seq<Entry> {
    Kept(MergedTo(inputs, |inputs|), drop)
  }

  /** Sorted, and for every key the newest version, tombstones dropped or kept as asked. */
  lemma MergedFinds(inputs: seq<seq<Entry>>, drop: bool, k: Data)
    requires AllSorted(inputs)
    ensures Sorted(Merged(inputs, drop))
    ensures Find(Merged(inputs, drop), k) == Emit(NewestTo(inputs, |inputs|, k), drop)
  {
    FindMergedTo(inputs, |inputs|, k);
    KeptSorted(MergedTo(inputs, |inputs|), drop);
    FindKept(MergedTo(inputs, |inputs|), drop, k);
  }

  /** A version is the newest when no other input holds a newer one, or an equal one earlier. */
  lemma {:induction false} NewestIs(inputs: seq<seq<Entry>>, n: nat, k: Data, idx: nat, e: Entry)
    requires n <= |inputs| && idx < |inputs| && Find(inputs[idx], k) == Some(e)
    requires forall i :: 0 <= i < n && Find(inputs[i], k).Some? ==>
      var o := Find(inputs[i], k).value;
      o.seqno < e.seqno || (o.seqno == e.seqno && i >= idx)
    ensures idx < n ==> NewestTo(inputs, n, k) == Some(e)
    ensures idx >= n ==> NewestTo(inputs, n, k).None? || NewestTo(inputs, n, k).value.seqno < e.seqno
  {
    if n != 0 {
      NewestIs(inputs, n - 1, k, idx, e);
    }
  }

  // ---------- the state of the merge loop ----------

  function Sum(pos: seq<nat>): nat {
    if pos == [] then 0 else pos[0] + Sum(pos[1..])
  }

  lemma {:induction false} SumStep(pos: seq<nat>, i: nat)
    requires i < |pos|
    ensures Sum(pos[i := pos[i] + 1]) == Sum(pos) + 1
    decreases |pos|
  {
    if i != 0 {
      SumStep(pos[1..], i - 1);
      assert pos[i := pos[i] + 1][1..] == pos[1..][i - 1 := pos[i] + 1];
    }
  }

  function Lengths(inputs: seq<seq<Entry>>): (s: seq<nat>)
    ensures |s| == |inputs| && forall i :: 0 <= i < |s| ==> s[i] == |inputs[i]|
  {
    seq(|inputs|, i requires 0 <= i < |inputs| => |inputs[i]|)
  }

  lemma {:induction false} SumBelow(a: seq<nat>, b: seq<nat>)
    requires |a| == |b| && forall i :: 0 <= i < |a| ==> a[i] <= b[i]
    ensures Sum(a) <= Sum(b)
  {
    if a != [] {
      SumBelow(a[1..], b[1..]);
    }
  }

  ghost predicate Cursors(inputs: seq<seq<Entry>>, pos: seq<nat>) {
    |pos| == |inputs| && forall i :: 0 <= i < |pos| ==> pos[i] <= |inputs[i]|
  }

  /** The heap holds, once each, the entries the iterators stand on. */
  ghost predicate Fronts(inputs: seq<seq<Entry>>, pos: seq<nat>, heap: multiset<Item>)
    requires Cursors(inputs, pos)
  {
    && (forall y :: y in heap ==>
          y.idx < |inputs| && pos[y.idx] < |inputs[y.idx]| && y.e == inputs[y.idx][pos[y.idx]])
    && (forall i :: 0 <= i < |inputs| && pos[i] < |inputs[i]| ==> heap[Item(i, inputs[i][pos[i]])] == 1)
  }

  /** `last` separates the entries already popped from those to come. */
  ghost predicate Separated(inputs: seq<seq<Entry>>, pos: seq<nat>, last: Option<Data>)
    requires Cursors(inputs, pos)
  {
    && (last.None? ==> forall i :: 0 <= i < |pos| ==> pos[i] == 0)
    && (last.Some? ==> Consumed(inputs, pos, last.value))
    && (last.Some? ==> forall i, j :: 0 <= i < |inputs| && 0 <= j < pos[i] ==> !Less(last.value, inputs[i][j].key))
    && (last.Some? ==> forall i, j :: 0 <= i < |inputs| && pos[i] <= j < |inputs[i]| ==>
       !Less(inputs[i][j].key, last.value))
  }

  ghost predicate Consumed(inputs: seq<seq<Entry>>, pos: seq<nat>, k: Data)
    requires Cursors(inputs, pos)
  {
    exists i, j :: 0 <= i < |inputs| && 0 <= j < pos[i] && inputs[i][j].key == k
  }

  /** The output so far is right for the keys popped so far, and has no others. */
  ghost predicate Emitted(inputs: seq<seq<Entry>>, pos: seq<nat>, out: seq<Entry>, drop: bool)
    requires Cursors(inputs, pos)
  {
    && Sorted(out)
    && forall k {:trigger Find(out, k)} {:trigger Consumed(inputs, pos, k)} :: Find(out, k) ==
         if Consumed(inputs, pos, k) then Emit(NewestTo(inputs, |inputs|, k), drop) else None
  }

  /** No entry to come lies below the popped one. */
  lemma PoppedLeast(inputs: seq<seq<Entry>>, pos: seq<nat>, heap: multiset<Item>, x: Item)
    requires AllSorted(inputs) && Cursors(inputs, pos) && Fronts(inputs, pos, heap)
    requires x in heap && forall y :: y in heap ==> !Before(y, x)
    ensures forall i, j :: 0 <= i < |inputs| && pos[i] <= j < |inputs[i]| ==> !Less(inputs[i][j].key, x.e.key)
    ensures forall i, j :: 0 <= i < |inputs| && pos[i] < j < |inputs[i]| ==> inputs[i][j].key != x.e.key
  {
    forall i, j | 0 <= i < |inputs| && pos[i] <= j < |inputs[i]|
      ensures !Less(inputs[i][j].key, x.e.key) && (j > pos[i] ==> inputs[i][j].key != x.e.key)
    {
      var front := inputs[i][pos[i]];
      assert Item(i, front) in heap;
      assert !Less(front.key, x.e.key) by {
        LessIrreflexive(front.key);
      }
      if j > pos[i] {
        assert Less(front.key, inputs[i][j].key);
        LessTrichotomy(inputs[i][j].key, x.e.key);
        if Less(inputs[i][j].key, x.e.key) {
          LessTransitive(front.key, inputs[i][j].key, x.e.key);
        }
      }
    }
  }

  /** The first item popped for a key is its newest version. */
  lemma PoppedNewest(inputs: seq<seq<Entry>>, pos: seq<nat>, heap: multiset<Item>, x: Item)
    requires AllSorted(inputs) && Cursors(inputs, pos) && Fronts(inputs, pos, heap)
    requires x in heap && forall y :: y in heap ==> !Before(y, x)
    requires !Consumed(inputs, pos, x.e.key)
    ensures NewestTo(inputs, |inputs|, x.e.key) == Some(x.e)
  {
    var k := x.e.key;
    PoppedLeast(inputs, pos, heap, x);
    FindMember(inputs[x.idx], x.e);
    forall i | 0 <= i < |inputs| && Find(inputs[i], k).Some?
      ensures var o := Find(inputs[i], k).value;
              o.seqno < x.e.seqno || (o.seqno == x.e.seqno && i >= x.idx)
    {
      var o := Find(inputs[i], k).value;
      var j :| 0 <= j < |inputs[i]| && inputs[i][j] == o;
      assert j == pos[i];
      assert Item(i, o) in heap;
    }
    NewestIs(inputs, |inputs|, k, x.idx, x.e);
  }

  /** Popping an item and advancing its iterator keeps the heap right. */
  lemma FrontsStep(inputs: seq<seq<Entry>>, pos: seq<nat>, heap: multiset<Item>, x: Item)
    requires AllSorted(inputs) && Cursors(inputs, pos) && Fronts(inputs, pos, heap + multiset{x})
    ensures var i, p := x.idx, pos[x.idx := pos[x.idx] + 1];
            && i < |inputs| && pos[i] < |inputs[i]| && x.e == inputs[i][pos[i]]
            && Cursors(inputs, p)
            && Fronts(inputs, p, if p[i] < |inputs[i]| then heap + multiset{Item(i, inputs[i][p[i]])} else heap)
  {
    assert x in heap + multiset{x};
    var i, p := x.idx, pos[x.idx := pos[x.idx] + 1];
    var next := if p[i] < |inputs[i]| then heap + multiset{Item(i, inputs[i][p[i]])} else heap;
    assert heap[x] == 0;
    forall y | y in next
      ensures y.idx < |inputs| && p[y.idx] < |inputs[y.idx]| && y.e == inputs[y.idx][p[y.idx]]
    {
      if y in heap {
        assert y in heap + multiset{x} && y != x;
      }
    }
    forall m | 0 <= m < |inputs| && p[m] < |inputs[m]|
      ensures next[Item(m, inputs[m][p[m]])] == 1
    {
      if m == i {
        assert Item(m, inputs[m][p[m]]) !in heap + multiset{x} || Item(m, inputs[m][p[m]]) == x;
        LessIrreflexive(x.e.key);
      }
    }
  }

  lemma ConsumedStep(inputs: seq<seq<Entry>>, pos: seq<nat>, i: nat, k: Data)
    requires Cursors(inputs, pos) && i < |inputs| && pos[i] < |inputs[i]|
    ensures var p := pos[i := pos[i] + 1];
            Cursors(inputs, p) && (Consumed(inputs, p, k) <==> Consumed(inputs, pos, k) || k == inputs[i][pos[i]].key)
  {
    var p := pos[i := pos[i] + 1];
    if Consumed(inputs, pos, k) {
      var a, b :| 0 <= a < |inputs| && 0 <= b < pos[a] && inputs[a][b].key == k;
      assert b < p[a];
    }
    if k == inputs[i][pos[i]].key {
      assert pos[i] < p[i] && inputs[i][pos[i]].key == k;
    }
  }

  /** The popped key is the last one again, or one never popped before. */
  lemma SameOrNew(inputs: seq<seq<Entry>>, pos: seq<nat>, last: Option<Data>, i: nat)
    requires Cursors(inputs, pos) && Separated(inputs, pos, last)
    requires i < |inputs| && pos[i] < |inputs[i]|
    ensures last == Some(inputs[i][pos[i]].key) <==> Consumed(inputs, pos, inputs[i][pos[i]].key)
  {
    var k := inputs[i][pos[i]].key;
    if Consumed(inputs, pos, k) {
      var a, b :| 0 <= a < |inputs| && 0 <= b < pos[a] && inputs[a][b].key == k;
      LessTrichotomy(k, last.value);
    }
  }

  lemma SeparatedStep(inputs: seq<seq<Entry>>, pos: seq<nat>, heap: multiset<Item>, last: Option<Data>, x: Item)
    requires AllSorted(inputs) && Cursors(inputs, pos) && Fronts(inputs, pos, heap) && Separated(inputs, pos, last)
    requires x in heap && forall y :: y in heap ==> !Before(y, x)
    ensures var p := pos[x.idx := pos[x.idx] + 1];
            Cursors(inputs, p) && Separated(inputs, p, Some(x.e.key))
  {
    var i, k := x.idx, x.e.key;
    var p := pos[i := pos[i] + 1];
    PoppedLeast(inputs, pos, heap, x);
    ConsumedStep(inputs, pos, i, k);
    forall a, b | 0 <= a < |inputs| && 0 <= b < p[a]
      ensures !Less(k, inputs[a][b].key)
    {
      if b < pos[a] {
        NotLessTransitive(k, last.value, inputs[a][b].key);
      } else {
        LessIrreflexive(k);
      }
    }
  }

  lemma EmittedAgain(inputs: seq<seq<Entry>>, pos: seq<nat>, out: seq<Entry>, drop: bool, i: nat)
    requires Cursors(inputs, pos) && Emitted(inputs, pos, out, drop)
    requires i < |inputs| && pos[i] < |inputs[i]| && Consumed(inputs, pos, inputs[i][pos[i]].key)
    ensures var p := pos[i := pos[i] + 1];
            Cursors(inputs, p) && Emitted(inputs, p, out, drop)
  {
    var p := pos[i := pos[i] + 1];
    forall k
      ensures Consumed(inputs, p, k) <==> Consumed(inputs, pos, k)
    {
      ConsumedStep(inputs, pos, i, k);
    }
  }

  lemma EmittedNew(inputs: seq<seq<Entry>>, pos: seq<nat>, out: seq<Entry>, drop: bool, i: nat)
    requires Cursors(inputs, pos) && Emitted(inputs, pos, out, drop)
    requires i < |inputs| && pos[i] < |inputs[i]|
    requires var e, p := inputs[i][pos[i]], pos[i := pos[i] + 1];
             && !Consumed(inputs, pos, e.key) && NewestTo(inputs, |inputs|, e.key) == Some(e)
             && Cursors(inputs, p) && Separated(inputs, p, Some(e.key))
    ensures var e, p := inputs[i][pos[i]], pos[i := pos[i] + 1];
            Emitted(inputs, p, out + (if drop && e.deleted then [] else [e]), drop)
  {
    var e, p := inputs[i][pos[i]], pos[i := pos[i] + 1];
    forall j | 0 <= j < |out|
      ensures Less(out[j].key, e.key)
    {
      FindMember(out, out[j]);
      assert Consumed(inputs, pos, out[j].key);
      ConsumedBelow(inputs, p, e.key, out[j].key);
      ConsumedStep(inputs, pos, i, out[j].key);
    }
    var out' := out + (if drop && e.deleted then [] else [e]);
    assert Sorted(out');
    forall k
      ensures Find(out', k) == if Consumed(inputs, p, k) then Emit(NewestTo(inputs, |inputs|, k), drop) else None
    {
      ConsumedStep(inputs, pos, i, k);
      FindAppend(out, e, k);
      assert out + [] == out;
    }
  }

  lemma ConsumedBelow(inputs: seq<seq<Entry>>, p: seq<nat>, last: Data, k: Data)
    requires Cursors(inputs, p) && Separated(inputs, p, Some(last))
    ensures Consumed(inputs, p, k) ==> k == last || Less(k, last)
  {
    LessTrichotomy(k, last);
  }

  lemma FindAppend(out: seq<Entry>, e: Entry, k: Data)
    requires Sorted(out) && forall j :: 0 <= j < |out| ==> Less(out[j].key, e.key)
    ensures Find(out + [e], k) == if k == e.key then Some(e) else Find(out, k)
  {
    LessIrreflexive(k);
    FindUnique(out + [e], k, if k == e.key then Some(e) else Find(out, k));
  }

  function Tombstones(s: seq<Entry>): nat {
    if s == [] then 0 else Tombstones(s[..|s| - 1]) + (if s[|s| - 1].deleted then 1 else 0)
  }

  ghost function Deletions(s: seq<Entry>): set<nat> {
    set i: nat | i < |s| && s[i].deleted
  }

  /** The count of tombstones is the number of places that hold a deletion. */
  lemma {:induction false} TombstonesAre(s: seq<Entry>)
    ensures Tombstones(s) == |Deletions(s)|
  {
    if s != [] {
      var n := |s| - 1;
      TombstonesAre(s[..n]);
      assert Deletions(s) == Deletions(s[..n]) + (if s[n].deleted then {n} else {});
    }
  }

  // ---------- the merge ----------

  /** Puts the first entry of every input on the heap. */
  method Fill(inputs: seq<seq<Entry>>) returns (heap: MergeHeap)
    ensures fresh(heap) && heap.Valid()
    ensures Fronts(inputs, seq(|inputs|, i => 0), multiset(heap.items))
  {
    heap := new MergeHeap();
    var i := 0;
    while i < |inputs|
      invariant 0 <= i <= |inputs| && fresh(heap) && heap.Valid()
      invariant forall y :: y in multiset(heap.items) ==> y.idx < i && |inputs[y.idx]| > 0 && y.e == inputs[y.idx][0]
      invariant forall m :: 0 <= m < i && |inputs[m]| > 0 ==> multiset(heap.items)[Item(m, inputs[m][0])] == 1
    {
      if |inputs[i]| > 0 {
        assert Item(i, inputs[i][0]) !in multiset(heap.items);
        heap.Push(Item(i, inputs[i][0]));
      }
      i := i + 1;
    }
  }

  /** MergeFiles over the entries of its inputs: output, kept tombstones, dropped versions. */
  method MergeEntries(inputs: seq<seq<Entry>>, drop: bool) returns (out: seq<Entry>, keptTomb: nat, dropped: nat)
    requires AllSorted(inputs)
    ensures out == Merged(inputs, drop)
    ensures keptTomb == Tombstones(out) && |out| + dropped == Sum(Lengths(inputs))
  {
    hide AllSorted, Fronts, Separated, Emitted, Consumed, Before, IsHeap, Tombstones, Sum, Merged;
    var heap := Fill(inputs);
    var pos: seq<nat> := seq(|inputs|, i => 0);
    var lastKey: Option<Data> := None;
    out, keptTomb, dropped := [], 0, 0;
    Start(inputs, pos, drop);
    while heap.items != []
      invariant fresh(heap) && heap.Valid() && Cursors(inputs, pos)
      invariant Fronts(inputs, pos, multiset(heap.items))
      invariant Separated(inputs, pos, lastKey) && Emitted(inputs, pos, out, drop)
      invariant keptTomb == Tombstones(out) && |out| + dropped == Sum(pos) && Sum(pos) <= Sum(Lengths(inputs))
      decreases Sum(Lengths(inputs)) - Sum(pos)
    {
      var x := heap.Pop();
      LoopStep(inputs, pos, multiset(heap.items), lastKey, out, drop, x);
      pos := pos[x.idx := pos[x.idx] + 1];
      if pos[x.idx] < |inputs[x.idx]| {
        heap.Push(Item(x.idx, inputs[x.idx][pos[x.idx]]));
      }
      if lastKey == Some(x.e.key) {
        dropped := dropped + 1;
        continue;
      }
      lastKey := Some(x.e.key);
      if x.e.deleted && drop {
        dropped := dropped + 1;
        continue;
      }
      if x.e.deleted {
        keptTomb := keptTomb + 1;
      }
      TombstonesAppend(out, x.e);
      out := out + [x.e];
    }
    AllConsumed(inputs, pos, out, drop);
  }

  lemma TombstonesAppend(s: seq<Entry>, e: Entry)
    ensures Tombstones(s + [e]) == Tombstones(s) + (if e.deleted then 1 else 0)
  {
    assert (s + [e])[..|s|] == s;
  }

  lemma Start(inputs: seq<seq<Entry>>, pos: seq<nat>, drop: bool)
    requires pos == seq(|inputs|, i => 0)
    ensures Cursors(inputs, pos) && Separated(inputs, pos, None) && Emitted(inputs, pos, [], drop)
    ensures Sum(pos) == 0 == Tombstones([])
  {
    SumZero(pos);
  }

  /** One round of the loop: where the iterators, the heap and the output then stand. */
  lemma LoopStep(inputs: seq<seq<Entry>>, pos: seq<nat>, heap: multiset<Item>, last: Option<Data>, out: seq<Entry>,
                 drop: bool, x: Item)
    requires AllSorted(inputs) && Cursors(inputs, pos) && Fronts(inputs, pos, heap + multiset{x})
    requires Separated(inputs, pos, last) && Emitted(inputs, pos, out, drop)
    requires forall y :: y in heap + multiset{x} ==> !Before(y, x)
    ensures x.idx < |inputs| && pos[x.idx] < |inputs[x.idx]|
    ensures var i, p := x.idx, pos[x.idx := pos[x.idx] + 1];
            && Cursors(inputs, p) && Separated(inputs, p, Some(x.e.key))
            && Fronts(inputs, p, if p[i] < |inputs[i]| then heap + multiset{Item(i, inputs[i][p[i]])} else heap)
            && Emitted(inputs, p,
                       if last == Some(x.e.key) || (drop && x.e.deleted) then out else out + [x.e], drop)
            && Sum(p) == Sum(pos) + 1 <= Sum(Lengths(inputs))
  {
    hide AllSorted, Fronts, Separated, Emitted, Consumed, Before, NewestTo, Sum;
    assert x in heap + multiset{x};
    FrontsStep(inputs, pos, heap, x);
    SameOrNew(inputs, pos, last, x.idx);
    SeparatedStep(inputs, pos, heap + multiset{x}, last, x);
    SumStep(pos, x.idx);
    SumBelow(pos[x.idx := pos[x.idx] + 1], Lengths(inputs));
    if last == Some(x.e.key) {
      EmittedAgain(inputs, pos, out, drop, x.idx);
    } else {
      PoppedNewest(inputs, pos, heap + multiset{x}, x);
      EmittedNew(inputs, pos, out, drop, x.idx);
      assert out + [] == out;
    }
  }

  lemma {:induction false} SumZero(pos: seq<nat>)
    requires forall i :: 0 <= i < |pos| ==> pos[i] == 0
    ensures Sum(pos) == 0
  {
    if pos != [] {
      SumZero(pos[1..]);
    }
  }

  /** With the heap empty everything has been popped, and the output is the merge. */
  lemma AllConsumed(inputs: seq<seq<Entry>>, pos: seq<nat>, out: seq<Entry>, drop: bool)
    requires AllSorted(inputs) && Cursors(inputs, pos) && Emitted(inputs, pos, out, drop)
    requires Fronts(inputs, pos, multiset{})
    ensures out == Merged(inputs, drop) && pos == Lengths(inputs)
  {
    MergedFinds(inputs, drop, []);
    forall k
      ensures Find(out, k) == Find(Merged(inputs, drop), k)
    {
      MergedFinds(inputs, drop, k);
      if !Consumed(inputs, pos, k) {
        forall i | 0 <= i < |inputs|
          ensures Find(inputs[i], k) == None
        {
          assert pos[i] == |inputs[i]|;
        }
        NoneNewest(inputs, |inputs|, k);
      }
    }
    SortedExtensional(out, Merged(inputs, drop));
  }

  lemma {:induction false} NoneNewest(inputs: seq<seq<Entry>>, n: nat, k: Data)
    requires n <= |inputs| && forall i :: 0 <= i < n ==> Find(inputs[i], k) == None
    ensures NewestTo(inputs, n, k) == None
  {
    if n != 0 {
      NoneNewest(inputs, n - 1, k);
    }
  }
}
