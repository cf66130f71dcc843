/**
 The memtable (`internal/memtable/skiplist.go`): towers of forward pointers, updated in
 place, that hold one strictly key-sorted list of entries.
 */
module SkipList {
  import opened Bytes
  import opened Entries

  const MAX_LEVEL: nat := 16

  function EstimateBytes(e: Entry): nat {
    |e.key| + |e.value| + 16
  }

  function TotalBytes(s: seq<Entry>): nat {
    if s == [] then 0 else EstimateBytes(s[0]) + TotalBytes(s[1..])
  }

  lemma {:induction false} TotalBytesInsert(s: seq<Entry>, n: nat, e: Entry)
    requires n <= |s|
    ensures TotalBytes(s[..n] + [e] + s[n..]) == TotalBytes(s) + EstimateBytes(e)
    decreases n
  {
    var t := s[..n] + [e] + s[n..];
    if n == 0 {
      assert t[1..] == s;
    } else {
      TotalBytesInsert(s[1..], n - 1, e);
      assert t[1..] == s[1..][..n - 1] + [e] + s[1..][n - 1..];
    }
  }

  lemma TotalBytesReplace(s: seq<Entry>, n: nat, e: Entry)
    requires n < |s|
    ensures TotalBytes(s[n := e]) == TotalBytes(s) + EstimateBytes(e) - EstimateBytes(s[n])
  {
    var rest := s[..n] + s[n + 1..];
    TotalBytesInsert(rest, n, e);
    TotalBytesInsert(rest, n, s[n]);
    assert rest[..n] == s[..n] && rest[n..] == s[n + 1..];
    assert s[n := e] == s[..n] + [e] + s[n + 1..];
    assert s == s[..n] + [s[n]] + s[n + 1..];
  }

  function KeyBytes(s: seq<Entry>): nat {
    if s == [] then 0 else KeyBytes(s[..|s| - 1]) + |s[|s| - 1].key|
  }

  function ValueBytes(s: seq<Entry>): nat {
    if s == [] then 0 else ValueBytes(s[..|s| - 1]) + |s[|s| - 1].value|
  }

  /** The estimate is all key bytes, all value bytes, and sixteen bytes for each entry. */
  lemma {:induction false} TotalBytesSums(s: seq<Entry>)
    ensures TotalBytes(s) == KeyBytes(s) + ValueBytes(s) + 16 * |s|
    ensures forall e :: e in s ==> |e.value| <= ValueBytes(s)
  {
    if s != [] {
      var n := |s| - 1;
      TotalBytesSums(s[..n]);
      TotalBytesInsert(s[..n], n, s[n]);
      assert s == s[..n][..n] + [s[n]] + s[..n][n..];
    }
  }

  /** What a range visit sees of a list: entries below `hi`, through the first one declined. */
  function Until(s: seq<Entry>, i: nat, hi: Option<Data>, fn: Entry -> bool): seq<Entry>
    decreases |s| - i
  {
    if i >= |s| || (hi.Some? && !Less(s[i].key, hi.value)) then []
    else if !fn(s[i]) then [s[i]]
    else [s[i]] + Until(s, i + 1, hi, fn)
  }

  /** Where a range ends: at the first entry not below `hi`, but not before where it begins. */
  function RangeEnd(s: seq<Entry>, i: nat, hi: Option<Data>): (n: nat)
    requires i <= |s|
    ensures i <= n <= |s|
  {
    if hi.None? then |s| else Max(i, LowerBound(s, hi.value))
  }

  /** The range holds the entries from `i` on whose key is below `hi`, which is left out itself. */
  lemma RangeBelow(s: seq<Entry>, i: nat, hi: Option<Data>, j: nat)
    requires Sorted(s) && i <= |s| && j < |s|
    ensures i <= j < RangeEnd(s, i, hi) <==> i <= j && (hi.Some? ==> Less(s[j].key, hi.value))
  {
    if hi.Some? {
      if LowerBound(s, hi.value) <= j {
        AfterLowerBound(s, hi.value, j);
      }
    }
  }

  /**
   A visit of a sorted list sees the entries from `i` on that are below `hi`, in order and
   without gaps, all of them unless the callback declines one, which is then the last seen.
   */
  lemma {:induction false} UntilVisits(s: seq<Entry>, i: nat, hi: Option<Data>, fn: Entry -> bool)
    requires Sorted(s) && i <= |s|
    ensures var seen, all := Until(s, i, hi, fn), s[i..RangeEnd(s, i, hi)];
            && seen <= all
            && (forall j :: 0 <= j < |seen| - 1 ==> fn(seen[j]))
            && (seen == all || (seen != [] && !fn(seen[|seen| - 1])))
    decreases |s| - i
  {
    if i < |s| && hi.Some? {
      if Less(s[i].key, hi.value) {
        BelowLowerBound(s, hi.value, i);
      }
    }
    if i < RangeEnd(s, i, hi) {
      assert s[i..RangeEnd(s, i, hi)] == [s[i]] + s[i + 1..RangeEnd(s, i, hi)];
      UntilVisits(s, i + 1, hi, fn);
    }
  }

  // ---------- the shape of the towers ----------

  /** The next position after `i` whose tower reaches above level `l`. */
  function Succ(heights: seq<nat>, i: nat, l: nat): (j: nat)
    requires i < |heights|
    ensures i < j <= |heights|
    decreases |heights| - i
  {
    if i + 1 == |heights| || heights[i + 1] > l then i + 1 else Succ(heights, i + 1, l)
  }

  lemma {:induction false} SuccSkips(heights: seq<nat>, i: nat, l: nat)
    requires i < |heights|
    ensures var j := Succ(heights, i, l);
            (j < |heights| ==> heights[j] > l) && forall m :: i < m < j ==> heights[m] <= l
    decreases |heights| - i
  {
    if i + 1 < |heights| && heights[i + 1] <= l {
      SuccSkips(heights, i + 1, l);
    }
  }

  lemma SuccUnique(heights: seq<nat>, i: nat, l: nat, j: nat)
    requires i < j <= |heights|
    requires j < |heights| ==> heights[j] > l
    requires forall m :: i < m < j ==> heights[m] <= l
    ensures Succ(heights, i, l) == j
  {
    SuccSkips(heights, i, l);
  }

  function InsertAt<T>(s: seq<T>, p: nat, x: T): (t: seq<T>)
    requires p <= |s|
    ensures Inserted(s, p, x, t)
  {
    s[..p] + [x] + s[p..]
  }

  /** `t` is `s` with `x` put in at `p`, index by index. */
  predicate Inserted<T(==)>(s: seq<T>, p: nat, x: T, t: seq<T>) {
    && p <= |s| && |t| == |s| + 1 && t[p] == x
    && (forall i {:trigger t[i]} :: 0 <= i < p ==> t[i] == s[i])
    && (forall i {:trigger t[i]} :: p < i < |t| ==> t[i] == s[i - 1])
  }

  /** Where forward pointers lead after an insertion, for towers before and after it. */
  lemma SuccInsert(heights: seq<nat>, p: nat, h: nat, hs: seq<nat>, i: nat, l: nat)
    requires i < |heights| && Inserted(heights, p, h, hs)
    ensures var j := Succ(heights, i, l);
            if i >= p then Succ(hs, i + 1, l) == j + 1
            else Succ(hs, i, l) == if j < p then j else if h > l then p else j + 1
  {
    var j := Succ(heights, i, l);
    SuccSkips(heights, i, l);
    if i >= p {
      assert forall m :: i + 1 < m < j + 1 ==> hs[m] == heights[m - 1];
      SuccUnique(hs, i + 1, l, j + 1);
    } else {
      assert forall m :: p < m <= j && m < |hs| ==> hs[m] == heights[m - 1];
      SuccUnique(hs, i, l, if j < p then j else if h > l then p else j + 1);
    }
  }

  /** The new tower points where the tower that saw past it used to point. */
  lemma SuccInserted(heights: seq<nat>, p: nat, h: nat, hs: seq<nat>, u: nat, l: nat)
    requires u < p && Inserted(heights, p, h, hs) && Succ(heights, u, l) >= p
    ensures Succ(hs, p, l) == Succ(heights, u, l) + 1
  {
    var j := Succ(heights, u, l);
    SuccSkips(heights, u, l);
    assert forall m :: p < m <= j && m < |hs| ==> hs[m] == heights[m - 1];
    SuccUnique(hs, p, l, j + 1);
  }

  /** On level `l`, the tower at `u` is the last one up to and including position `at`. */
  predicate Passes(heights: seq<nat>, u: nat, l: nat, at: nat) {
    u <= at < |heights| && heights[u] > l && forall m :: u < m <= at ==> heights[m] <= l
  }

  class Node {
    var entry: Entry
    var next: seq<Node?>
    ghost var pos: nat        // its place in level-0 order, the head first

    constructor (entry: Entry, height: nat, ghost pos: nat)
      ensures this.entry == entry && this.pos == pos
      ensures |next| == height && forall l :: 0 <= l < height ==> next[l] == null
    {
      this.entry := entry;
      this.next := seq(height, i => null);
      this.pos := pos;
    }

    /** Links this new node in behind the nodes of `update`, bottom level first. */
    method Splice(update: seq<Node?>, ghost chain: seq<Node>, ghost heights: seq<nat>, ghost at: nat,
                  ghost left: seq<nat>)
      requires Spliced(chain, heights, this, left, 0) && |next| <= |update| == |left|
      requires forall l :: 0 <= l < |next| ==> Passes(heights, left[l], l, at) && update[l] == chain[left[l]]
      modifies chain`next, this`next
      ensures |next| == old(|next|) && Spliced(chain, heights, this, left, |next|)
    {
      var i := 0;
      while i < |next|
        invariant i <= |next| == old(|next|) && Spliced(chain, heights, this, left, i)
      {
        assert Passes(heights, left[i], i, at);
        SpliceLevel(update[i], i, chain, heights, left);
        i := i + 1;
      }
    }

    /** Links this new node in on level `i`, between `u` and the node `u` leads to. */
    method SpliceLevel(u: Node, i: nat, ghost chain: seq<Node>, ghost heights: seq<nat>, ghost left: seq<nat>)
      requires Spliced(chain, heights, this, left, i) && i < |next|
      requires left[i] < |chain| && heights[left[i]] > i && u == chain[left[i]]
      modifies this`next, u`next
      ensures Spliced(chain, heights, this, left, i + 1)
      ensures |next| == old(|next|)
    {
      next := next[i := u.next[i]];
      u.next := u.next[i := this];
    }
  }

  function At(chain: seq<Node>, i: nat): Node? {
    if i < |chain| then chain[i] else null
  }

  /**
   Where an old pointer must lead once a tower `n` of height `lvl` stands after position
   `at`: on the levels of `n`, the pointer that used to pass `at` now reaches `n`.
   */
  lemma Relink(chain: seq<Node>, n: Node, chain': seq<Node>, heights: seq<nat>, heights': seq<nat>,
               left: seq<nat>, at: nat, lvl: nat, j: nat, l: nat)
    requires |chain| == |heights| && at < |chain| && lvl <= |left|
    requires Inserted(chain, at + 1, n, chain') && Inserted(heights, at + 1, lvl, heights')
    requires l < lvl ==> Passes(heights, left[l], l, at)
    requires j < |chain| && l < heights[j]
    ensures At(chain', Succ(heights', if j <= at then j else j + 1, l)) ==
            if l < lvl && j == left[l] then n else At(chain, Succ(heights, j, l))
  {
    SuccInsert(heights, at + 1, lvl, heights', j, l);
    if j <= at && l < lvl {
      PassesUnique(heights, left[l], l, at, j);
    }
  }

  /** The new tower takes over where the tower that pointed past it used to lead. */
  lemma RelinkNew(chain: seq<Node>, n: Node, chain': seq<Node>, heights: seq<nat>, heights': seq<nat>,
                  u: nat, at: nat, lvl: nat, l: nat)
    requires |chain| == |heights| && Passes(heights, u, l, at)
    requires Inserted(chain, at + 1, n, chain') && Inserted(heights, at + 1, lvl, heights')
    ensures At(chain', Succ(heights', at + 1, l)) == At(chain, Succ(heights, u, l))
  {
    PassesUnique(heights, u, l, at, u);
    SuccInserted(heights, at + 1, lvl, heights', u, l);
  }

  /** Only one tower up to `at` points past `at` on a level. */
  lemma PassesUnique(heights: seq<nat>, u: nat, l: nat, at: nat, i: nat)
    requires Passes(heights, u, l, at) && i <= at && heights[i] > l
    ensures Succ(heights, i, l) > at <==> i == u
  {
    SuccSkips(heights, i, l);
  }

  /** The parts of the model match in length; heights are within bounds; `repr` has every node. */
  ghost predicate Fits(chain: seq<Node>, heights: seq<nat>, contents: seq<Entry>, repr: set<object>, head: Node,
                       level: nat) {
    && |chain| == |heights| == |contents| + 1
    && chain[0] == head && heights[0] == MAX_LEVEL
    && 1 <= level <= MAX_LEVEL
    && (forall i :: 1 <= i < |heights| ==> 1 <= heights[i] <= level)
    && (forall i :: 0 <= i < |chain| ==> chain[i] in repr)
  }

  lemma FitsInsert(chain: seq<Node>, heights: seq<nat>, contents: seq<Entry>, repr: set<object>, head: Node, level: nat,
                   n: Node, h: nat, chain': seq<Node>, heights': seq<nat>, contents': seq<Entry>, at: nat)
    requires Fits(chain, heights, contents, repr, head, level) && 1 <= h <= level && at <= |contents|
    requires Inserted(chain, at + 1, n, chain') && Inserted(heights, at + 1, h, heights')
    requires |contents'| == |contents| + 1
    ensures Fits(chain', heights', contents', repr + {n}, head, level)
  {
  }

  /** At every level the pointers visit, in order, exactly the towers that reach it. */
  ghost predicate Towers(chain: seq<Node>, heights: seq<nat>)
    requires |chain| == |heights|
    reads chain`next, chain`pos
  {
    && (forall i :: 0 <= i < |chain| ==> chain[i].pos == i && |chain[i].next| == heights[i])
    && (forall i, l {:trigger chain[i].next[l]} :: 0 <= i < |chain| && 0 <= l < heights[i] ==>
          chain[i].next[l] == At(chain, Succ(heights, i, l)))
  }

  /** The nodes after the head carry the entries of `contents`. */
  ghost predicate Holds(chain: seq<Node>, contents: seq<Entry>)
    requires |chain| == |contents| + 1
    reads chain`entry
  {
    forall i {:trigger chain[i].entry} :: 1 <= i < |chain| ==> chain[i].entry == contents[i - 1]
  }

  lemma HoldsDistinct(chain: seq<Node>, heights: seq<nat>, p: nat)
    requires |chain| == |heights| && Towers(chain, heights) && p < |chain|
    ensures forall i {:trigger chain[i]} :: 0 <= i < |chain| && i != p ==> chain[i] != chain[p]
  {
  }

  lemma HoldsInsert(chain: seq<Node>, contents: seq<Entry>, n: Node, chain': seq<Node>, contents': seq<Entry>, at: nat)
    requires |chain| == |contents| + 1 && Holds(chain, contents)
    requires Inserted(chain, at + 1, n, chain') && Inserted(contents, at, n.entry, contents')
    ensures Holds(chain', contents')
  {
    forall i | 1 <= i < |chain'|
      ensures chain'[i].entry == contents'[i - 1]
    {
      if i > at + 1 {
        assert chain'[i] == chain[i - 1] && contents'[i - 1] == contents[i - 2];
      }
    }
  }

  /** The pointers once the new node `n` has been put in on the `i` lowest levels. */
  ghost predicate Spliced(chain: seq<Node>, heights: seq<nat>, n: Node, left: seq<nat>, i: nat)
    reads chain`next, chain`pos, n`next
  {
    && |chain| == |heights| && n !in chain && i <= |n.next| <= |left|
    && (forall j :: 0 <= j < |chain| ==> chain[j].pos == j && |chain[j].next| == heights[j])
    && (forall j, l {:trigger chain[j].next[l]} :: 0 <= j < |chain| && 0 <= l < heights[j] ==>
          chain[j].next[l] == if l < i && j == left[l] then n else At(chain, Succ(heights, j, l)))
    && (forall l :: 0 <= l < i ==> left[l] < |chain| && n.next[l] == At(chain, Succ(heights, left[l], l)))
  }

  lemma Unlinked(chain: seq<Node>, heights: seq<nat>, n: Node, left: seq<nat>)
    requires |chain| == |heights| && Towers(chain, heights) && n !in chain && |n.next| <= |left|
    ensures Spliced(chain, heights, n, left, 0)
  {
  }

  /** Renumbers the nodes behind the new one; the pointers are then right for the longer list. */
  ghost method Rearrange(chain: seq<Node>, n: Node, chain': seq<Node>, heights: seq<nat>, heights': seq<nat>,
                         contents: seq<Entry>, at: nat, left: seq<nat>)
    requires Spliced(chain, heights, n, left, |n.next|) && at < |chain| && n.pos == at + 1
    requires Inserted(chain, at + 1, n, chain') && Inserted(heights, at + 1, |n.next|, heights')
    requires forall l :: 0 <= l < |n.next| ==> Passes(heights, left[l], l, at)
    requires |chain'| == |contents| + 1 && Holds(chain', contents)
    modifies chain`pos
    ensures Towers(chain', heights') && Holds(chain', contents)
  {
    forall m | m in chain[at + 1..] {
      m.pos := m.pos + 1;
    }
    forall j | 0 <= j < |chain'|
      ensures chain'[j].pos == j && |chain'[j].next| == heights'[j]
    {
      if j > at + 1 {
        assert chain'[j] == chain[j - 1] && heights'[j] == heights[j - 1];
        assert chain[j - 1] == chain[at + 1..][j - 1 - (at + 1)];
      }
    }
    forall j, l | 0 <= j < |chain'| && 0 <= l < heights'[j]
      ensures chain'[j].next[l] == At(chain', Succ(heights', j, l))
    {
      if j == at + 1 {
        RelinkNew(chain, n, chain', heights, heights', left[l], at, |n.next|, l);
      } else {
        var i := if j <= at then j else j - 1;
        assert chain'[j] == chain[i] && heights'[j] == heights[i];
        Relink(chain, n, chain', heights, heights', left, at, |n.next|, i, l);
      }
    }
  }

  /** Whether a stored key is nil after a write: a new empty key brings its slice along. */
  predicate NilAfter(s: seq<Entry>, hasNil: bool, key: Data, isNil: bool) {
    if key == [] && Find(s, []).None? then isNil else hasNil
  }

  /** Which keys of a list are nil slices. */
  function Nils(s: seq<Entry>, hasNil: bool): (nils: seq<bool>)
    ensures |nils| == |s| && forall i :: 0 <= i < |s| ==> nils[i] == (hasNil && s[i].key == [])
  {
    seq(|s|, i requires 0 <= i < |s| => hasNil && s[i].key == [])
  }

  class SkipList {
    var head: Node
    var level: nat
    var size: nat
    var bytes: int
    var nilKey: bool                // the node of the empty key, when there is one, holds a nil slice

    ghost var contents: seq<Entry>
    ghost var chain: seq<Node>      // the head, then the nodes in level-0 order
    ghost var heights: seq<nat>
    ghost var Repr: set<object>

    ghost predicate Sized()
      reads this
    {
      Fits(chain, heights, contents, Repr, head, level)
    }

    ghost predicate Valid()
      reads this, Repr
      ensures Valid() ==> this in Repr
    {
      && this in Repr && Sized() && Towers(chain, heights) && Holds(chain, contents)
      && Sorted(contents)
      && size == |contents|
      && bytes == TotalBytes(contents)
    }

    /** Some key stored is a nil slice; only the empty key can be. */
    ghost predicate HasNil()
      reads this
    {
      nilKey && Find(contents, []).Some?
    }

    constructor ()
      ensures Valid() && fresh(Repr) && contents == []
    {
      head := new Node(Entry([], [], 0, false), MAX_LEVEL, 0);
      level, size, bytes, nilKey := 1, 0, 0, false;
      contents, heights := [], [MAX_LEVEL];
      new;
      chain := [head];
      Repr := {this, head};
    }

    method RandomLevel() returns (lvl: nat)
      ensures 1 <= lvl <= MAX_LEVEL
    {
      lvl := 1;
      var promote: bool := *;
      while lvl < MAX_LEVEL && promote
        invariant 1 <= lvl <= MAX_LEVEL
      {
        lvl := lvl + 1;
        promote := *;
      }
    }

    /** From level `lo` up, `update` holds the node where each level passes position `at`. */
    ghost predicate Marks(update: seq<Node?>, left: seq<nat>, lo: nat, at: nat)
      reads this
    {
      && |update| == |left| == MAX_LEVEL && level <= MAX_LEVEL && |chain| == |heights|
      && forall l :: lo <= l < level ==>
           Passes(heights, left[l], l, at) && update[l] == chain[left[l]]
    }

    /** The byte count the flush threshold is compared with. */
    lemma Accounted()
      requires Valid()
      ensures bytes == KeyBytes(contents) + ValueBytes(contents) + 16 * |contents| && size == |contents|
    {
      TotalBytesSums(contents);
    }

    /** Level 0 visits every node. */
    lemma Level0(i: nat)
      requires Valid() && i < |chain|
      ensures |chain[i].next| > 0 && chain[i].next[0] == At(chain, i + 1)
    {
    }

    lemma Shown(i: nat)
      requires Valid() && i < |contents|
      ensures chain[i + 1].entry == contents[i]
    {
    }

    /** Moves right along level `i` to the last node there whose key is below `key`. */
    method Walk(start: Node, i: nat, key: Data, ghost from: nat) returns (x: Node, ghost at: nat)
      requires Valid()
      requires from <= LowerBound(contents, key) && start == chain[from] && heights[from] > i
      ensures Passes(heights, at, i, LowerBound(contents, key)) && x == chain[at]
    {
      x, at := start, from;
      while x.next[i] != null && Less(x.next[i].entry.key, key)
        invariant at <= LowerBound(contents, key) && x == chain[at] && heights[at] > i
        decreases |chain| - at
      {
        SuccSkips(heights, at, i);
        at := Succ(heights, at, i);
        x := x.next[i];
        BelowLowerBound(contents, key, at - 1);
      }
      ghost var j := Succ(heights, at, i);
      SuccSkips(heights, at, i);
      assert x.next[i] == At(chain, j);
      assert j < |chain| ==> x.next[i].entry == contents[j - 1];
    }

    /**
     The search every operation starts with: from the top level down, the last node
     before `key`, remembering where each level was left.
     */
    method Descend(key: Data) returns (x: Node, update: seq<Node?>, ghost at: nat, ghost left: seq<nat>)
      requires Valid()
      ensures at == LowerBound(contents, key) && Marks(update, left, 0, at) && x == chain[at]
    {
      x, at := head, 0;
      update := seq(MAX_LEVEL, i => null);
      left := seq(MAX_LEVEL, i => 0);
      var i: nat := level;
      while i > 0
        invariant i <= level && at <= LowerBound(contents, key) && x == chain[at] && heights[at] >= i
        invariant i == 0 ==> at == LowerBound(contents, key)
        invariant Marks(update, left, i, LowerBound(contents, key))
      {
        i := i - 1;
        x, at := Walk(x, i, key, at);
        assert at < LowerBound(contents, key) ==> heights[LowerBound(contents, key)] >= 1;
        update := update[i := x];
        left := left[i := at];
      }
    }

    /**
     `set`: a new key gets a tower, a known one is overwritten unless the write is older. The
     slice of a known key stays the one it came with.
     */
    method Set(key: Data, isNil: bool, value: Data, seqno: nat, deleted: bool)
      requires Valid()
      modifies Repr
      ensures Valid() && fresh(Repr - old(Repr))
      ensures contents == Upsert(old(contents), Entry(key, value, seqno, deleted))
      ensures HasNil() == NilAfter(old(contents), old(HasNil()), key, isNil)
    {
      FindUpsert(contents, Entry(key, value, seqno, deleted), []);
      var isNew := Place(Entry(key, value, seqno, deleted));
      if isNew && |key| == 0 {
        nilKey := isNil;
      }
    }

    method Place(e: Entry) returns (isNew: bool)
      requires Valid()
      modifies Repr
      ensures Valid() && fresh(Repr - old(Repr)) && nilKey == old(nilKey)
      ensures contents == Upsert(old(contents), e) && isNew == Find(old(contents), e.key).None?
    {
      hide TotalBytes, Less, Spliced;
      var x, update, at, left := Descend(e.key);
      UpsertSorted(contents, e);
      FindByPosition(contents, e.key);
      Level0(at);
      if x.next[0] != null && x.next[0].entry.key == e.key {
        x := x.next[0];
        if e.seqno >= x.entry.seqno {
          Overwrite(x, e, at);
        }
        return false;
      }
      var lvl := RandomLevel();
      update, left := Raise(lvl, update, at, left);
      Insert(e, lvl, update, at, left);
      return true;
    }

    method Overwrite(x: Node, e: Entry, ghost at: nat)
      requires Valid() && at < |contents| && x == chain[at + 1]
      requires e.key == contents[at].key && Sorted(contents[at := e])
      modifies this`contents, this`bytes, x`entry
      ensures Valid()
      ensures contents == old(contents)[at := e]
    {
      var oldBytes := EstimateBytes(x.entry);
      TotalBytesReplace(contents, at, e);
      HoldsDistinct(chain, heights, at + 1);
      x.entry := Entry(x.entry.key, e.value, e.seqno, e.deleted);
      bytes := bytes + (EstimateBytes(x.entry) - oldBytes);
      contents := contents[at := e];
    }

    method Insert(e: Entry, lvl: nat, update: seq<Node?>, ghost at: nat, ghost left: seq<nat>)
      requires Valid() && at <= |contents| && Marks(update, left, 0, at) && 1 <= lvl <= level
      requires Sorted(InsertAt(contents, at, e))
      modifies Repr
      ensures Valid() && fresh(Repr - old(Repr)) && nilKey == old(nilKey)
      ensures contents == InsertAt(old(contents), at, e)
    {
      hide Towers, Spliced, TotalBytes, Sorted, Less;
      var n: Node := new Node(e, lvl, at + 1);
      Unlinked(chain, heights, n, left);
      n.Splice(update, chain, heights, at, left);
      size := size + 1;
      bytes := bytes + EstimateBytes(e);
      TotalBytesInsert(contents, at, e);
      Adopt(n, at, left, InsertAt(chain, at + 1, n), InsertAt(heights, at + 1, lvl), InsertAt(contents, at, e));
    }

    /** The linked-in node becomes part of the model. */
    ghost method Adopt(n: Node, at: nat, left: seq<nat>, chain': seq<Node>, heights': seq<nat>, contents': seq<Entry>)
      requires this in Repr && Sized() && Spliced(chain, heights, n, left, |n.next|) && 1 <= |n.next| <= level
      requires Holds(chain, contents) && at <= |contents| && n.pos == at + 1
      requires forall l :: 0 <= l < |n.next| ==> Passes(heights, left[l], l, at)
      requires Inserted(chain, at + 1, n, chain') && Inserted(heights, at + 1, |n.next|, heights')
      requires Inserted(contents, at, n.entry, contents') && Sorted(contents')
      requires size == |contents'| && bytes == TotalBytes(contents')
      modifies this`chain, this`heights, this`contents, this`Repr, chain`pos
      ensures Valid() && Repr == old(Repr) + {n} && contents == contents'
    {
      FitsInsert(chain, heights, contents, Repr, head, level, n, |n.next|, chain', heights', contents', at);
      HoldsInsert(chain, contents, n, chain', contents', at);
      Rearrange(chain, n, chain', heights, heights', contents', at, left);
      chain, heights, contents := chain', heights', contents';
      Repr := Repr + {n};
    }

    /** A tower higher than every other starts from the head on the levels above. */
    method Raise(lvl: nat, update0: seq<Node?>, ghost at: nat, ghost left0: seq<nat>)
      returns (update: seq<Node?>, ghost left: seq<nat>)
      requires Valid() && lvl <= MAX_LEVEL && at <= |contents| && Marks(update0, left0, 0, at)
      modifies this`level
      ensures Valid() && lvl <= level
      ensures Marks(update, left, 0, at)
    {
      update, left := update0, left0;
      if lvl > level {
        for i := level to lvl
          invariant |update| == |left| == MAX_LEVEL
          invariant forall l :: 0 <= l < i ==> Passes(heights, left[l], l, at) && update[l] == chain[left[l]]
        {
          update := update[i := head];
          left := left[i := 0];
        }
        level := lvl;
      }
    }

    method Put(key: Data, isNil: bool, value: Data, seqno: nat)
      requires Valid()
      modifies Repr
      ensures Valid() && fresh(Repr - old(Repr))
      ensures contents == Upsert(old(contents), Entry(key, value, seqno, false))
      ensures HasNil() == NilAfter(old(contents), old(HasNil()), key, isNil)
    {
      Set(key, isNil, value, seqno, false);
    }

    method Delete(key: Data, isNil: bool, seqno: nat)
      requires Valid()
      modifies Repr
      ensures Valid() && fresh(Repr - old(Repr))
      ensures contents == Upsert(old(contents), Entry(key, [], seqno, true))
      ensures HasNil() == NilAfter(old(contents), old(HasNil()), key, isNil)
    {
      Set(key, isNil, [], seqno, true);
    }

    method Get(key: Data) returns (r: Option<Entry>)
      requires Valid()
      ensures r == Find(contents, key)
    {
      var x, _, at, _ := Descend(key);
      Level0(at);
      FindByPosition(contents, key);
      if x.next[0] != null && x.next[0].entry.key == key {
        return Some(x.next[0].entry);
      }
      return None;
    }

    /** Entries from node `start` on, up to `hi`, until the callback declines one. */
    method Collect(start: Node?, hi: Option<Data>, fn: Entry -> bool, ghost from: nat) returns (seen: seq<Entry>)
      requires Valid()
      requires from <= |contents| && start == At(chain, from + 1)
      ensures seen == Until(contents, from, hi, fn)
    {
      hide Towers, Holds, Sorted, TotalBytes, Less;
      var n := start;
      ghost var i := from;
      seen := [];
      while n != null
        invariant i <= |contents| && n == At(chain, i + 1)
        invariant seen + Until(contents, i, hi, fn) == Until(contents, from, hi, fn)
        decreases |contents| - i
      {
        Shown(i);
        if hi.Some? && !Less(n.entry.key, hi.value) {
          return;
        }
        seen := seen + [n.entry];
        if !fn(n.entry) {
          return;
        }
        Level0(i + 1);
        n := n.next[0];
        i := i + 1;
      }
    }

    method AscendRange(lo: Option<Data>, hi: Option<Data>, fn: Entry -> bool) returns (seen: seq<Entry>)
      requires Valid()
      ensures seen == Until(contents, if lo.Some? then LowerBound(contents, lo.value) else 0, hi, fn)
    {
      var x := head;
      ghost var at := 0;
      if lo.Some? {
        var y, _, from, _ := Descend(lo.value);
        x, at := y, from;
      }
      Level0(at);
      seen := Collect(x.next[0], hi, fn, at);
    }

    /** The entries in order, and which of their keys are nil slices. */
    method Snapshot() returns (out: seq<Entry>, nils: seq<bool>)
      requires Valid()
      ensures out == contents && nils == Nils(contents, HasNil())
    {
      Level0(0);
      out := Collect(head.next[0], None, e => true, 0);
      UntilVisits(contents, 0, None, e => true);
      nils := [];
      while |nils| < |out|
        invariant |nils| <= |out|
        invariant forall i :: 0 <= i < |nils| ==> nils[i] == (nilKey && out[i].key == [])
      {
        nils := nils + [nilKey && |out[|nils|].key| == 0];
      }
      if !HasNil() {
        assert forall i :: 0 <= i < |out| && nilKey ==> out[i] in out && out[i].key != [];
      }
    }

    method MaxSeq() returns (max: nat)
      requires Valid()
      ensures max == MaxSeqno(contents)
    {
      max := 0;
      var n := head.next[0];
      ghost var i := 0;
      Level0(0);
      while n != null
        invariant i <= |contents| && n == At(chain, i + 1)
        invariant MaxSeqno(contents) == Max(max, MaxSeqno(contents[i..]))
        decreases |contents| - i
      {
        assert contents[i..][1..] == contents[i + 1..];
        if n.entry.seqno > max {
          max := n.entry.seqno;
        }
        Level0(i + 1);
        n := n.next[0];
        i := i + 1;
      }
    }

    method Clear()
      requires Valid()
      modifies Repr
      ensures Valid() && fresh(Repr - old(Repr)) && contents == []
    {
      var h := new Node(Entry([], [], 0, false), MAX_LEVEL, 0);
      assert Towers([h], [MAX_LEVEL]) && Holds([h], []);
      head, level, size, bytes := h, 1, 0, 0;
      contents, heights, chain, Repr := [], [MAX_LEVEL], [h], {this, h};
    }
  }

  /** A position in the list; a new iterator stands on the head, before the first entry. */
  class Iterator {
    const s: SkipList
    var cur: Node?

    ghost predicate Placed()
      reads this, s, s.Repr
    {
      s.Valid() && (cur != null ==> cur in s.chain)
    }

    /** The index in `contents` plus one: 0 on the head, past the length at the end. */
    ghost function Position(): nat
      requires Placed()
      reads this, s, s.Repr
    {
      if cur == null then |s.chain| else cur.pos
    }

    constructor (s: SkipList)
      requires s.Valid()
      ensures this.s == s && Placed() && Position() == 0
    {
      this.s := s;
      cur := s.head;
    }

    predicate Valid()
      reads this
    {
      cur != null
    }

    /** The entry shown; on the head it is the zero entry. */
    method Entry() returns (e: Option<Entry>)
      requires Placed()
      ensures Position() > 0 ==> e == if Position() <= |s.contents| then Some(s.contents[Position() - 1]) else None
    {
      if cur == null {
        return None;
      }
      return Some(cur.entry);
    }

    method SeekToFirst()
      requires Placed() && this !in s.Repr
      modifies this
      ensures Placed() && Position() == 1
    {
      s.Level0(0);
      cur := s.head.next[0];
    }

    /** Lands on the first entry at or after the target. */
    method Seek(target: Data)
      requires Placed() && this !in s.Repr
      modifies this
      ensures Placed() && Position() == LowerBound(s.contents, target) + 1
    {
      var x, _, at, _ := s.Descend(target);
      s.Level0(at);
      cur := x.next[0];
    }

    /** Also after entries have been put in: it goes on to the entry that follows now. */
    method Next()
      requires Placed() && this !in s.Repr
      modifies this
      ensures Placed() && Position() == if old(Position()) <= |s.contents| then old(Position()) + 1 else old(Position())
    {
      if cur == null {
        return;
      }
      s.Level0(cur.pos);
      cur := cur.next[0];
    }
  }
}
