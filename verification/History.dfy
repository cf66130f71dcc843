/**
 Histories of writes and how tables and log records represent them.

 A history is the list of all records ever written, in the order of their sequence
 numbers. What a lookup should see is a function of the history alone; tables and log
 represent it when together they hold the newest record of every key.
 */
module History {
  import opened Bytes
  import opened Entries
  import opened Merge

  ghost predicate Increasing(r: seq<Entry>) {
    forall i, j :: 0 <= i < j < |r| ==> r[i].seqno < r[j].seqno
  }

  /** The last record of a key. */
  function Latest(r: seq<Entry>, k: Data): Option<Entry> {
    if r == [] then None
    else if r[|r| - 1].key == k then Some(r[|r| - 1])
    else Latest(r[..|r| - 1], k)
  }

  /** The plain map the records describe when applied in order. */
  function MapOf(r: seq<Entry>): map<Data, Data> {
    if r == [] then map[]
    else
      var m, e := MapOf(r[..|r| - 1]), r[|r| - 1];
      if e.deleted then m - {e.key} else m[e.key := e.value]
  }

  /** What a reader is shown of a version. */
  function Shown(v: Option<Entry>): Option<Data> {
    if v.Some? && !v.value.deleted then Some(v.value.value) else None
  }

  function Lookup(m: map<Data, Data>, k: Data): Option<Data> {
    if k in m then Some(m[k]) else None
  }

  /** The map holds, for every key, what the last record of the key says. */
  lemma {:induction false} MapOfLatest(r: seq<Entry>, k: Data)
    ensures Lookup(MapOf(r), k) == Shown(Latest(r, k))
  {
    if r != [] {
      MapOfLatest(r[..|r| - 1], k);
    }
  }

  /** The memtable after the records have been applied to it. */
  function Memtable(r: seq<Entry>): seq<Entry> {
    if r == [] then [] else Upsert(Memtable(r[..|r| - 1]), r[|r| - 1])
  }

  lemma MemtableAppend(r: seq<Entry>, e: Entry)
    ensures Memtable(r + [e]) == Upsert(Memtable(r), e)
  {
    assert (r + [e])[..|r|] == r;
  }

  ghost function Elems(r: seq<Entry>): set<Entry> {
    set e | e in r
  }

  ghost function Held(tables: seq<seq<Entry>>): set<Entry> {
    set t, e | t in tables && e in t :: e
  }

  /** `v` is the newest version of `k` among `xs`. */
  ghost predicate Top(v: Option<Entry>, k: Data, xs: set<Entry>) {
    && (v.Some? ==> v.value in xs && v.value.key == k && forall x :: x in xs && x.key == k ==> x.seqno <= v.value.seqno)
    && (v.None? ==> forall x :: x in xs ==> x.key != k)
  }

  /** Among the records of a history the newest version is unique. */
  lemma TopUnique(v: Option<Entry>, w: Option<Entry>, k: Data, xs: set<Entry>, r: seq<Entry>)
    requires Increasing(r) && xs <= Elems(r) && Top(v, k, xs) && Top(w, k, xs)
    ensures v == w
  {
    if v.Some? && w.Some? {
      SameNumber(v.value, w.value, r);
    }
  }

  lemma SameNumber(a: Entry, b: Entry, r: seq<Entry>)
    requires Increasing(r) && a in r && b in r && a.seqno == b.seqno
    ensures a == b
  {
    var i :| 0 <= i < |r| && r[i] == a;
    var j :| 0 <= j < |r| && r[j] == b;
  }

  lemma {:induction false} LatestTop(r: seq<Entry>, k: Data)
    requires Increasing(r)
    ensures Top(Latest(r, k), k, Elems(r))
  {
    if r != [] {
      var n := |r| - 1;
      LatestTop(r[..n], k);
      assert r == r[..n] + [r[n]];
      forall x | x in r
        ensures x.seqno <= r[n].seqno
      {
        var i :| 0 <= i < |r| && r[i] == x;
      }
    }
  }

  /** Applying records to a memtable keeps the newest version of every key. */
  lemma {:induction false} MemtableTop(r: seq<Entry>, k: Data)
    ensures Sorted(Memtable(r)) && Top(Find(Memtable(r), k), k, Elems(r))
  {
    if r != [] {
      var n := |r| - 1;
      MemtableTop(r[..n], k);
      assert r == r[..n] + [r[n]];
      UpsertSorted(Memtable(r[..n]), r[n]);
      FindUpsert(Memtable(r[..n]), r[n], k);
    }
  }

  lemma MemtableElems(r: seq<Entry>)
    ensures Elems(Memtable(r)) <= Elems(r)
  {
    forall e | e in Memtable(r)
      ensures e in r
    {
      MemtableTop(r, e.key);
      FindMember(Memtable(r), e);
    }
  }

  // ---------- representation ----------

  /**
   Tables holding `held` and a log holding the records `l` represent the history `r`:
   they hold nothing else, and the newest record of every key.
   */
  ghost predicate Represents(held: set<Entry>, l: seq<Entry>, r: seq<Entry>) {
    && Increasing(r) && Increasing(l)
    && held <= Elems(r) && Elems(l) <= Elems(r)
    && forall k :: Top(Latest(r, k), k, held + Elems(l))
  }

  /** The newest version found in tables and log is the last record of the history. */
  lemma Resolve(held: set<Entry>, l: seq<Entry>, r: seq<Entry>, k: Data, v: Option<Entry>)
    requires Represents(held, l, r) && Top(v, k, held + Elems(l))
    ensures v == Latest(r, k)
  {
    assert Top(Latest(r, k), k, held + Elems(l));
    TopUnique(v, Latest(r, k), k, held + Elems(l), r);
  }

  lemma IncreasingAppend(r: seq<Entry>, e: Entry)
    requires Increasing(r) && forall x :: x in r ==> x.seqno < e.seqno
    ensures Increasing(r + [e])
  {
    assert forall i :: 0 <= i < |r| ==> r[i] in r;
  }

  /** One more log record, numbered above all others. */
  lemma {:induction false} RepresentsAppend(held: set<Entry>, l: seq<Entry>, r: seq<Entry>, e: Entry)
    requires Represents(held, l, r) && forall x :: x in r ==> x.seqno < e.seqno
    ensures Represents(held, l + [e], r + [e])
  {
    forall x | x in l
      ensures x in r
    {
      assert x in Elems(l);
    }
    IncreasingAppend(l, e);
    IncreasingAppend(r, e);
    assert Elems(l + [e]) == Elems(l) + {e} && Elems(r + [e]) == Elems(r) + {e};
    forall k
      ensures Top(Latest(r + [e], k), k, held + Elems(l + [e]))
    {
      TopAppend(held + Elems(l), r, e, k);
      assert held + Elems(l) + {e} == held + Elems(l + [e]);
    }
  }

  lemma {:induction false} TopAppend(xs: set<Entry>, r: seq<Entry>, e: Entry, k: Data)
    requires Top(Latest(r, k), k, xs) && xs <= Elems(r) && forall x :: x in r ==> x.seqno < e.seqno
    ensures Top(Latest(r + [e], k), k, xs + {e})
  {
    assert (r + [e])[..|r|] == r;
  }

  /** A new table with the memtable's contents represents the history without the log. */
  lemma RepresentsFlush(held: set<Entry>, l: seq<Entry>, r: seq<Entry>, m: seq<Entry>)
    requires Represents(held, l, r) && Increasing(m) && Elems(m) <= Elems(r)
    ensures Represents(held + Elems(Memtable(l)), m, r)
  {
    MemtableElems(l);
    forall k
      ensures Top(Latest(r, k), k, held + Elems(Memtable(l)) + Elems(m))
    {
      LatestTop(r, k);
      assert Top(Latest(r, k), k, held + Elems(l));
      var v := Latest(r, k);
      if v.Some? && v.value in l {
        MemtableTop(l, k);
        assert v.value in Elems(l);
        SameNumber(v.value, Find(Memtable(l), k).value, r);
      }
    }
  }

  /** Replacing tables by others that keep the newest versions. */
  lemma RepresentsReplace(held: set<Entry>, held': set<Entry>, l: seq<Entry>, r: seq<Entry>)
    requires Represents(held, l, r) && held' <= held
    requires forall e :: e in held && Top(Some(e), e.key, held) ==> e in held'
    ensures Represents(held', l, r)
  {
    forall k
      ensures Top(Latest(r, k), k, held' + Elems(l))
    {
      var v := Latest(r, k);
      assert Top(v, k, held + Elems(l));
      if v.Some? && v.value in held {
        assert Top(v, v.value.key, held);
      }
    }
  }

  // ---------- point reads and scans ----------

  /** Get over the tables, newest table first: a later table wins unless an earlier one is strictly newer. */
  function BestFrom(tables: seq<seq<Entry>>, n: nat, k: Data): Option<Entry>
    requires n <= |tables|
    decreases |tables| - n
  {
    if n == |tables| then None else Newer(BestFrom(tables, n + 1, k), Find(tables[n], k))
  }

  /** A version that no other table beats is the one found; on a tie the latest table has it. */
  lemma {:induction false} BestIs(tables: seq<seq<Entry>>, n: nat, i: nat, k: Data, v: Entry)
    requires n <= i < |tables| && Find(tables[i], k) == Some(v)
    requires forall j :: i < j < |tables| && Find(tables[j], k).Some? ==> Find(tables[j], k).value.seqno < v.seqno
    requires forall j :: n <= j < i && Find(tables[j], k).Some? ==> Find(tables[j], k).value.seqno <= v.seqno
    ensures BestFrom(tables, n, k) == Some(v)
    decreases |tables| - n
  {
    if i == n {
      BestBelow(tables, n + 1, k, v.seqno);
    } else {
      BestIs(tables, n + 1, i, k, v);
    }
  }

  lemma {:induction false} BestBelow(tables: seq<seq<Entry>>, n: nat, k: Data, bound: nat)
    requires n <= |tables|
    requires forall j :: n <= j < |tables| && Find(tables[j], k).Some? ==> Find(tables[j], k).value.seqno < bound
    ensures BestFrom(tables, n, k).Some? ==> BestFrom(tables, n, k).value.seqno < bound
    decreases |tables| - n
  {
    if n < |tables| {
      BestBelow(tables, n + 1, k, bound);
    }
  }

  /** DB.Get: the memtable's version if it has one, otherwise the newest among the tables. */
  function GetVersion(tables: seq<seq<Entry>>, mem: seq<Entry>, k: Data): Option<Entry> {
    var m := Find(mem, k);
    if m.Some? then m else BestFrom(tables, 0, k)
  }

  /** A scan: the newest versions of memtable and tables in key order, deleted keys left out. */
  function ScanOf(tables: seq<seq<Entry>>, mem: seq<Entry>): seq<Entry> {
    Merged([mem] + tables, true)
  }

  lemma {:induction false} BestTop(tables: seq<seq<Entry>>, n: nat, k: Data)
    requires AllSorted(tables) && n <= |tables|
    ensures Top(BestFrom(tables, n, k), k, Held(tables[n..]))
    decreases |tables| - n
  {
    if n < |tables| {
      BestTop(tables, n + 1, k);
      HeldCons(tables, n);
      FindTop(tables[n], k);
    }
  }

  lemma HeldCons(tables: seq<seq<Entry>>, n: nat)
    requires n < |tables|
    ensures Held(tables[n..]) == Elems(tables[n]) + Held(tables[n + 1..])
  {
    assert tables[n..] == [tables[n]] + tables[n + 1..];
  }

  lemma HeldAppend(tables: seq<seq<Entry>>, t: seq<Entry>)
    ensures Held(tables + [t]) == Held(tables) + Elems(t)
  {
    forall e | e in Held(tables) + Elems(t)
      ensures e in Held(tables + [t])
    {
      if e in t {
        assert t in tables + [t];
      } else {
        var u :| u in tables && e in u;
        assert u in tables + [t];
      }
    }
  }

  lemma FindTop(t: seq<Entry>, k: Data)
    requires Sorted(t)
    ensures Top(Find(t, k), k, Elems(t))
  {
    forall x | x in t && x.key == k
      ensures Find(t, k) == Some(x)
    {
      FindMember(t, x);
    }
  }

  lemma {:induction false} NewestTop(inputs: seq<seq<Entry>>, n: nat, k: Data)
    requires AllSorted(inputs) && n <= |inputs|
    ensures Top(NewestTo(inputs, n, k), k, Held(inputs[..n]))
  {
    if n != 0 {
      NewestTop(inputs, n - 1, k);
      assert inputs[..n] == inputs[..n - 1] + [inputs[n - 1]];
      HeldAppend(inputs[..n - 1], inputs[n - 1]);
      FindTop(inputs[n - 1], k);
    }
  }

  /** A scan shows the plain map of the history, key by key and in key order. */
  lemma ScanShowsMap(tables: seq<seq<Entry>>, l: seq<Entry>, r: seq<Entry>, k: Data)
    requires AllSorted(tables) && Represents(Held(tables), l, r)
    ensures var s := ScanOf(tables, Memtable(l));
            && Sorted(s) && Find(s, k) == Emit(Latest(r, k), true)
            && Shown(Find(s, k)) == Lookup(MapOf(r), k)
  {
    var inputs := [Memtable(l)] + tables;
    MemtableTop(l, k);
    MergedFinds(inputs, true, k);
    NewestTop(inputs, |inputs|, k);
    assert inputs[..|inputs|] == inputs;
    HeldCons(inputs, 0);
    assert inputs[0..] == inputs && inputs[1..] == tables;
    TopOfMemtable(Held(tables), l, k, NewestTo(inputs, |inputs|, k));
    Resolve(Held(tables), l, r, k, NewestTo(inputs, |inputs|, k));
    MapOfLatest(r, k);
  }

  /** The newest version among tables and memtable is the newest among tables and log. */
  lemma TopOfMemtable(held: set<Entry>, l: seq<Entry>, k: Data, v: Option<Entry>)
    requires Top(v, k, Elems(Memtable(l)) + held)
    ensures Top(v, k, held + Elems(l))
  {
    MemtableElems(l);
    MemtableTop(l, k);
    var m := Find(Memtable(l), k);
    forall x | x in held + Elems(l) && x.key == k
      ensures v.Some? && x.seqno <= v.value.seqno
    {
      if x !in held {
        assert m.value in Elems(Memtable(l));
      }
    }
  }

  /** No key of the log has a newer version in the tables: what Get's memtable-first rule needs. */
  ghost predicate Dominant(l: seq<Entry>, r: seq<Entry>) {
    forall k :: Find(Memtable(l), k).Some? ==> Find(Memtable(l), k) == Latest(r, k)
  }

  ghost predicate GetsLatest(tables: seq<seq<Entry>>, mem: seq<Entry>, r: seq<Entry>) {
    forall k :: GetVersion(tables, mem, k) == Latest(r, k)
  }

  lemma GetWithoutMemtable(tables: seq<seq<Entry>>, l: seq<Entry>, r: seq<Entry>, k: Data)
    requires AllSorted(tables) && Represents(Held(tables), l, r)
    ensures Find(Memtable(l), k).None? ==> BestFrom(tables, 0, k) == Latest(r, k)
  {
    if Find(Memtable(l), k).None? {
      MemtableTop(l, k);
      BestTop(tables, 0, k);
      assert tables[0..] == tables;
      Resolve(Held(tables), l, r, k, BestFrom(tables, 0, k));
    }
  }

  /** Point reads see the last record of every key exactly when the memtable dominates. */
  lemma GetSeesLatest(tables: seq<seq<Entry>>, l: seq<Entry>, r: seq<Entry>)
    requires AllSorted(tables) && Represents(Held(tables), l, r)
    ensures GetsLatest(tables, Memtable(l), r) <==> Dominant(l, r)
  {
    if Dominant(l, r) {
      forall k
        ensures GetVersion(tables, Memtable(l), k) == Latest(r, k)
      {
        GetWithoutMemtable(tables, l, r, k);
        assert Find(Memtable(l), k).Some? ==> Find(Memtable(l), k) == Latest(r, k);
      }
    }
    if GetsLatest(tables, Memtable(l), r) {
      forall k | Find(Memtable(l), k).Some?
        ensures Find(Memtable(l), k) == Latest(r, k)
      {
        assert GetVersion(tables, Memtable(l), k) == Latest(r, k);
      }
    }
  }

  // ---------- dominance ----------

  lemma DominantAppend(l: seq<Entry>, r: seq<Entry>, e: Entry)
    requires Dominant(l, r) && forall x :: x in l ==> x.seqno < e.seqno
    ensures Dominant(l + [e], r + [e])
  {
    MemtableAppend(l, e);
    assert (r + [e])[..|r|] == r;
    forall k | Find(Memtable(l + [e]), k).Some?
      ensures Find(Memtable(l + [e]), k) == Latest(r + [e], k)
    {
      MemtableTop(l, k);
      FindUpsert(Memtable(l), e, k);
    }
  }

  /** A shorter log still dominates when the records cut off write none of its keys. */
  lemma DominantPrefix(l: seq<Entry>, m: seq<Entry>, r: seq<Entry>)
    requires Dominant(l + m, r) && Increasing(l + m)
    requires forall x, y :: x in l && y in m ==> x.key != y.key
    ensures Dominant(l, r)
  {
    forall k | Find(Memtable(l), k).Some?
      ensures Find(Memtable(l), k) == Latest(r, k)
    {
      MemtableTop(l, k);
      MemtableTop(l + m, k);
      var v, w := Find(Memtable(l), k), Find(Memtable(l + m), k);
      assert v.value in Elems(l + m);
      assert w.value in Elems(l);
      SameNumber(v.value, w.value, l + m);
    }
  }

  /** And it does not when one of them does. */
  lemma NotDominantPrefix(l: seq<Entry>, m: seq<Entry>, r: seq<Entry>, x: Entry, y: Entry)
    requires Increasing(l + m) && Increasing(r) && Elems(l + m) <= Elems(r)
    requires x in l && y in m && x.key == y.key
    ensures !Dominant(l, r)
  {
    MemtableTop(l, x.key);
    LatestTop(r, x.key);
    var v := Find(Memtable(l), x.key).value;
    assert x in Elems(l) && v in Elems(l);
    var i :| 0 <= i < |l| && l[i] == v;
    var j :| 0 <= j < |m| && m[j] == y;
    assert (l + m)[i] == v && (l + m)[|l| + j] == y;
    assert y in Elems(l + m);
  }
}
