/**
 Scans (`lsmkv/iter.go`): the merged view of memtable and tables, and the iterator over it.
 */
module Scan {
  import opened Bytes
  import opened Entries
  import opened History
  import Merge

  /** The version a candidate map holds of a key. */
  function Candidate(m: map<Data, Entry>, k: Data): Option<Entry> {
    if k in m then Some(m[k]) else None
  }

  ghost predicate Keyed(m: map<Data, Entry>) {
    forall k :: k in m ==> m[k].key == k
  }

  /** Offers every entry of a list to the map; a version as new as the offered one stays. */
  method Absorb(m0: map<Data, Entry>, t: seq<Entry>) returns (m: map<Data, Entry>)
    requires Sorted(t) && Keyed(m0)
    ensures Keyed(m) && forall k :: Candidate(m, k) == Newer(Candidate(m0, k), Find(t, k))
  {
    m := m0;
    var i := 0;
    while i < |t|
      invariant 0 <= i <= |t| && Keyed(m)
      invariant forall k :: Candidate(m, k) == Newer(Candidate(m0, k), Find(t[..i], k))
    {
      var e := t[i];
      forall k
        ensures Find(t[..i + 1], k) == if k == e.key then Some(e) else Find(t[..i], k)
        ensures k == e.key ==> Find(t[..i], k) == None
      {
        Prefix(t, i, k);
      }
      if e.key !in m || m[e.key].seqno < e.seqno {
        m := m[e.key := e];
      }
      i := i + 1;
    }
    assert t[..i] == t;
  }

  lemma Prefix(t: seq<Entry>, i: nat, k: Data)
    requires Sorted(t) && i < |t|
    ensures Find(t[..i + 1], k) == if k == t[i].key then Some(t[i]) else Find(t[..i], k)
    ensures k == t[i].key ==> Find(t[..i], k) == None
  {
    assert t[..i + 1] == t[..i] + [t[i]];
    Merge.FindAppend(t[..i], t[i], k);
    LessIrreflexive(t[i].key);
  }

  /** The live candidates in key order; the source sorts the keys with the library's sort. */
  method InOrder(m: map<Data, Entry>) returns (out: seq<Entry>)
    requires Keyed(m)
    ensures Sorted(out) && forall k :: Find(out, k) == Merge.Emit(Candidate(m, k), true)
  {
    out := [];
    var rest := m.Keys;
    while rest != {}
      invariant rest <= m.Keys && Sorted(out)
      invariant forall k :: Find(out, k) == if k in rest then None else Merge.Emit(Candidate(m, k), true)
    {
      var key :| key in rest;
      var e := m[key];
      if !e.deleted {
        UpsertSorted(out, e);
        forall k
          ensures Find(Upsert(out, e), k) == if k == key then Some(e) else Find(out, k)
        {
          FindUpsert(out, e, k);
        }
        out := Upsert(out, e);
      }
      rest := rest - {key};
    }
  }

  /** collectMerged: memtable first, then the tables, oldest first. */
  method CollectMerged(snapshot: seq<Entry>, tables: seq<seq<Entry>>) returns (out: seq<Entry>)
    requires Sorted(snapshot) && Merge.AllSorted(tables)
    ensures out == ScanOf(tables, snapshot)
  {
    ghost var inputs := [snapshot] + tables;
    var m := Absorb(map[], snapshot);
    assert Merge.NewestTo(inputs, 0, []) == None;
    var i := 0;
    while i < |tables|
      invariant 0 <= i <= |tables| && Keyed(m)
      invariant forall k :: Candidate(m, k) == Merge.NewestTo(inputs, i + 1, k)
    {
      assert inputs[i + 1] == tables[i];
      m := Absorb(m, tables[i]);
      i := i + 1;
    }
    out := InOrder(m);
    Merge.MergedFinds(inputs, true, []);
    forall k
      ensures Find(out, k) == Find(ScanOf(tables, snapshot), k)
    {
      Merge.MergedFinds(inputs, true, k);
    }
    SortedExtensional(out, ScanOf(tables, snapshot));
  }

  /** Over a fixed list of items; -1 is nowhere. */
  class Iterator {
    const items: seq<Entry>
    var idx: int

    ghost predicate Placed()
      reads this
    {
      -1 <= idx < |items|
    }

    predicate Valid()
      reads this
    {
      0 <= idx < |items|
    }

    constructor (items: seq<Entry>)
      ensures this.items == items && Placed() && !Valid()
    {
      this.items := items;
      idx := -1;
    }

    method SeekToFirst()
      modifies this
      ensures Placed() && if items == [] then !Valid() else idx == 0
    {
      if |items| == 0 {
        idx := -1;
        return;
      }
      idx := 0;
    }

    /** Lands on the first item at or after the target, or nowhere. */
    method Seek(target: Data)
      requires Sorted(items)
      modifies this
      ensures Placed() && (Valid() <==> exists i :: 0 <= i < |items| && !Less(items[i].key, target))
      ensures Valid() ==> idx == LowerBound(items, target)
    {
      var lo, hi := 0, |items|;
      while lo < hi
        invariant 0 <= lo <= hi <= |items|
        invariant lo > 0 ==> Less(items[lo - 1].key, target)
        invariant hi < |items| ==> !Less(items[hi].key, target)
      {
        var mid := (lo + hi) / 2;
        if Less(items[mid].key, target) {
          lo := mid + 1;
        } else {
          hi := mid;
        }
      }
      forall i | 0 <= i < lo
        ensures Less(items[i].key, target)
      {
        if i < lo - 1 {
          LessTransitive(items[i].key, items[lo - 1].key, target);
        }
      }
      LowerBoundUnique(items, target, lo);
      idx := lo;
      if idx >= |items| {
        idx := -1;
      }
    }

    /** Moves on by one; past the last item, and from nowhere, it is nowhere. */
    method Next()
      requires Placed()
      modifies this
      ensures Placed() && (Valid() <==> 0 <= old(idx) < |items| - 1)
      ensures Valid() ==> idx == old(idx) + 1
    {
      if idx < 0 {
        return;
      }
      idx := idx + 1;
      if idx >= |items| {
        idx := -1;
      }
    }

    method Key() returns (k: Option<Data>)
      ensures k == if Valid() then Some(items[idx].key) else None
    {
      if !Valid() {
        return None;
      }
      return Some(items[idx].key);
    }

    method Value() returns (v: Option<Data>)
      ensures v == if Valid() then Some(items[idx].value) else None
    {
      if !Valid() {
        return None;
      }
      return Some(items[idx].value);
    }
  }
}
