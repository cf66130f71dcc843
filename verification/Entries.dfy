/**
 Versioned entries and strictly key-sorted lists of them: what a memtable holds and
 what an SSTable stores.
 */
module Entries {
  import opened Bytes

  /** A key, its value, the sequence number of the write, and the tombstone flag. */
  datatype Entry = Entry(key: Data, value: Data, seqno: nat, deleted: bool)

  predicate Sorted(s: seq<Entry>) {
    forall i, j :: 0 <= i < j < |s| ==> Less(s[i].key, s[j].key)
  }

  function Find(s: seq<Entry>, k: Data): (r: Option<Entry>)
    ensures r.Some? ==> r.value in s && r.value.key == k
    ensures r.None? ==> forall e :: e in s ==> e.key != k
  {
    if s == [] then None
    else if s[0].key == k then Some(s[0])
    else Find(s[1..], k)
  }

  lemma FindMember(s: seq<Entry>, e: Entry)
    requires Sorted(s) && e in s
    ensures Find(s, e.key) == Some(e)
  {
    var r := Find(s, e.key);
    var i :| 0 <= i < |s| && s[i] == e;
    var j :| 0 <= j < |s| && s[j] == r.value;
    LessIrreflexive(e.key);
  }

  lemma FindUnique(s: seq<Entry>, k: Data, r: Option<Entry>)
    requires Sorted(s)
    requires r.Some? ==> r.value in s && r.value.key == k
    requires r.None? ==> forall e :: e in s ==> e.key != k
    ensures Find(s, k) == r
  {
    if r.Some? {
      FindMember(s, r.value);
    }
  }

  /** Two sorted lists that answer every lookup alike are the same list. */
  lemma {:induction false} SortedExtensional(a: seq<Entry>, b: seq<Entry>)
    requires Sorted(a) && Sorted(b)
    requires forall k :: Find(a, k) == Find(b, k)
    ensures a == b
  {
    assert a != [] ==> Find(a, a[0].key) == Some(a[0]);
    assert b != [] ==> Find(b, b[0].key) == Some(b[0]);
    if a != [] && b != [] {
      HeadLeast(a, b);
      HeadLeast(b, a);
      LessTrichotomy(a[0].key, b[0].key);
      forall k
        ensures Find(a[1..], k) == Find(b[1..], k)
      {
        assert Find(a, k) == Find(b, k);
        if k == a[0].key {
          HeadAbsent(a);
          HeadAbsent(b);
        }
      }
      SortedExtensional(a[1..], b[1..]);
      assert a == [a[0]] + a[1..] && b == [b[0]] + b[1..];
    }
  }

  lemma HeadLeast(a: seq<Entry>, b: seq<Entry>)
    requires Sorted(a) && Sorted(b) && a != [] && b != []
    requires Find(a, b[0].key).Some?
    ensures a[0].key == b[0].key || Less(a[0].key, b[0].key)
  {
    var e := Find(a, b[0].key).value;
    var i :| 0 <= i < |a| && a[i] == e;
  }

  lemma HeadAbsent(s: seq<Entry>)
    requires Sorted(s) && s != []
    ensures Find(s[1..], s[0].key) == None
  {
    LessIrreflexive(s[0].key);
    assert forall i :: 1 <= i < |s| ==> Less(s[0].key, s[i].key);
  }

  // ---------- positions ----------

  /** Index of the first entry whose key is at least `k`. */
  function LowerBound(s: seq<Entry>, k: Data): (n: nat)
    ensures n <= |s|
    ensures forall i :: 0 <= i < n ==> Less(s[i].key, k)
    ensures n < |s| ==> !Less(s[n].key, k)
  {
    LowerBoundFrom(s, k, 0)
  }

  function LowerBoundFrom(s: seq<Entry>, k: Data, i: nat): (n: nat)
    requires i <= |s|
    ensures i <= n <= |s|
    ensures forall j :: i <= j < n ==> Less(s[j].key, k)
    ensures n < |s| ==> !Less(s[n].key, k)
    decreases |s| - i
  {
    if i == |s| || !Less(s[i].key, k) then i else LowerBoundFrom(s, k, i + 1)
  }

  lemma LowerBoundUnique(s: seq<Entry>, k: Data, n: nat)
    requires n <= |s|
    requires forall i :: 0 <= i < n ==> Less(s[i].key, k)
    requires n < |s| ==> !Less(s[n].key, k)
    ensures n == LowerBound(s, k)
  {
  }

  /** From the lower bound on, no key is below `k`. */
  lemma AfterLowerBound(s: seq<Entry>, k: Data, i: nat)
    requires Sorted(s) && LowerBound(s, k) <= i < |s|
    ensures !Less(s[i].key, k)
    ensures i > LowerBound(s, k) ==> Less(k, s[i].key)
  {
    var first := s[LowerBound(s, k)].key;
    LessTrichotomy(first, k);
    LessTrichotomy(k, s[i].key);
    if i > LowerBound(s, k) && first != k {
      LessTransitive(k, first, s[i].key);
    }
  }

  lemma BelowLowerBound(s: seq<Entry>, k: Data, i: nat)
    requires Sorted(s) && i < |s| && Less(s[i].key, k)
    ensures i < LowerBound(s, k)
  {
    if i >= LowerBound(s, k) {
      AfterLowerBound(s, k, i);
    }
  }

  lemma UpToLowerBound(s: seq<Entry>, k: Data, i: nat)
    requires Sorted(s) && i < |s| && !Less(k, s[i].key)
    ensures i <= LowerBound(s, k)
  {
    if i > LowerBound(s, k) {
      AfterLowerBound(s, k, i);
    }
  }

  /** The lower bound inside a slice that contains it. */
  lemma LowerBoundSlice(s: seq<Entry>, a: nat, c: nat, k: Data)
    requires Sorted(s) && a <= LowerBound(s, k) <= c <= |s|
    ensures Sorted(s[a..c]) && LowerBound(s[a..c], k) == LowerBound(s, k) - a
  {
    LowerBoundUnique(s[a..c], k, LowerBound(s, k) - a);
  }

  lemma FindByPosition(s: seq<Entry>, k: Data)
    requires Sorted(s)
    ensures var n := LowerBound(s, k);
            Find(s, k) == if n < |s| && s[n].key == k then Some(s[n]) else None
  {
    var n := LowerBound(s, k);
    if n < |s| && s[n].key == k {
      FindMember(s, s[n]);
    } else {
      forall i | 0 <= i < |s|
        ensures s[i].key != k
      {
        LessIrreflexive(k);
        if i >= n {
          AfterLowerBound(s, k, i);
        }
      }
      FindUnique(s, k, None);
    }
  }

  // ---------- newest version wins ----------

  /** A write into a sorted list: it replaces a version whose number is not larger. */
  function Upsert(s: seq<Entry>, e: Entry): seq<Entry> {
    var n := LowerBound(s, e.key);
    if n < |s| && s[n].key == e.key then
      if e.seqno >= s[n].seqno then s[n := e] else s
    else s[..n] + [e] + s[n..]
  }

  lemma UpsertSorted(s: seq<Entry>, e: Entry)
    requires Sorted(s)
    ensures Sorted(Upsert(s, e))
  {
    var n := LowerBound(s, e.key);
    forall i | n <= i < |s|
      ensures (s[i].key == e.key && i == n) || Less(e.key, s[i].key)
    {
      AfterLowerBound(s, e.key, i);
      LessTrichotomy(s[i].key, e.key);
    }
  }

  lemma UpsertMembers(s: seq<Entry>, e: Entry)
    ensures forall x :: x in Upsert(s, e) ==> x == e || x in s
    ensures forall x :: x in s && x.key != e.key ==> x in Upsert(s, e)
  {
    var n := LowerBound(s, e.key);
    if n < |s| && s[n].key == e.key && e.seqno >= s[n].seqno {
      var t := Upsert(s, e);
      forall x | x in s && x.key != e.key
        ensures x in t
      {
        var i :| 0 <= i < |s| && s[i] == x;
        assert t[i] == x;
      }
    } else if n == |s| || s[n].key != e.key {
      assert s == s[..n] + s[n..];
    }
  }

  lemma FindUpsert(s: seq<Entry>, e: Entry, k: Data)
    requires Sorted(s)
    ensures Find(Upsert(s, e), k) ==
            if k != e.key then Find(s, k)
            else if Find(s, k).Some? && Find(s, k).value.seqno > e.seqno then Find(s, k)
            else Some(e)
  {
    UpsertSorted(s, e);
    UpsertMembers(s, e);
    FindByPosition(s, e.key);
    var t := Upsert(s, e);
    if k != e.key {
      FindUnique(t, k, Find(s, k));
    } else if !(Find(s, k).Some? && Find(s, k).value.seqno > e.seqno) {
      var n := LowerBound(s, e.key);
      assert t[n] == e;
      FindMember(t, e);
    }
  }

  /** `b` when it is strictly newer, otherwise `a`: the choice of DB.Get and of the merge. */
  function Newer(a: Option<Entry>, b: Option<Entry>): Option<Entry> {
    if b.Some? && (a.None? || b.value.seqno > a.value.seqno) then b else a
  }

  /** The union of two sorted lists, newest version wins, `a` on a tie. */
  function MergeTwo(a: seq<Entry>, b: seq<Entry>): seq<Entry> {
    if a == [] then b
    else if b == [] then a
    else if Less(a[0].key, b[0].key) then [a[0]] + MergeTwo(a[1..], b)
    else if Less(b[0].key, a[0].key) then [b[0]] + MergeTwo(a, b[1..])
    else [Newer(Some(a[0]), Some(b[0])).value] + MergeTwo(a[1..], b[1..])
  }

  lemma {:induction false} MergeTwoMembers(a: seq<Entry>, b: seq<Entry>)
    ensures forall e :: e in MergeTwo(a, b) ==> e in a || e in b
  {
    if a != [] && b != [] {
      if Less(a[0].key, b[0].key) {
        MergeTwoMembers(a[1..], b);
      } else if Less(b[0].key, a[0].key) {
        MergeTwoMembers(a, b[1..]);
      } else {
        MergeTwoMembers(a[1..], b[1..]);
      }
    }
  }

  predicate AllAbove(k: Data, s: seq<Entry>) {
    forall e :: e in s ==> Less(k, e.key)
  }

  lemma TailAbove(k: Data, s: seq<Entry>)
    requires Sorted(s) && s != [] && (k == s[0].key || Less(k, s[0].key))
    ensures AllAbove(k, s[1..])
    ensures Less(k, s[0].key) ==> AllAbove(k, s)
  {
    forall i | 1 <= i < |s|
      ensures Less(k, s[i].key)
    {
      if k != s[0].key {
        LessTransitive(k, s[0].key, s[i].key);
      }
    }
  }

  lemma ConsSorted(e: Entry, s: seq<Entry>)
    requires Sorted(s) && AllAbove(e.key, s)
    ensures Sorted([e] + s)
  {
  }

  lemma {:induction false} MergeTwoSorted(a: seq<Entry>, b: seq<Entry>)
    requires Sorted(a) && Sorted(b)
    ensures Sorted(MergeTwo(a, b))
  {
    if a != [] && b != [] {
      LessTrichotomy(a[0].key, b[0].key);
      var e, x, y;
      if Less(a[0].key, b[0].key) {
        e, x, y := a[0], a[1..], b;
      } else if Less(b[0].key, a[0].key) {
        e, x, y := b[0], a, b[1..];
      } else {
        e, x, y := Newer(Some(a[0]), Some(b[0])).value, a[1..], b[1..];
      }
      TailAbove(e.key, a);
      TailAbove(e.key, b);
      MergeTwoSorted(x, y);
      MergeTwoMembers(x, y);
      ConsSorted(e, MergeTwo(x, y));
    }
  }

  lemma {:induction false} FindMergeTwo(a: seq<Entry>, b: seq<Entry>, k: Data)
    requires Sorted(a) && Sorted(b)
    ensures Find(MergeTwo(a, b), k) == Newer(Find(a, k), Find(b, k))
  {
    if a != [] && b != [] {
      LessTrichotomy(a[0].key, b[0].key);
      LessIrreflexive(k);
      if Less(a[0].key, b[0].key) {
        TailAbove(a[0].key, b);
        FindMergeTwo(a[1..], b, k);
      } else if Less(b[0].key, a[0].key) {
        TailAbove(b[0].key, a);
        FindMergeTwo(a, b[1..], k);
      } else {
        FindMergeTwo(a[1..], b[1..], k);
      }
    }
  }

  function Max(a: nat, b: nat): nat {
    if a < b then b else a
  }

  function MaxSeqno(s: seq<Entry>): nat {
    if s == [] then 0 else Max(s[0].seqno, MaxSeqno(s[1..]))
  }

  lemma MaxSeqnoBound(s: seq<Entry>, e: Entry)
    requires e in s
    ensures e.seqno <= MaxSeqno(s)
  {
  }

  /** The largest number is that of some entry, or zero for no entries. */
  lemma {:induction false} MaxSeqnoMet(s: seq<Entry>)
    ensures if s == [] then MaxSeqno(s) == 0 else exists e :: e in s && e.seqno == MaxSeqno(s)
  {
    if s != [] {
      MaxSeqnoMet(s[1..]);
      if MaxSeqno(s) == s[0].seqno {
        assert s[0] in s;
      } else {
        var e :| e in s[1..] && e.seqno == MaxSeqno(s[1..]);
        assert e in s;
      }
    }
  }

  lemma {:induction false} MaxSeqnoAppend(s: seq<Entry>, e: Entry)
    ensures MaxSeqno(s + [e]) == Max(MaxSeqno(s), e.seqno)
  {
    if s != [] {
      MaxSeqnoAppend(s[1..], e);
      assert (s + [e])[1..] == s[1..] + [e];
    }
  }
}
