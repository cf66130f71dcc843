/**
 Compaction as a choice of tables and a merge (`internal/compact/plan.go`,
 `lsmkv/compact.go`): which tables are merged, and what the merge leaves for readers.
 */
module Compaction {
  import opened Bytes
  import opened Entries
  import opened WalLog
  import opened History
  import opened Engine
  import opened Recovery
  import Merge
  import M = Manifest

  // ---------- the plan ----------

  function LevelZero(fs: seq<M.FileMeta>): seq<M.FileMeta> {
    if fs == [] then []
    else LevelZero(fs[..|fs| - 1]) + (if fs[|fs| - 1].level == 0 then [fs[|fs| - 1]] else [])
  }

  /** The inputs of CompactDir: all tables of level 0 if there are two, otherwise the first two tables. */
  function Pick(fs: seq<M.FileMeta>): seq<M.FileMeta> {
    if |LevelZero(fs)| >= 2 then LevelZero(fs) else if |fs| < 2 then [] else fs[..2]
  }

  /** PlanLevel0: the tables of level 0, none if there are fewer than the threshold. */
  method PlanLevel0(files: seq<M.FileMeta>, threshold: int) returns (out: seq<M.FileMeta>)
    ensures out == if |LevelZero(files)| < (if threshold <= 0 then 4 else threshold) then [] else LevelZero(files)
  {
    var least := threshold;
    if least <= 0 {
      least := 4;
    }
    out := [];
    var i := 0;
    while i < |files|
      invariant 0 <= i <= |files| && out == LevelZero(files[..i])
    {
      assert files[..i + 1][..i] == files[..i];
      if files[i].level == 0 {
        out := out + [files[i]];
      }
      i := i + 1;
    }
    assert files[..i] == files;
    if |out| < least {
      out := [];
    }
  }

  /** CompactDir's choice of inputs; none is its ErrNoInputs. */
  method PlanInputs(files: seq<M.FileMeta>) returns (inputs: seq<M.FileMeta>)
    ensures inputs == Pick(files)
    ensures |files| < 2 ==> inputs == []
    ensures |files| >= 2 && |ZeroPlaces(files)| < 2 ==> inputs == [files[0], files[1]]
    ensures |files| >= 2 && |ZeroPlaces(files)| >= 2 ==>
      |inputs| == |ZeroPlaces(files)| && forall f :: f in inputs <==> f in files && f.level == 0
  {
    LevelZeroMembers(files);
    LevelZeroCounts(files);
    inputs := PlanLevel0(files, 2);
    if |inputs| == 0 {
      if |files| < 2 {
        return [];
      }
      inputs := [files[0], files[1]];
    }
  }

  lemma {:induction false} LevelZeroMembers(fs: seq<M.FileMeta>)
    ensures forall f :: f in LevelZero(fs) <==> f in fs && f.level == 0
  {
    if fs != [] {
      var n := |fs| - 1;
      LevelZeroMembers(fs[..n]);
      assert fs == fs[..n] + [fs[n]];
    }
  }

  lemma {:induction false} OnlyLevelZero(fs: seq<M.FileMeta>, names: set<Data>)
    requires forall f :: f in fs ==> (f.name in names <==> f.level == 0)
    ensures Only(fs, names) == LevelZero(fs)
  {
    if fs != [] {
      OnlyLevelZero(fs[..|fs| - 1], names);
    }
  }

  lemma {:induction false} OnlyFirstTwo(fs: seq<M.FileMeta>, n: nat)
    requires 2 <= n <= |fs| && Distinct(fs)
    ensures Only(fs[..n], NamesOf(fs[..2])) == fs[..2]
  {
    var names := NamesOf(fs[..2]);
    assert fs[..2] == [fs[0], fs[1]];
    if n == 2 {
      assert fs[..2][..1] == [fs[0]];
      assert fs[..1][..0] == [];
      assert fs[0] in fs[..2] && fs[1] in fs[..2];
      OnlyPair(fs[0], fs[1], names);
    } else {
      OnlyFirstTwo(fs, n - 1);
      assert fs[..n][..n - 1] == fs[..n - 1];
      assert fs[n - 1].name !in names;
    }
  }

  lemma OnlyPair(f: M.FileMeta, g: M.FileMeta, names: set<Data>)
    requires f.name in names && g.name in names
    ensures Only([f, g], names) == [f, g]
  {
    assert [f, g][..1] == [f] && [f][..0] == [];
    assert Only([f], names) == [f];
  }

  lemma SameName(fs: seq<M.FileMeta>, f: M.FileMeta, g: M.FileMeta)
    requires Distinct(fs) && f in fs && g in fs && f.name == g.name
    ensures f == g
  {
    var i :| 0 <= i < |fs| && fs[i] == f;
    var j :| 0 <= j < |fs| && fs[j] == g;
  }

  /** The places in a table list that hold a table of level 0. */
  ghost function ZeroPlaces(fs: seq<M.FileMeta>): set<nat> {
    set i: nat | i < |fs| && fs[i].level == 0
  }

  lemma {:induction false} LevelZeroCounts(fs: seq<M.FileMeta>)
    ensures |LevelZero(fs)| == |ZeroPlaces(fs)|
  {
    if fs != [] {
      var n := |fs| - 1;
      LevelZeroCounts(fs[..n]);
      assert ZeroPlaces(fs) == ZeroPlaces(fs[..n]) + (if fs[n].level == 0 then {n} else {});
    }
  }

  /**
   With two or more tables of level 0 the plan picks exactly those, each of them and no
   other; with fewer it picks the first two tables.
   */
  lemma PickExactly(fs: seq<M.FileMeta>)
    requires |fs| >= 2
    ensures |ZeroPlaces(fs)| >= 2 ==>
      |Pick(fs)| == |ZeroPlaces(fs)| && forall f :: f in Pick(fs) <==> f in fs && f.level == 0
    ensures |ZeroPlaces(fs)| < 2 ==> Pick(fs) == [fs[0], fs[1]]
  {
    LevelZeroMembers(fs);
    LevelZeroCounts(fs);
  }

  /** What is left of the tables when the picked ones give way to one of level 1. */
  lemma PickLeaves(fs: seq<M.FileMeta>, meta: M.FileMeta)
    requires |fs| >= 2 && Distinct(fs) && meta.level == 1
    ensures var left, n := M.Without(fs, NamesOf(Pick(fs))) + [meta], |ZeroPlaces(fs)|;
            if n >= 2 then |left| == |fs| - n + 1 && ZeroPlaces(left) == {}
            else |left| == |fs| - 1
  {
    PickExactly(fs);
    PickShrinks(fs, meta);
    WithoutOnly(fs, NamesOf(Pick(fs)));
    var left := M.Without(fs, NamesOf(Pick(fs))) + [meta];
    if |ZeroPlaces(fs)| >= 2 {
      forall i: nat | i < |left|
        ensures left[i].level != 0
      {
        if i < |left| - 1 {
          assert left[i] in M.Without(fs, NamesOf(Pick(fs)));
          KeptUnnamed(fs, NamesOf(Pick(fs)), left[i]);
          assert left[i] !in Pick(fs);
        }
      }
    }
  }

  lemma {:induction false} WithoutOnly(fs: seq<M.FileMeta>, names: set<Data>)
    ensures |M.Without(fs, names)| + |Only(fs, names)| == |fs|
  {
    if fs != [] {
      WithoutOnly(fs[..|fs| - 1], names);
    }
  }

  lemma {:induction false} KeptUnnamed(fs: seq<M.FileMeta>, names: set<Data>, f: M.FileMeta)
    ensures f in M.Without(fs, names) <==> f in fs && f.name !in names
  {
    if fs != [] {
      var n := |fs| - 1;
      KeptUnnamed(fs[..n], names, f);
      assert fs == fs[..n] + [fs[n]];
    }
  }

  /**
   The plan picks at least two tables or none, none exactly when there are fewer than two;
   putting one table in the place of the picked ones leaves fewer tables.
   */
  lemma PickShrinks(fs: seq<M.FileMeta>, meta: M.FileMeta)
    requires Distinct(fs)
    ensures Only(fs, NamesOf(Pick(fs))) == Pick(fs) && NamesOf(Pick(fs)) <= NamesOf(fs)
    ensures if |fs| < 2 then Pick(fs) == [] else |Pick(fs)| >= 2 && NamesOf(Pick(fs)) != {}
    ensures |fs| >= 2 ==> |M.Without(fs, NamesOf(Pick(fs))) + [meta]| < |fs|
  {
    LevelZeroMembers(fs);
    var names := NamesOf(Pick(fs));
    if |LevelZero(fs)| >= 2 {
      forall f | f in fs
        ensures f.name in names <==> f.level == 0
      {
        if g :| g in LevelZero(fs) && g.name == f.name {
          SameName(fs, f, g);
        }
      }
      OnlyLevelZero(fs, names);
      LevelZeroCount(fs);
      assert LevelZero(fs)[0].name in names;
    } else if |fs| >= 2 {
      OnlyFirstTwo(fs, |fs|);
      assert fs[..|fs|] == fs && fs[..2][0].name in names;
    } else {
      assert NamesOf([]) == {};
      OnlyNone(fs);
    }
    OnlyMembers(fs, names);
  }

  lemma {:induction false} LevelZeroCount(fs: seq<M.FileMeta>)
    ensures |LevelZero(fs)| <= |fs|
  {
    if fs != [] {
      LevelZeroCount(fs[..|fs| - 1]);
    }
  }

  lemma {:induction false} OnlyNone(fs: seq<M.FileMeta>)
    ensures Only(fs, {}) == []
  {
    if fs != [] {
      OnlyNone(fs[..|fs| - 1]);
    }
  }

  // ---------- reads across a compaction ----------

  /**
   Publishing the merge of any tables changes no point read, whatever the memtable: Get
   goes by sequence number, so it does not matter that the merged table comes last.
   */
  lemma CompactionKeepsGet(s: Store, meta: M.FileMeta, mem: seq<Entry>, k: Data)
    requires Inv(s) && Enabled(s, PublishMerge(meta))
    ensures GetVersion(Tables(Step(s, PublishMerge(meta)).disk), mem, k) == GetVersion(Tables(s.disk), mem, k)
  {
    hide Represents, Held, AllRecords, Named, M.Without, MergeOf;
    var d, s' := s.disk, Step(s, PublishMerge(meta));
    LiveSurvives(s);
    WithinHistory(Held(Tables(d)), AllRecords(d.frames), Past(s));
    MergeHolds(d, s.job.inputs, Past(s), s.job.n, meta);
    StepKeeps(s, PublishMerge(meta));
    TablesSorted(d.manifest.files, d.files, Bound(s));
    TablesSorted(s'.disk.manifest.files, s'.disk.files, Bound(s'));
    SameBest(Tables(d), Tables(s'.disk), Past(s), k);
  }

  lemma SameBest(ts: seq<seq<Entry>>, ts': seq<seq<Entry>>, r: seq<Entry>, k: Data)
    requires Merge.AllSorted(ts) && Merge.AllSorted(ts') && Increasing(r) && Held(ts) <= Elems(r)
      && Held(ts') <= Held(ts)
    requires forall e :: e in Held(ts) && Top(Some(e), e.key, Held(ts)) ==> e in Held(ts')
    ensures BestFrom(ts', 0, k) == BestFrom(ts, 0, k)
  {
    BestTop(ts, 0, k);
    BestTop(ts', 0, k);
    assert ts[0..] == ts && ts'[0..] == ts';
    TopUnique(BestFrom(ts, 0, k), BestFrom(ts', 0, k), k, Held(ts'), r);
  }

  // ---------- dropping tombstones ----------

  /** The newest input version of `k` is a deletion that hides an older value of the other tables. */
  ghost predicate Unmasks(inputs: seq<seq<Entry>>, rest: seq<seq<Entry>>, k: Data) {
    var t, v := Merge.NewestTo(inputs, |inputs|, k), BestFrom(rest, 0, k);
    t.Some? && t.value.deleted && v.Some? && !v.value.deleted && v.value.seqno < t.value.seqno
  }

  /** What Get shows when the memtable does not hold the key and `out` has replaced the inputs. */
  function ShownWith(rest: seq<seq<Entry>>, out: seq<Entry>, k: Data): Option<Data> {
    Shown(BestFrom(rest + [out], 0, k))
  }

  lemma BestWithLast(rest: seq<seq<Entry>>, out: seq<Entry>, k: Data, r: seq<Entry>)
    requires Merge.AllSorted(rest) && Sorted(out) && Increasing(r) && Held(rest) + Elems(out) <= Elems(r)
    ensures Merge.AllSorted(rest + [out]) && BestFrom(rest + [out], 0, k) == Newer(BestFrom(rest, 0, k), Find(out, k))
  {
    BestTop(rest + [out], 0, k);
    BestTop(rest, 0, k);
    FindTop(out, k);
    HeldAppend(rest, out);
    assert (rest + [out])[0..] == rest + [out] && rest[0..] == rest;
    TopUnique(BestFrom(rest + [out], 0, k), Newer(BestFrom(rest, 0, k), Find(out, k)), k, Held(rest) + Elems(out), r);
  }

  /**
   Merging with DropTombstones changes what Get shows of a key exactly when the merge drops
   a deletion of the key that hid an older value in the tables not merged.
   */
  lemma DropTombstones(inputs: seq<seq<Entry>>, rest: seq<seq<Entry>>, r: seq<Entry>, k: Data)
    requires Merge.AllSorted(inputs) && Merge.AllSorted(rest) && Increasing(r)
    requires Held(inputs) + Held(rest) <= Elems(r)
    ensures ShownWith(rest, Merge.Merged(inputs, true), k) == ShownWith(rest, Merge.Merged(inputs, false), k)
            <==> !Unmasks(inputs, rest, k)
  {
    var drop, keep := Merge.Merged(inputs, true), Merge.Merged(inputs, false);
    MergedWithin(inputs, true);
    MergedWithin(inputs, false);
    Merge.MergedFinds(inputs, true, k);
    Merge.MergedFinds(inputs, false, k);
    BestWithLast(rest, drop, k, r);
    BestWithLast(rest, keep, k, r);
    var t, v := Merge.NewestTo(inputs, |inputs|, k), BestFrom(rest, 0, k);
    if t.Some? && v.Some? && t.value.seqno == v.value.seqno {
      NewestTop(inputs, |inputs|, k);
      assert inputs[..|inputs|] == inputs;
      BestTop(rest, 0, k);
      assert rest[0..] == rest;
      SameNumber(t.value, v.value, r);
    }
  }

  lemma MergedWithin(inputs: seq<seq<Entry>>, drop: bool)
    requires Merge.AllSorted(inputs)
    ensures Elems(Merge.Merged(inputs, drop)) <= Held(inputs)
  {
    var out := Merge.Merged(inputs, drop);
    assert inputs[..|inputs|] == inputs;
    forall e | e in out
      ensures e in Held(inputs)
    {
      Merge.MergedFinds(inputs, drop, e.key);
      NewestTop(inputs, |inputs|, e.key);
      FindMember(out, e);
    }
  }
}
