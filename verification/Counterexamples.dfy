/**
 Things that are false, each with the run that shows it: a point read that goes back in time
 after a crash inside a flush, that every lost version is one that shows, and a deleted key
 that would come back if compaction dropped tombstones.
 */
module Counterexamples {
  import opened Bytes
  import opened Entries
  import opened Varint
  import opened Wal
  import opened WalLog
  import opened History
  import opened Engine
  import opened Recovery
  import opened Runs
  import opened Reads
  import opened Answers
  import opened Compaction
  import Merge
  import M = Manifest

  const K: Data := [107]

  function Version(v: Byte, seqno: nat): Entry {
    Entry(K, [v], seqno, false)
  }

  lemma SmallEncodable(e: Entry)
    requires e.seqno < 128 && |e.key| == 1 && |e.value| < 128 && (e.deleted ==> e.value == [])
    ensures Sound(Single(e))
  {
    assert |Encode(e.seqno)| == |Encode(|e.key|)| == |Encode(|e.value|)| == 1;
    assert Records(Single(e)) == [e];
  }

  lemma OneRecord(f: Frame, e: Entry)
    requires f == Single(e)
    ensures AllRecords([f]) == [e]
  {
    assert AllRecords([f]) == Records(f) + AllRecords([]);
  }

  // ---------- a stale point read ----------

  /** A store without tables whose log holds `n` writes of one key, the last of them of `v`. */
  ghost predicate Rewritten(s: Store, n: nat, v: Byte, synced: nat) {
    && s.disk.files == map[] && s.disk.manifest == M.State(M.VERSION, 1, 0, []) && s.disk.synced == synced
    && |s.disk.frames| == s.nextSeq == s.appends == n && s.history == s.disk.frames
    && Mem(s.disk) == (if n == 0 then [] else [Version(v, n)])
    && (n > 0 ==> Lookup(MapOf(Past(s)), K) == Some([v]))
  }

  lemma FreshRewritten(policy: SyncPolicy, v: Byte)
    ensures Rewritten(Fresh(policy), 0, v, 0)
  {
  }

  lemma AppendVersion(s: Store, n: nat, v0: Byte, synced: nat, v: Byte)
    requires Rewritten(s, n, v0, synced) && s.job.Idle? && n < 127
    ensures Enabled(s, Append(Single(Version(v, n + 1))))
    ensures var t := Step(s, Append(Single(Version(v, n + 1))));
            && Rewritten(t, n + 1, v, synced) && t.policy == s.policy
            && t.job == (if s.policy.Due(n + 1) then Syncing else Idle) && t.disk.frames[..n] == s.disk.frames
  {
    hide AllRecords, Memtable, MapOf, Sound;
    var e := Version(v, n + 1);
    var f := Single(e);
    SmallEncodable(e);
    assert Records(f) == [e];
    AllRecordsAppend(s.disk.frames, f);
    AllRecordsAppend(s.history, f);
    MemtableAppend(AllRecords(s.disk.frames), e);
    Overwrites(Mem(s.disk), e);
    LastShown(Past(s), e);
  }

  lemma Overwrites(mem: seq<Entry>, e: Entry)
    requires mem == [] || (|mem| == 1 && mem[0].key == e.key && mem[0].seqno < e.seqno)
    ensures Upsert(mem, e) == [e]
  {
    LessIrreflexive(e.key);
    assert LowerBound(mem, e.key) == 0;
  }

  lemma LastShown(r: seq<Entry>, e: Entry)
    requires !e.deleted
    ensures Lookup(MapOf(r + [e]), e.key) == Some(e.value)
  {
  }

  lemma SyncVersions(s: Store, n: nat, v: Byte, synced: nat)
    requires Rewritten(s, n, v, synced) && (s.job.Idle? || s.job.Syncing?)
    ensures Enabled(s, Sync)
    ensures var t := Step(s, Sync);
            Rewritten(t, n, v, n) && t.job.Idle? && t.policy == s.policy && t.disk.frames == s.disk.frames
  {
  }

  lemma RunThree(s0: Store, s1: Store, s2: Store, s3: Store, e1: Event, e2: Event, e3: Event)
    requires Enabled(s0, e1) && Step(s0, e1) == s1
    requires Enabled(s1, e2) && Step(s1, e2) == s2
    requires Enabled(s2, e3) && Step(s2, e3) == s3
    ensures Run(s0, [e1, e2, e3]) == Some(s3)
  {
    hide Enabled, Step;
    assert [e1, e2, e3] == [] + [e1] + [e2] + [e3];
    RunAppend(s0, [], e1);
    RunAppend(s0, [] + [e1], e2);
    RunAppend(s0, [] + [e1] + [e2], e3);
  }

  /** One or two puts of the same value, a sync, and a put of value `v` that is not synced. */
  lemma UnsyncedRewrite(policy: SyncPolicy, v: Byte) returns (evs: seq<Event>, s: Store, n: nat)
    requires !Full(policy)
    ensures Run(Fresh(policy), evs) == Some(s) && s.policy == policy && s.job.Idle?
    ensures n > 0 && Rewritten(s, n + 1, v, n) && Memtable(AllRecords(s.disk.frames[..n])) == [Version(1, n)]
    ensures forall i :: 0 <= i < |evs| ==> !evs[i].Crash?
  {
    hide Enabled, Step, Rewritten, Memtable, AllRecords;
    var s0, a := Fresh(policy), Append(Single(Version(1, 1)));
    var b, c := Append(Single(Version(1, 2))), Append(Single(Version(v, 2)));
    NeverFull(policy);
    FreshRewritten(policy, 1);
    AppendVersion(s0, 0, 1, 0, 1);
    var s1 := Step(s0, a);
    if policy.Due(2) {
      AppendVersion(s1, 1, 1, 0, 1);
      var s2 := Step(s1, b);
      SyncVersions(s2, 2, 1, 0);
      var s3 := Step(s2, Sync);
      RunThree(s0, s1, s2, s3, a, b, Sync);
      var d := Append(Single(Version(v, 3)));
      AppendVersion(s3, 2, 1, 2, v);
      RunAppend(s0, [a, b, Sync], d);
      evs, s, n := [a, b, Sync] + [d], Step(s3, d), 2;
      MemOf(s3, 2, 1, 2);
    } else {
      SyncVersions(s1, 1, 1, 0);
      var s2 := Step(s1, Sync);
      AppendVersion(s2, 1, 1, 1, v);
      RunThree(s0, s1, s2, Step(s2, c), a, Sync, c);
      evs, s, n := [a, Sync, c], Step(s2, c), 1;
      MemOf(s2, 1, 1, 1);
    }
  }

  lemma MemOf(s: Store, n: nat, v: Byte, synced: nat)
    requires Rewritten(s, n, v, synced) && n > 0
    ensures Memtable(AllRecords(s.disk.frames)) == [Version(v, n)]
  {
  }

  /** A policy that leaves some append unsynced leaves the first, and the second or the third. */
  lemma NeverFull(policy: SyncPolicy)
    requires !Full(policy)
    ensures !policy.Due(1) && (policy.Due(2) ==> !policy.Due(3))
  {
    if policy.everyN > 2 {
      assert 2 % policy.everyN == 2;
    }
  }

  /** A flush that gets as far as publishing its table. */
  lemma FlushInterrupted(s: Store, n: nat) returns (evs: seq<Event>, t: Store)
    requires s.job.Idle? && Rewritten(s, n + 1, 2, n)
    ensures Run(s, evs) == Some(t) && t.job.FlushPublished? && forall i :: 0 <= i < |evs| ==> !evs[i].Crash?
    ensures t.disk == Disk(map[M.FileName(1) := [Version(2, n + 1)]],
                           M.State(M.VERSION, 2, n + 1, [MetaFor(1, 0, [Version(2, n + 1)], 0)]), s.disk.frames, n)
    ensures t.history == s.history && t.policy == s.policy
  {
    hide M.FileName, AllRecords, Memtable, MapOf, M.Without, MaxSeqno;
    var b := Version(2, n + 1);
    var meta := MetaFor(1, 0, [b], 0);
    var s1 := s.(disk := s.disk.(manifest := M.State(M.VERSION, 2, 0, [])), job := FlushNamed(1));
    var s2 := s1.(disk := s1.disk.(files := map[M.FileName(1) := [b]]), job := FlushWritten(1));
    OnlyVersion(b);
    t := s2.(disk := s2.disk.(manifest := M.State(M.VERSION, 2, n + 1, [meta])), job := FlushPublished);
    assert Step(s, StartFlush) == s1;
    assert Step(s1, WriteFlush) == s2;
    assert Step(s2, PublishFlush(meta)) == t;
    RunThree(s, s1, s2, t, StartFlush, WriteFlush, PublishFlush(meta));
    evs := [StartFlush, WriteFlush, PublishFlush(meta)];
  }

  lemma OnlyVersion(e: Entry)
    ensures MaxSeqno([e]) == e.seqno && M.Without([], {}) == []
  {
    assert MaxSeqno([e]) == Max(e.seqno, MaxSeqno([]));
  }

  /**
   Under every policy that does not sync each append there is a run, a flush cut short by a
   crash that keeps exactly the synced frames, after which Get shows the old value of a key
   while a scan shows the new one.
   */
  lemma StaleRead(policy: SyncPolicy) returns (evs: seq<Event>, p: nat)
    requires !Full(policy)
    ensures Run(Fresh(policy), evs).Some? && forall i :: 0 <= i < |evs| ==> !evs[i].Crash?
    ensures var s := Run(Fresh(policy), evs).value;
            && p == s.disk.synced && Enabled(s, Crash(p, s.disk.files, policy))
            && var t := Step(s, Crash(p, s.disk.files, policy));
               Got(t, K) == Some([1]) && Scanned(t, K) == Some([2]) && Lookup(MapOf(Past(t)), K) == Some([2])
  {
    hide Run, Inv, Latest, MapOf, Memtable, AllRecords, ScanOf;
    var ev1, s, n := UnsyncedRewrite(policy, 2);
    var ev2, t := FlushInterrupted(s, n);
    RunConcat(Fresh(policy), ev1, ev2);
    evs, p := ev1 + ev2, n;
    assert t.disk.manifest.files[0].name == M.FileName(1);
    FreshInv(policy);
    RunKeeps(Fresh(policy), evs);
    var u := Step(t, Crash(n, t.disk.files, policy));
    StepKeeps(t, Crash(n, t.disk.files, policy));
    ScanRefinesMap(u, K);
    assert Find(Mem(u.disk), K) == Some(Version(1, n));
  }

  /** The run stays under one policy, also when the store is opened again. */
  ghost predicate Under(policy: SyncPolicy, evs: seq<Event>) {
    forall i :: 0 <= i < |evs| && evs[i].Crash? ==> evs[i].policy == policy
  }

  /**
   Point reads show the plain map in all runs under a policy exactly when it syncs every
   append; and exactly then they find the newest version in all runs.
   */
  lemma SafePolicies(policy: SyncPolicy)
    ensures (forall evs :: Under(policy, evs) && Run(Fresh(policy), evs).Some? ==>
               ShowsRight(Run(Fresh(policy), evs).value))
            <==> Full(policy)
    ensures (forall evs :: Under(policy, evs) && Run(Fresh(policy), evs).Some? ==>
               GetsRight(Run(Fresh(policy), evs).value))
            <==> Full(policy)
  {
    hide Run, GetsRight, ShowsRight, Full, Step, Enabled, Inv;
    FreshInv(policy);
    forall evs | Under(policy, evs) && Run(Fresh(policy), evs).Some?
      ensures GetsRight(Run(Fresh(policy), evs).value) ==> ShowsRight(Run(Fresh(policy), evs).value)
      ensures Full(policy) ==> GetsRight(Run(Fresh(policy), evs).value)
    {
      RunKeeps(Fresh(policy), evs);
      if GetsRight(Run(Fresh(policy), evs).value) {
        RightVersionsShow(Run(Fresh(policy), evs).value);
      }
      if Full(policy) {
        FreshDominated(policy);
        GetRefinesMap(Fresh(policy), evs, K);
      }
    }
    if !Full(policy) {
      var evs, p := StaleRead(policy);
      var s := Run(Fresh(policy), evs).value;
      var ev := Crash(p, s.disk.files, policy);
      RunAppend(Fresh(policy), evs, ev);
      WrongGet(Step(s, ev));
      assert Under(policy, evs + [ev]);
    }
  }

  lemma WrongGet(s: Store)
    requires Got(s, K) == Some([1]) && Lookup(MapOf(Past(s)), K) == Some([2])
    ensures !ShowsRight(s)
  {
  }

  /**
   The two questions differ: under every policy that does not sync each append there is a
   reachable log that rewrites a key without being durable, to the value it has. A flush of
   it loses versions, but nothing shown.
   */
  lemma SameValueRewrite(policy: SyncPolicy) returns (evs: seq<Event>)
    requires !Full(policy)
    ensures Run(Fresh(policy), evs).Some?
    ensures var d := Run(Fresh(policy), evs).value.disk;
            Harmless(d.frames, d.synced) && !FlushSafe(d.frames, d.synced)
  {
    hide Run, Memtable, AllRecords, Full, FlushSafe, Inv;
    var ev, s, n := UnsyncedRewrite(policy, 1);
    evs := ev;
    FreshInv(policy);
    RunKeeps(Fresh(policy), evs);
    var frames := s.disk.frames;
    assert frames[..n + 1] == frames;
    forall p: nat | n <= p <= |frames|
      ensures HarmlessCut(frames, p)
    {
      assert p == n || p == n + 1;
    }
    if FlushSafe(frames, n) {
      LogIncreasing(s);
      LosesVersion(frames, n);
    }
  }

  lemma LosesVersion(frames: seq<Frame>, n: nat)
    requires FlushSafe(frames, n) && n < |frames| && Increasing(AllRecords(frames))
    ensures Memtable(AllRecords(frames[..n])) != [Version(1, n)] || Memtable(AllRecords(frames)) != [Version(1, n + 1)]
  {
    hide FlushSafe, Memtable, AllRecords, Increasing, Dominant, Latest;
    var l := AllRecords(frames);
    OwnDominant(l);
    SafePrefix(frames, n, n, l);
    OnlyKey(AllRecords(frames[..n]), l, n);
  }

  lemma OnlyKey(m: seq<Entry>, l: seq<Entry>, n: nat)
    requires Dominant(m, l) && Dominant(l, l)
    ensures Memtable(m) != [Version(1, n)] || Memtable(l) != [Version(1, n + 1)]
  {
    hide Memtable, Latest;
    assert Find(Memtable(m), K).Some? ==> Find(Memtable(m), K) == Latest(l, K);
    assert Find(Memtable(l), K).Some? ==> Find(Memtable(l), K) == Latest(l, K);
  }

  // ---------- a key that would come back ----------

  /** One write into an empty log, synced and flushed. */
  lemma FlushOne(s: Store, e: Entry) returns (evs: seq<Event>, t: Store)
    requires s.job.Idle? && s.disk.frames == [] && e.seqno == s.nextSeq + 1 && Sound(Single(e))
    ensures Run(s, evs) == Some(t) && t.job.Idle? && t.disk.frames == [] && t.nextSeq == e.seqno
    ensures var n, m := s.disk.manifest.nextFile, t.disk.manifest;
            && m.nextFile == n + 1 && m.files == s.disk.manifest.files + [MetaFor(n, 0, [e], 0)]
            && t.disk.files == s.disk.files[M.FileName(n) := [e]]
  {
    hide M.FileName, Memtable, Sound, AllRecords, Records, M.Without, MaxSeqno;
    var d, n := s.disk, s.disk.manifest.nextFile;
    var f, meta := Single(e), MetaFor(n, 0, [e], 0);
    FirstRecord(f, e);
    WithoutNone(d.manifest.files);
    var m1 := Alloc(d.manifest);
    var files := d.files[M.FileName(n) := [e]];
    var s1 := Store(d.(frames := [f]), e.seqno, s.appends + 1, if s.policy.Due(s.appends + 1) then Syncing else Idle,
                    s.history + [f], s.policy);
    var s2 := s1.(disk := s1.disk.(synced := 1), job := Idle);
    var s3 := s2.(disk := s2.disk.(manifest := m1), job := FlushNamed(n));
    var s4 := s3.(disk := s3.disk.(files := files), job := FlushWritten(n));
    var s5 := s4.(disk := s4.disk.(manifest := Publish(m1, {}, meta)), job := FlushPublished);
    t := s5.(disk := s5.disk.(frames := [], synced := 0), appends := 0, job := Idle);
    assert Enabled(s, Append(f)) && Step(s, Append(f)) == s1 by {
      assert d.frames + [f] == [f];
    }
    RunThree(s, s1, s2, s3, Append(f), Sync, StartFlush);
    RunThree(s3, s4, s5, t, WriteFlush, PublishFlush(meta), ResetLog);
    RunConcat(s, [Append(f), Sync, StartFlush], [WriteFlush, PublishFlush(meta), ResetLog]);
    evs := [Append(f), Sync, StartFlush] + [WriteFlush, PublishFlush(meta), ResetLog];
  }

  lemma FirstRecord(f: Frame, e: Entry)
    requires f == Single(e)
    ensures Records(f) == [e] && Memtable(AllRecords([f])) == [e]
  {
    OneRecord(f, e);
    MemtableAppend([], e);
    assert [] + [e] == [e];
  }

  /** A compaction of two tables, from the plan to the removal of its inputs. */
  lemma CompactTwo(s: Store, f: M.FileMeta, g: M.FileMeta) returns (evs: seq<Event>, t: Store)
    requires s.job.Idle? && s.disk.frames == [] && s.disk.manifest.files == [f, g] && f.level == g.level == 0
      && f.name != g.name
    requires M.FileName(s.disk.manifest.nextFile) !in {f.name, g.name}
    requires Load(s.disk.files, f.name) != [] || Load(s.disk.files, g.name) != []
    ensures Run(s, evs) == Some(t) && t.job.Idle? && t.disk.frames == [] && t.nextSeq == s.nextSeq
    ensures var n, m, out := s.disk.manifest.nextFile, t.disk.manifest,
                             Merge.Merged([Load(s.disk.files, f.name), Load(s.disk.files, g.name)], false);
            && m.nextFile == n + 1 && m.files == [MetaFor(n, 1, out, 0)]
            && Load(t.disk.files, M.FileName(n)) == out
  {
    hide Step, Enabled, Run, Merge.Merged, M.FileName;
    var ev1, s1 := MergePair(s, f, g);
    var ev2, s2 := RemovePair(s1, f, g);
    RunConcat(s, ev1, ev2);
    evs, t := ev1 + ev2, s2;
  }

  /** From the plan to the manifest that names the output. */
  lemma MergePair(s: Store, f: M.FileMeta, g: M.FileMeta) returns (evs: seq<Event>, t: Store)
    requires s.job.Idle? && s.disk.manifest.files == [f, g] && f.name != g.name
    requires M.FileName(s.disk.manifest.nextFile) !in {f.name, g.name}
    ensures var n := s.disk.manifest.nextFile;
            var out := Merge.Merged([Load(s.disk.files, f.name), Load(s.disk.files, g.name)], false);
            && Run(s, evs) == Some(t) && t.job == Removing({f.name, g.name}) && t.disk.frames == s.disk.frames
            && t.nextSeq == s.nextSeq
            && t.disk.files == s.disk.files[M.FileName(n) := out]
            && t.disk.manifest.nextFile == n + 1 && t.disk.manifest.files == [MetaFor(n, 1, out, 0)]
  {
    hide M.FileName, Merge.Merged, AllRecords, Memtable, Only, M.Without;
    var d, names, n := s.disk, {f.name, g.name}, s.disk.manifest.nextFile;
    PairKept(f, g, d.files, d);
    var out := MergeOf(d, names);
    var meta := MetaFor(n, 1, out, 0);
    MetaDescribes(n, 1, out, 0);
    var m1 := Alloc(d.manifest);
    var files := d.files[M.FileName(n) := out];
    var s1 := s.(disk := d.(manifest := m1), job := MergeNamed(names, n));
    var s2 := s1.(disk := s1.disk.(files := files), job := MergeWritten(names, n));
    t := s2.(disk := s2.disk.(manifest := Publish(m1, names, meta)), job := Removing(names));
    PairKept(f, g, d.files, s1.disk);
    PairKept(f, g, files, s2.disk);
    RunThree(s, s1, s2, t, StartMerge(names), WriteMerge, PublishMerge(meta));
    evs := [StartMerge(names), WriteMerge, PublishMerge(meta)];
  }

  lemma RemovePair(s: Store, f: M.FileMeta, g: M.FileMeta) returns (evs: seq<Event>, t: Store)
    requires s.job == Removing({f.name, g.name}) && f.name != g.name && s.disk.frames == []
    ensures Run(s, evs) == Some(t) && t.job.Idle? && t.disk.frames == [] && t.nextSeq == s.nextSeq
    ensures t.disk.manifest == s.disk.manifest && t.disk.files == s.disk.files - {f.name} - {g.name}
  {
    var files := s.disk.files - {f.name};
    assert {f.name, g.name} != {f.name} && {f.name, g.name} - {f.name} == {g.name} by {
      assert g.name in {f.name, g.name};
    }
    var s1 := s.(disk := s.disk.(files := files), job := Removing({g.name}));
    var s2 := s1.(disk := s1.disk.(files := files - {g.name}), job := Idle);
    t := s2.(disk := s2.disk.(synced := 0));
    RunThree(s, s1, s2, t, Remove(f.name), Remove(g.name), Sync);
    evs := [Remove(f.name), Remove(g.name), Sync];
  }

  lemma PairKept(f: M.FileMeta, g: M.FileMeta, files: map<Data, seq<Entry>>, d: Disk)
    requires d.manifest.files == [f, g] && d.files == files && f.name != g.name
    ensures {f.name, g.name} <= NamesOf(d.manifest.files)
    ensures MergeOf(d, {f.name, g.name}) == Merge.Merged([Load(files, f.name), Load(files, g.name)], false)
    ensures M.Without([f, g], {f.name, g.name}) == []
  {
    var names := {f.name, g.name};
    OnlyPair(f, g, names);
    WithoutPair(f, g, names);
    assert f in d.manifest.files && g in d.manifest.files;
    assert Contents([f, g], files) == [Load(files, f.name), Load(files, g.name)];
  }

  lemma WithoutPair(f: M.FileMeta, g: M.FileMeta, names: set<Data>)
    requires f.name in names && g.name in names
    ensures M.Without([f, g], names) == []
  {
    assert [f, g][..1] == [f] && [f][..0] == [];
    assert M.Without([f], names) == [];
  }

  function Put(k: Byte, seqno: nat): Entry {
    Entry([k], [1], seqno, false)
  }

  function Deletion(seqno: nat): Entry {
    Entry(K, [], seqno, true)
  }

  /** Two flushes, a compaction, and two more flushes. */
  lemma ThreeTables(policy: SyncPolicy) returns (evs: seq<Event>, s: Store)
    ensures Run(Fresh(policy), evs) == Some(s) && s.job.Idle?
    ensures var out := Merge.Merged([[Put(107, 1)], [Put(108, 2)]], false);
            && s.disk.manifest.files
               == [MetaFor(3, 1, out, 0), MetaFor(4, 0, [Deletion(3)], 0), MetaFor(5, 0, [Put(109, 4)], 0)]
            && Load(s.disk.files, M.FileName(3)) == out && Load(s.disk.files, M.FileName(4)) == [Deletion(3)]
            && Load(s.disk.files, M.FileName(5)) == [Put(109, 4)]
  {
    hide M.FileName, Run, Merge.Merged, Enabled, Step, Sound;
    var e1, e2, e3, e4 := Put(107, 1), Put(108, 2), Deletion(3), Put(109, 4);
    SmallEncodable(e1);
    SmallEncodable(e2);
    SmallEncodable(e3);
    SmallEncodable(e4);
    DistinctNames();
    var ev1, s1 := FlushOne(Fresh(policy), e1);
    var ev2, s2 := FlushOne(s1, e2);
    assert s2.disk.manifest.files == [MetaFor(1, 0, [e1], 0), MetaFor(2, 0, [e2], 0)];
    var ev3, s3 := CompactTwo(s2, MetaFor(1, 0, [e1], 0), MetaFor(2, 0, [e2], 0));
    var ev4, s4 := FlushOne(s3, e3);
    var ev5, s5 := FlushOne(s4, e4);
    RunConcat(Fresh(policy), ev1, ev2);
    RunConcat(Fresh(policy), ev1 + ev2, ev3);
    RunConcat(Fresh(policy), ev1 + ev2 + ev3, ev4);
    RunConcat(Fresh(policy), ev1 + ev2 + ev3 + ev4, ev5);
    evs, s := ev1 + ev2 + ev3 + ev4 + ev5, s5;
  }

  /**
   A reachable set of three tables, of which compaction picks the last two. The first holds
   a value of a key deleted in the second: dropping tombstones would bring the value back.
   */
  lemma Resurrection(policy: SyncPolicy) returns (evs: seq<Event>)
    ensures Run(Fresh(policy), evs).Some?
    ensures var s := Run(Fresh(policy), evs).value;
            var fs, names := s.disk.manifest.files, NamesOf(Pick(s.disk.manifest.files));
            var inputs, rest := Contents(Only(fs, names), s.disk.files), Contents(M.Without(fs, names), s.disk.files);
            && s.job.Idle? && Distinct(fs) && Unmasks(inputs, rest, K)
            && ShownWith(rest, Merge.Merged(inputs, true), K) == Some([1])
            && ShownWith(rest, Merge.Merged(inputs, false), K) == None
  {
    hide M.FileName, Run, Merge.Merged, Pick, Only, M.Without, Unmasks, ShownWith, Load;
    var e1, e2, e3, e4 := Put(107, 1), Put(108, 2), Deletion(3), Put(109, 4);
    var s;
    evs, s := ThreeTables(policy);
    DistinctNames();
    var out := Merge.Merged([[e1], [e2]], false);
    var f, g, h := MetaFor(3, 1, out, 0), MetaFor(4, 0, [e3], 0), MetaFor(5, 0, [e4], 0);
    PickLastTwo(f, g, h);
    assert Contents([g, h], s.disk.files) == [[e3], [e4]] && Contents([f], s.disk.files) == [out];
    Unmasked(e1, e2, e3, e4, out);
  }

  lemma DistinctNames()
    ensures forall i: nat, j: nat :: i != j ==> M.FileName(i) != M.FileName(j)
  {
    forall i: nat, j: nat | i != j
      ensures M.FileName(i) != M.FileName(j)
    {
      M.FileNameInjective(i, j);
    }
  }

  lemma PickLastTwo(f: M.FileMeta, g: M.FileMeta, h: M.FileMeta)
    requires f.level == 1 && g.level == h.level == 0 && f.name != g.name && f.name != h.name && g.name != h.name
    ensures var fs := [f, g, h];
            Distinct(fs) && Only(fs, NamesOf(Pick(fs))) == [g, h] && M.Without(fs, NamesOf(Pick(fs))) == [f]
  {
    var fs := [f, g, h];
    LevelZeroLastTwo(f, g, h);
    hide LevelZero, Only, M.Without;
    var names := NamesOf(Pick(fs));
    assert g in Pick(fs) && h in Pick(fs);
    OnlyFirst(f, g, h, names);
    WithoutFirst(f, g, h, names);
  }

  lemma OnlyFirst(f: M.FileMeta, g: M.FileMeta, h: M.FileMeta, names: set<Data>)
    requires f.name !in names && g.name in names && h.name in names
    ensures Only([f, g, h], names) == [g, h]
  {
    assert [f][..0] == [] && [f, g][..1] == [f] && [f, g, h][..2] == [f, g];
    assert Only([f], names) == [];
    assert Only([f, g], names) == [g];
  }

  lemma WithoutFirst(f: M.FileMeta, g: M.FileMeta, h: M.FileMeta, names: set<Data>)
    requires f.name !in names && g.name in names && h.name in names
    ensures M.Without([f, g, h], names) == [f]
  {
    assert [f][..0] == [] && [f, g][..1] == [f] && [f, g, h][..2] == [f, g];
    assert M.Without([f], names) == [f];
    assert M.Without([f, g], names) == [f];
  }

  lemma LevelZeroLastTwo(f: M.FileMeta, g: M.FileMeta, h: M.FileMeta)
    requires f.level == 1 && g.level == h.level == 0
    ensures LevelZero([f, g, h]) == [g, h]
  {
    assert [f][..0] == [] && [f, g][..1] == [f] && [f, g, h][..2] == [f, g];
    assert LevelZero([f]) == [];
    assert LevelZero([f, g]) == [g];
  }

  lemma Unmasked(e1: Entry, e2: Entry, e3: Entry, e4: Entry, out: seq<Entry>)
    requires e1 == Put(107, 1) && e2 == Put(108, 2) && e3 == Deletion(3) && e4 == Put(109, 4)
    requires out == Merge.Merged([[e1], [e2]], false)
    ensures Unmasks([[e3], [e4]], [out], K)
    ensures ShownWith([out], Merge.Merged([[e3], [e4]], true), K) == Some([1])
    ensures ShownWith([out], Merge.Merged([[e3], [e4]], false), K) == None
  {
    hide Merge.Merged;
    Merge.MergedFinds([[e1], [e2]], false, K);
    NewestOfTwo(e1, e2, K);
    NewestOfTwo(e3, e4, K);
    assert Find([e1], K) == Some(e1) && Find([e2], K) == None && Find([e3], K) == Some(e3) && Find([e4], K) == None;
    Merge.MergedFinds([[e3], [e4]], true, K);
    Merge.MergedFinds([[e3], [e4]], false, K);
    BestOfTwo(out, Merge.Merged([[e3], [e4]], true), K);
    BestOfTwo(out, Merge.Merged([[e3], [e4]], false), K);
  }

  lemma NewestOfTwo(a: Entry, b: Entry, k: Data)
    ensures Merge.AllSorted([[a], [b]])
    ensures Merge.NewestTo([[a], [b]], 2, k) == Newer(Find([a], k), Find([b], k))
  {
    var two := [[a], [b]];
    assert Merge.NewestTo(two, 1, k) == Newer(Merge.NewestTo(two, 0, k), Find([a], k));
  }

  lemma BestOfTwo(a: seq<Entry>, b: seq<Entry>, k: Data)
    ensures BestFrom([a], 0, k) == Find(a, k)
    ensures BestFrom([a] + [b], 0, k) == Newer(Find(b, k), Find(a, k))
  {
    var two := [a] + [b];
    assert two[0] == a && two[1] == b;
    assert BestFrom(two, 1, k) == Newer(BestFrom(two, 2, k), Find(b, k));
    assert BestFrom([a], 0, k) == Newer(BestFrom([a], 1, k), Find(a, k));
  }
}
