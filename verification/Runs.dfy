/**
 Whole runs of the engine: what any sequence of steps, crashes included, leaves to read.
 */
module Runs {
  import opened Bytes
  import opened Entries
  import opened Wal
  import opened WalLog
  import opened History
  import opened Engine
  import opened Recovery
  import M = Manifest

  /** The store a new directory holds. */
  function Fresh(policy: SyncPolicy): Store {
    Store(Disk(map[], M.State(M.VERSION, 1, 0, []), [], 0), 0, 0, Idle, [], policy)
  }

  /** The store after the events, or None when one of them was not possible. */
  ghost function Run(s: Store, evs: seq<Event>): Option<Store> {
    if evs == [] then Some(s)
    else
      var t := Run(s, evs[..|evs| - 1]);
      var ev := evs[|evs| - 1];
      if t.Some? && Enabled(t.value, ev) then Some(Step(t.value, ev)) else None
  }

  lemma RunAppend(s: Store, evs: seq<Event>, ev: Event)
    ensures Run(s, evs + [ev]) ==
            var t := Run(s, evs);
            if t.Some? && Enabled(t.value, ev) then Some(Step(t.value, ev)) else None
  {
    assert (evs + [ev])[..|evs|] == evs;
  }

  lemma {:induction false} RunConcat(s: Store, evs: seq<Event>, more: seq<Event>)
    requires Run(s, evs).Some?
    ensures Run(s, evs + more) == Run(Run(s, evs).value, more)
    decreases |more|
  {
    hide Enabled, Step;
    if more == [] {
      assert evs + more == evs;
    } else {
      var n := |more| - 1;
      RunConcat(s, evs, more[..n]);
      assert evs + more == evs + more[..n] + [more[n]];
      RunAppend(s, evs + more[..n], more[n]);
    }
  }

  lemma {:induction false} RunPrefix(s: Store, evs: seq<Event>, i: nat)
    requires Run(s, evs).Some? && i <= |evs|
    ensures Run(s, evs[..i]).Some?
    decreases |evs|
  {
    if i < |evs| {
      var n := |evs| - 1;
      RunPrefix(s, evs[..n], i);
      assert evs[..n][..i] == evs[..i];
    } else {
      assert evs[..i] == evs;
    }
  }

  lemma FreshInv(policy: SyncPolicy)
    ensures Inv(Fresh(policy))
  {
    assert Survives(Fresh(policy), 0);
  }

  /** The invariant holds in every state of every run. */
  lemma {:induction false} RunKeeps(s: Store, evs: seq<Event>)
    requires Inv(s) && Run(s, evs).Some?
    ensures Inv(Run(s, evs).value)
  {
    hide Inv, Enabled, Step;
    if evs != [] {
      RunKeeps(s, evs[..|evs| - 1]);
      StepKeeps(Run(s, evs[..|evs| - 1]).value, evs[|evs| - 1]);
    }
  }

  // ---------- crash refinement ----------

  /** What a scan of the store shows of a key. */
  function Scanned(s: Store, k: Data): Option<Data> {
    Shown(Find(ScanOf(Tables(s.disk), Mem(s.disk)), k))
  }

  /** What Get shows of a key. */
  function Got(s: Store, k: Data): Option<Data> {
    Shown(GetVersion(Tables(s.disk), Mem(s.disk), k))
  }

  /** The most acknowledged frames a crash may cost; None when the policy sets no limit. */
  function Limit(policy: SyncPolicy): Option<nat> {
    if policy.everyN > 0 then Some(policy.everyN - 1) else if policy.onWrite then Some(0) else None
  }

  /** A scan shows the plain map of the history. */
  lemma ScanRefinesMap(s: Store, k: Data)
    requires Inv(s)
    ensures Scanned(s, k) == Lookup(MapOf(Past(s)), k)
  {
    hide Represents, Held, Memtable, AllRecords, Named;
    LiveSurvives(s);
    TablesSorted(s.disk.manifest.files, s.disk.files, Bound(s));
    ScanShowsMap(Tables(s.disk), AllRecords(s.disk.frames), Past(s), k);
  }

  /**
   Crash refinement: after any run, a crash that keeps the synced frames and any number of
   the others recovers to a prefix of the history, whole frames only. It costs no more
   frames than the log lost, and no more than the policy allows, apart from a frame whose
   append has not returned. A scan of the recovered store shows exactly the plain map of
   that prefix, and the run can go on.
   */
  lemma CrashRefinement(s0: Store, evs: seq<Event>, p: nat, files: map<Data, seq<Entry>>, policy: SyncPolicy)
    requires Inv(s0) && Run(s0, evs).Some? && Enabled(Run(s0, evs).value, Crash(p, files, policy))
    ensures var s := Run(s0, evs).value;
            var t := Step(s, Crash(p, files, policy));
            && Inv(t) && t.history <= s.history && |s.history| - |t.history| <= |s.disk.frames| - p
            && (Limit(s.policy).Some? ==>
                  |s.history| - |t.history| <= Limit(s.policy).value + (if s.job.Syncing? then 1 else 0))
            && (p == |s.disk.frames| ==> t.history == s.history)
            && forall k :: Scanned(t, k) == Lookup(MapOf(AllRecords(t.history)), k)
  {
    hide Run, Inv, Enabled, Step, Scanned, MapOf, Limit;
    RunKeeps(s0, evs);
    var s := Run(s0, evs).value;
    var t := Step(s, Crash(p, files, policy));
    StepKeeps(s, Crash(p, files, policy));
    LostFrames(s, p, files, policy);
    forall k
      ensures Scanned(t, k) == Lookup(MapOf(AllRecords(t.history)), k)
    {
      ScanRefinesMap(t, k);
    }
  }

  /** What a crash costs. */
  lemma LostFrames(s: Store, p: nat, files: map<Data, seq<Entry>>, policy: SyncPolicy)
    requires Inv(s) && Enabled(s, Crash(p, files, policy))
    ensures var t := Step(s, Crash(p, files, policy));
            && t.history <= s.history && |s.history| - |t.history| <= |s.disk.frames| - p
            && (Limit(s.policy).Some? ==>
                  |s.history| - |t.history| <= Limit(s.policy).value + (if s.job.Syncing? then 1 else 0))
            && (p == |s.disk.frames| ==> t.history == s.history)
  {
    hide Survives, FilesOk, Numbers, JobOk, Limit, RecoveredSeq, SameNamed;
    AllowedWithin(s.policy, s.appends, |s.disk.frames| - s.disk.synced);
    if s.job.Syncing? {
      AllowedWithin(s.policy, s.appends - 1, |s.disk.frames| - s.disk.synced - 1);
    }
  }

  lemma AllowedWithin(policy: SyncPolicy, appends: nat, unsynced: nat)
    ensures policy.Allows(appends, unsynced) && Limit(policy).Some? ==> unsynced <= Limit(policy).value
  {
  }

  // ---------- numbers ----------

  /** Every number handed out is above every number in log, tables, history and manifest. */
  lemma FreshNumbers(s: Store, f: Frame, x: Entry)
    requires Inv(s) && Enabled(s, Append(f)) && x in Records(f)
    ensures forall e :: e in Past(s) || e in AllRecords(s.disk.frames) || e in Held(Tables(s.disk)) ==>
      e.seqno < x.seqno
    ensures s.disk.manifest.logSeq < x.seqno && M.MaxFileSeq(s.disk.manifest.files) < x.seqno
  {
    hide Held, AllRecords, Tables;
    LiveSurvives(s);
    forall e | e in AllRecords(s.disk.frames)
      ensures e in Past(s)
    {
      assert e in Elems(AllRecords(s.disk.frames));
    }
    MaxFileSeqAtMost(s.disk.manifest.files, s);
  }

  lemma {:induction false} MaxFileSeqAtMost(fs: seq<M.FileMeta>, s: Store)
    requires Inv(s) && forall f :: f in fs ==> f in s.disk.manifest.files
    ensures M.MaxFileSeq(fs) <= s.nextSeq
  {
    hide Recoverable, JobOk, Named;
    if fs != [] {
      var n := |fs| - 1;
      MaxFileSeqAtMost(fs[..n], s);
      assert FileOk(fs[n], s.disk.files, Bound(s));
      forall e | e in s.disk.files[fs[n].name]
        ensures e.seqno <= s.nextSeq
      {
        LiveSurvives(s);
        HeldByMember(s.disk.manifest.files, s.disk.files, e);
      }
      MaxSeqnoAtMost(s.disk.files[fs[n].name], s.nextSeq);
    }
  }

  /**
   After every single step of a run each file the manifest names is on disk, complete and
   sorted, under a name of its own whose number has been handed out.
   */
  lemma ManifestFiles(s0: Store, evs: seq<Event>, i: nat, j: nat)
    requires Inv(s0) && Run(s0, evs).Some?
    requires i < |Run(s0, evs).value.disk.manifest.files| && j < |Run(s0, evs).value.disk.manifest.files|
    ensures var d := Run(s0, evs).value.disk;
            var f := d.manifest.files[i];
            && f.name in d.files && Sorted(d.files[f.name]) && f.maxSeq == MaxSeqno(d.files[f.name])
            && (i != j ==> f.name != d.manifest.files[j].name)
            && exists n: nat :: n < d.manifest.nextFile && f.name == M.FileName(n)
  {
    hide Run, Recoverable, Numbers, WithinPolicy, M.FileName;
    RunKeeps(s0, evs);
    var s := Run(s0, evs).value;
    var f := s.disk.manifest.files[i];
    assert FileOk(f, s.disk.files, Bound(s));
    var n: nat :| n < Bound(s) && f.name == M.FileName(n);
    assert n < s.disk.manifest.nextFile;
  }

  /** Over any stretch of any run, crashes included, the manifest's counters never go back. */
  lemma {:induction false} CountersGrow(s: Store, evs: seq<Event>)
    requires Run(s, evs).Some?
    ensures var t := Run(s, evs).value;
            t.disk.manifest.logSeq >= s.disk.manifest.logSeq && t.disk.manifest.nextFile >= s.disk.manifest.nextFile
  {
    if evs != [] {
      CountersGrow(s, evs[..|evs| - 1]);
    }
  }
}
