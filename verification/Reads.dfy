/**
 The versions point reads find. Get asks the memtable first and does not compare sequence
 numbers with the tables, so it finds the last record of every key exactly when no key of
 the log has a newer version in a table.
 Every step keeps that but one: a crash between the manifest update of a flush and the
 reset of the log can cut the log below what the new table holds.
 */
module Reads {
  import opened Bytes
  import opened Entries
  import opened Wal
  import opened WalLog
  import opened History
  import opened Engine
  import opened Recovery
  import opened Runs
  import M = Manifest

  /** The memtable dominates after recovery from any crash, and so in the live store. */
  ghost predicate Dominated(s: Store) {
    && s.disk.synced <= |s.disk.frames|
    && forall p: nat :: s.disk.synced <= p <= |s.disk.frames| ==> DominatedAt(s, p)
  }

  ghost predicate DominatedAt(s: Store, p: nat)
    requires p <= |s.disk.frames|
  {
    Dominant(AllRecords(s.disk.frames[..p]), AllRecords(Surviving(s, p)))
  }

  /** No frame that is not durable writes a key that an earlier frame of the log wrote. */
  ghost predicate FlushSafe(frames: seq<Frame>, synced: nat) {
    forall i, j :: 0 <= i < j < |frames| && synced <= j ==> Apart(frames[i], frames[j])
  }

  ghost predicate Apart(f: Frame, g: Frame) {
    forall x, y :: x in Records(f) && y in Records(g) ==> x.key != y.key
  }

  lemma LiveDominant(s: Store)
    requires Dominated(s)
    ensures Dominant(AllRecords(s.disk.frames), Past(s))
  {
    hide Dominant, AllRecords;
    assert DominatedAt(s, |s.disk.frames|);
    assert s.disk.frames[..|s.disk.frames|] == s.disk.frames;
    assert Surviving(s, |s.disk.frames|) == s.history;
  }

  // ---------- the steps that keep it ----------

  lemma {:induction false} DominantFrame(l: seq<Entry>, r: seq<Entry>, es: seq<Entry>, after: nat)
    requires Dominant(l, r) && forall x :: x in l ==> x.seqno <= after
    requires forall i :: 0 <= i < |es| ==> es[i].seqno == after + i + 1
    ensures Dominant(l + es, r + es) && forall x :: x in l + es ==> x.seqno <= after + |es|
    decreases |es|
  {
    hide Dominant;
    if es == [] {
      assert l + es == l && r + es == r;
    } else {
      var n := |es| - 1;
      DominantFrame(l, r, es[..n], after);
      DominantAppend(l + es[..n], r + es[..n], es[n]);
      assert es == es[..n] + [es[n]];
      assert l + es == l + es[..n] + [es[n]] && r + es == r + es[..n] + [es[n]];
    }
  }

  lemma AppendDominates(s: Store, f: Frame)
    requires Inv(s) && Dominated(s) && Enabled(s, Append(f))
    ensures Dominated(Step(s, Append(f)))
  {
    hide Dominant, AllRecords, Represents, Held, Tables, Sound, Records, FilesOk;
    var s', l := Step(s, Append(f)), s.disk.frames;
    LiveDominant(s);
    LiveSurvives(s);
    LogNumbers(s);
    AllRecordsAppend(l, f);
    AllRecordsAppend(s.history, f);
    DominantFrame(AllRecords(l), Past(s), Records(f), s.nextSeq);
    forall p: nat | s'.disk.synced <= p <= |s'.disk.frames|
      ensures DominatedAt(s', p)
    {
      if p <= |l| {
        assert DominatedAt(s, p);
        assert s'.disk.frames[..p] == l[..p];
        assert Surviving(s', p) == Surviving(s, p);
      } else {
        assert s'.disk.frames[..p] == l + [f] && Surviving(s', p) == s.history + [f];
      }
    }
  }

  lemma LogNumbers(s: Store)
    requires Numbers(s) && Recoverable(s)
    ensures forall e :: e in AllRecords(s.disk.frames) ==> e.seqno <= s.nextSeq
  {
    hide Held, AllRecords, Tables;
    LiveSurvives(s);
    forall e | e in AllRecords(s.disk.frames)
      ensures e in Past(s)
    {
      assert e in Elems(AllRecords(s.disk.frames));
    }
  }

  /** Steps that change neither log nor history, and syncs. */
  lemma SameDominates(s: Store, ev: Event)
    requires Dominated(s) && Enabled(s, ev)
    requires !ev.Append? && !ev.PublishFlush? && !ev.ResetLog? && !ev.Crash?
    ensures Dominated(Step(s, ev))
  {
    hide Dominant, AllRecords, Memtable, Describes, MergeOf, Alloc, Publish;
    var s' := Step(s, ev);
    forall p: nat | s'.disk.synced <= p <= |s'.disk.frames|
      ensures DominatedAt(s', p)
    {
      assert DominatedAt(s, p);
      assert Surviving(s', p) == Surviving(s, p);
    }
  }

  lemma CutDominates(s: Store, ev: Event)
    requires Dominated(s) && Enabled(s, ev) && (ev.ResetLog? || ev.Crash?)
    ensures Dominated(Step(s, ev))
  {
    hide Dominant;
    var s' := Step(s, ev);
    if ev.Crash? {
      assert DominatedAt(s, ev.p);
      assert s'.disk.frames[..ev.p] == s.disk.frames[..ev.p] && Surviving(s', ev.p) == Surviving(s, ev.p);
    } else {
      assert s'.disk.frames[..0] == [];
      NothingDominates(AllRecords(Surviving(s', 0)));
    }
  }

  lemma NothingDominates(r: seq<Entry>)
    ensures Dominant([], r)
  {
  }

  // ---------- the step that may not ----------

  lemma {:induction false} RecordsOf(fs: seq<Frame>, x: Entry)
    ensures x in AllRecords(fs) <==> exists i :: 0 <= i < |fs| && x in Records(fs[i])
  {
    hide Records;
    if fs != [] {
      RecordsOf(fs[1..], x);
      if x in AllRecords(fs[1..]) {
        var i :| 0 <= i < |fs[1..]| && x in Records(fs[1..][i]);
        assert x in Records(fs[i + 1]);
      }
      if i :| 0 <= i < |fs| && x in Records(fs[i]) {
        assert i > 0 ==> x in Records(fs[1..][i - 1]);
      }
    }
  }

  /** The frames cut off at `p` write no key of the frames kept. */
  lemma CutApart(frames: seq<Frame>, synced: nat, p: nat)
    requires FlushSafe(frames, synced) && synced <= p <= |frames|
    ensures forall x, y :: x in AllRecords(frames[..p]) && y in AllRecords(frames[p..]) ==> x.key != y.key
  {
    hide Records, AllRecords;
    forall x, y | x in AllRecords(frames[..p]) && y in AllRecords(frames[p..])
      ensures x.key != y.key
    {
      RecordsOf(frames[..p], x);
      RecordsOf(frames[p..], y);
      var i :| 0 <= i < |frames[..p]| && x in Records(frames[..p][i]);
      var j :| 0 <= j < |frames[p..]| && y in Records(frames[p..][j]);
      assert Apart(frames[i], frames[p + j]);
    }
  }

  lemma SafePrefix(frames: seq<Frame>, synced: nat, p: nat, r: seq<Entry>)
    requires FlushSafe(frames, synced) && synced <= p <= |frames|
    requires Dominant(AllRecords(frames), r) && Increasing(AllRecords(frames))
    ensures Dominant(AllRecords(frames[..p]), r)
  {
    hide Dominant, AllRecords, FlushSafe;
    CutApart(frames, synced, p);
    AllRecordsConcat(frames[..p], frames[p..]);
    assert frames == frames[..p] + frames[p..];
    DominantPrefix(AllRecords(frames[..p]), AllRecords(frames[p..]), r);
  }

  /** A key written again by a frame that is not durable: losing just that frame breaks it. */
  lemma UnsafePrefix(frames: seq<Frame>, i: nat, j: nat, r: seq<Entry>)
    requires i < j < |frames| && !Apart(frames[i], frames[j])
    requires Increasing(AllRecords(frames)) && Increasing(r) && Elems(AllRecords(frames)) <= Elems(r)
    ensures !Dominant(AllRecords(frames[..j]), r)
  {
    hide Dominant, AllRecords, Increasing, Elems, Records;
    var x, y :| x in Records(frames[i]) && y in Records(frames[j]) && x.key == y.key;
    assert frames[..j][i] == frames[i] && frames[j..][0] == frames[j];
    RecordsOf(frames[..j], x);
    RecordsOf(frames[j..], y);
    AllRecordsConcat(frames[..j], frames[j..]);
    assert frames == frames[..j] + frames[j..];
    NotDominantPrefix(AllRecords(frames[..j]), AllRecords(frames[j..]), r, x, y);
  }

  /** After the manifest update of a flush, exactly the safe logs stay dominated whatever a crash cuts. */
  lemma PublishDominates(s: Store, meta: M.FileMeta)
    requires Inv(s) && Dominated(s) && Enabled(s, PublishFlush(meta))
    ensures Dominated(Step(s, PublishFlush(meta))) <==> FlushSafe(s.disk.frames, s.disk.synced)
  {
    hide Dominant, Apart, Represents, Held, Tables, AllRecords, FilesOk, Memtable, Publish;
    var s', frames := Step(s, PublishFlush(meta)), s.disk.frames;
    LiveDominant(s);
    LiveSurvives(s);
    LogWithin(Held(Tables(s.disk)), AllRecords(frames), Past(s));
    forall p: nat | s'.disk.synced <= p <= |frames|
      ensures FlushSafe(frames, s.disk.synced) ==> DominatedAt(s', p)
    {
      if FlushSafe(frames, s.disk.synced) {
        SafePrefix(frames, s.disk.synced, p, Past(s));
      }
    }
    if !FlushSafe(frames, s.disk.synced) {
      var i, j :| 0 <= i < j < |frames| && s.disk.synced <= j && !Apart(frames[i], frames[j]);
      UnsafePrefix(frames, i, j, Past(s));
      assert !DominatedAt(s', j);
    }
  }

  lemma LogWithin(held: set<Entry>, l: seq<Entry>, r: seq<Entry>)
    requires Represents(held, l, r)
    ensures Increasing(l) && Increasing(r) && Elems(l) <= Elems(r)
  {
  }

  lemma StepDominates(s: Store, ev: Event)
    requires Inv(s) && Dominated(s) && Enabled(s, ev)
    requires ev.PublishFlush? ==> FlushSafe(s.disk.frames, s.disk.synced)
    ensures Dominated(Step(s, ev))
  {
    hide Dominated, Inv, Enabled, Step;
    match ev
    case Append(f) => AppendDominates(s, f);
    case PublishFlush(meta) => PublishDominates(s, meta);
    case ResetLog => CutDominates(s, ev);
    case Crash(_, _, _) => CutDominates(s, ev);
    case _ => SameDominates(s, ev);
  }

  // ---------- runs ----------

  /** Every flush of the run publishes its table when the log is safe. */
  ghost predicate SafeRun(s: Store, evs: seq<Event>) {
    evs == [] ||
    (&& SafeRun(s, evs[..|evs| - 1])
     && (evs[|evs| - 1].PublishFlush? ==>
           var t := Run(s, evs[..|evs| - 1]);
           t.Some? && FlushSafe(t.value.disk.frames, t.value.disk.synced)))
  }

  lemma {:induction false} SafeRunDominates(s: Store, evs: seq<Event>)
    requires Inv(s) && Dominated(s) && Run(s, evs).Some? && SafeRun(s, evs)
    ensures Dominated(Run(s, evs).value)
  {
    hide Dominated, Inv, Enabled, Step;
    if evs != [] {
      var n := |evs| - 1;
      SafeRunDominates(s, evs[..n]);
      RunKeeps(s, evs[..n]);
      StepDominates(Run(s, evs[..n]).value, evs[n]);
    }
  }

  /** Every key's Get finds the last record of the history. */
  ghost predicate GetsRight(s: Store) {
    GetsLatest(Tables(s.disk), Mem(s.disk), Past(s))
  }

  lemma GetsRightWhen(s: Store)
    requires Inv(s)
    ensures GetsRight(s) <==> Dominant(AllRecords(s.disk.frames), Past(s))
  {
    hide Represents, Held, Memtable, AllRecords, Named, GetsLatest;
    LiveSurvives(s);
    TablesSorted(s.disk.manifest.files, s.disk.files, Bound(s));
    GetSeesLatest(Tables(s.disk), AllRecords(s.disk.frames), Past(s));
  }

  /** With the log empty, as after every completed flush, point reads are right. */
  lemma EmptyLogReads(s: Store)
    requires Inv(s) && s.disk.frames == []
    ensures GetsRight(s)
  {
    hide Inv, GetsRight, Dominant;
    GetsRightWhen(s);
    NothingDominates(Past(s));
  }

  /** A policy that syncs after every append. */
  predicate Full(policy: SyncPolicy) {
    Limit(policy) == Some(0)
  }

  ghost predicate FullRun(policy: SyncPolicy, evs: seq<Event>) {
    Full(policy) && forall i :: 0 <= i < |evs| && evs[i].Crash? ==> Full(evs[i].policy)
  }

  lemma {:induction false} FullRunSafe(s: Store, evs: seq<Event>)
    requires FullRun(s.policy, evs) && Inv(s) && Run(s, evs).Some?
    ensures SafeRun(s, evs) && Full(Run(s, evs).value.policy)
  {
    hide Inv, FlushSafe, Full, Memtable, Describes, MergeOf, Alloc, Publish, RecoveredSeq;
    if evs != [] {
      var n := |evs| - 1;
      FullRunSafe(s, evs[..n]);
      RunKeeps(s, evs[..n]);
      var t := Run(s, evs[..n]).value;
      if evs[n].PublishFlush? {
        FullSynced(t);
      }
    }
  }

  lemma FullSynced(s: Store)
    requires Full(s.policy) && Inv(s) && !s.job.Syncing?
    ensures s.disk.synced == |s.disk.frames| && FlushSafe(s.disk.frames, s.disk.synced)
  {
    AllowedWithin(s.policy, s.appends, |s.disk.frames| - s.disk.synced);
  }

  /**
   Point reads refine the plain map in every run whose flushes find the log safe; under
   policies that sync every append those are all runs.
   */
  lemma GetRefinesMap(s0: Store, evs: seq<Event>, k: Data)
    requires Inv(s0) && Dominated(s0) && Run(s0, evs).Some?
    requires SafeRun(s0, evs) || FullRun(s0.policy, evs)
    ensures var s := Run(s0, evs).value;
            && Dominated(s) && GetsRight(s)
            && Got(s, k) == Lookup(MapOf(Past(s)), k) == Scanned(s, k)
  {
    hide Inv, Step, Enabled, Memtable, MapOf, Tables;
    RunKeeps(s0, evs);
    if FullRun(s0.policy, evs) {
      FullRunSafe(s0, evs);
    }
    SafeRunDominates(s0, evs);
    var s := Run(s0, evs).value;
    LiveDominant(s);
    GetsRightWhen(s);
    MapOfLatest(Past(s), k);
    ScanRefinesMap(s, k);
  }

  /**
   Under policies that sync every append, a crash between operations, or inside any
   operation after its append was synced, loses nothing: Get in the reopened store shows
   the plain map of every write so far.
   */
  lemma NothingLost(s0: Store, evs: seq<Event>, p: nat, files: map<Data, seq<Entry>>, policy: SyncPolicy, k: Data)
    requires Inv(s0) && Dominated(s0) && FullRun(s0.policy, evs) && Run(s0, evs).Some?
    requires !Run(s0, evs).value.job.Syncing? && Enabled(Run(s0, evs).value, Crash(p, files, policy))
    ensures var s := Run(s0, evs).value;
            var t := Step(s, Crash(p, files, policy));
            t.history == s.history && Got(t, k) == Lookup(MapOf(Past(s)), k)
  {
    hide Inv, Enabled, Memtable, MapOf, Tables, FlushSafe;
    var s := Run(s0, evs).value;
    FullRunSafe(s0, evs);
    RunKeeps(s0, evs);
    SafeRunDominates(s0, evs);
    FullSynced(s);
    CrashRefinement(s0, evs, p, files, policy);
    assert p == |s.disk.frames| by {
      CrashWithin(s, p, files, policy);
    }
    var ev := Crash(p, files, policy);
    StepDominates(s, ev);
    StepKeeps(s, ev);
    var t := Step(s, ev);
    LiveDominant(t);
    GetsRightWhen(t);
    MapOfLatest(Past(t), k);
  }

  lemma CrashWithin(s: Store, p: nat, files: map<Data, seq<Entry>>, policy: SyncPolicy)
    requires Enabled(s, Crash(p, files, policy))
    ensures s.disk.synced <= p <= |s.disk.frames|
  {
  }

  /** In a dominated store each memtable version is at least as new as any table's, and equal only if the same. */
  lemma MemtableNewest(s: Store, m: Entry, t: seq<Entry>, e: Entry)
    requires Inv(s) && Dominated(s) && m in Mem(s.disk) && t in Tables(s.disk) && e in t && e.key == m.key
    ensures e.seqno <= m.seqno && (e.seqno == m.seqno ==> e == m)
  {
    hide Memtable, AllRecords, Represents, Tables, Named, Inv;
    LiveDominant(s);
    InvSurvives(s);
    var l, r := AllRecords(s.disk.frames), Past(s);
    MemtableTop(l, m.key);
    FindMember(Memtable(l), m);
    NewestInHistory(Held(Tables(s.disk)), l, r, m, e);
  }

  lemma InvSurvives(s: Store)
    requires Inv(s)
    ensures Represents(Held(Tables(s.disk)), AllRecords(s.disk.frames), Past(s))
  {
    hide Represents, Held, AllRecords, Tables;
    LiveSurvives(s);
  }

  lemma NewestInHistory(held: set<Entry>, l: seq<Entry>, r: seq<Entry>, m: Entry, e: Entry)
    requires Represents(held, l, r) && Latest(r, m.key) == Some(m) && e in held && e.key == m.key
    ensures e.seqno <= m.seqno && (e.seqno == m.seqno ==> e == m)
  {
    LatestTop(r, m.key);
    assert e in Elems(r) && m in Elems(r);
    if e.seqno == m.seqno {
      SameNumber(e, m, r);
    }
  }

  lemma FreshDominated(policy: SyncPolicy)
    ensures Dominated(Fresh(policy))
  {
    assert DominatedAt(Fresh(policy), 0);
  }

  // ---------- the window of a flush, exactly ----------

  /**
   A flush does not sync the log before it publishes the table. Point reads find the newest
   version after every crash that may follow exactly when, at that moment, no frame that is
   not durable writes a key an earlier frame of the log wrote.
   */
  lemma VersionWindow(s: Store, meta: M.FileMeta)
    requires Inv(s) && Dominated(s) && Enabled(s, PublishFlush(meta))
    ensures var t := Step(s, PublishFlush(meta));
            (forall p, files, policy :: Enabled(t, Crash(p, files, policy)) ==>
              GetsRight(Step(t, Crash(p, files, policy))))
            <==> FlushSafe(s.disk.frames, s.disk.synced)
  {
    hide Inv, Dominant, AllRecords, GetsRight, FlushSafe, FilesOk;
    var t := Step(s, PublishFlush(meta));
    PublishDominates(s, meta);
    StepKeeps(s, PublishFlush(meta));
    forall p, files, policy | Enabled(t, Crash(p, files, policy))
      ensures GetsRight(Step(t, Crash(p, files, policy))) <==> DominatedAt(t, p)
    {
      CrashGetsRight(t, p, files, policy);
    }
    if !Dominated(t) {
      SyncedInLog(t);
      var p: nat :| t.disk.synced <= p <= |t.disk.frames| && !DominatedAt(t, p);
      assert Enabled(t, Crash(p, t.disk.files, t.policy));
    }
  }

  lemma CrashGetsRight(s: Store, p: nat, files: map<Data, seq<Entry>>, policy: SyncPolicy)
    requires Inv(s) && Enabled(s, Crash(p, files, policy))
    ensures GetsRight(Step(s, Crash(p, files, policy))) <==> DominatedAt(s, p)
  {
    hide Inv, Dominant, AllRecords, GetsRight;
    StepKeeps(s, Crash(p, files, policy));
    GetsRightWhen(Step(s, Crash(p, files, policy)));
  }

  lemma SyncedInLog(s: Store)
    requires Inv(s)
    ensures s.disk.synced <= |s.disk.frames| && SameNamed(s.disk.manifest, s.disk.files, s.disk.files)
  {
    FreshName(s.disk.manifest, s.disk.files, Bound(s));
  }
}
