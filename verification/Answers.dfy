/**
 What point reads show. A key may be written again to the value it has, and then an older
 version answers like the newer one. So whether Get shows the plain map is a weaker question
 than whether it finds the newest version, and it has its own exact condition: no key of the
 log shows anything but what its last record says.
 */
module Answers {
  import opened Bytes
  import opened Entries
  import opened Wal
  import opened WalLog
  import opened History
  import opened Engine
  import opened Recovery
  import opened Runs
  import opened Reads
  import M = Manifest

  /** Every key's Get shows what the plain map of the history holds. */
  ghost predicate ShowsRight(s: Store) {
    forall k :: Got(s, k) == Lookup(MapOf(Past(s)), k)
  }

  /** Every key's Get shows what a scan shows. */
  ghost predicate ReadsAgree(s: Store) {
    forall k :: Got(s, k) == Scanned(s, k)
  }

  /** Every key of the log `l` shows what its last record in the history `r` says. */
  ghost predicate Faithful(l: seq<Entry>, r: seq<Entry>) {
    forall k :: Find(Memtable(l), k).Some? ==> Shown(Find(Memtable(l), k)) == Shown(Latest(r, k))
  }

  /** The memtable is faithful after recovery from any crash, and so in the live store. */
  ghost predicate Truthful(s: Store) {
    && s.disk.synced <= |s.disk.frames|
    && forall p: nat :: s.disk.synced <= p <= |s.disk.frames| ==> TruthfulAt(s, p)
  }

  ghost predicate TruthfulAt(s: Store, p: nat)
    requires p <= |s.disk.frames|
  {
    Faithful(AllRecords(s.disk.frames[..p]), AllRecords(Surviving(s, p)))
  }

  /** Losing the frames from `p` on changes nothing shown of the keys the others wrote. */
  ghost predicate HarmlessCut(frames: seq<Frame>, p: nat)
    requires p <= |frames|
  {
    forall k ::
      var v := Find(Memtable(AllRecords(frames[..p])), k);
      v.Some? ==> Shown(v) == Shown(Find(Memtable(AllRecords(frames)), k))
  }

  /** No cut a crash may make matters. */
  ghost predicate Harmless(frames: seq<Frame>, synced: nat) {
    forall p: nat :: synced <= p <= |frames| ==> HarmlessCut(frames, p)
  }

  // ---------- one state ----------

  /** Point reads show the plain map exactly when every memtable key shows its last record. */
  lemma ShowsRightWhen(s: Store)
    requires Inv(s)
    ensures ShowsRight(s) <==> Faithful(AllRecords(s.disk.frames), Past(s))
  {
    hide Inv, Represents, Held, Memtable, AllRecords, Latest, MapOf, BestFrom, Tables;
    var l, r := AllRecords(s.disk.frames), Past(s);
    forall k
      ensures Lookup(MapOf(r), k) == Shown(Latest(r, k))
      ensures Got(s, k) == if Find(Memtable(l), k).Some? then Shown(Find(Memtable(l), k)) else Shown(Latest(r, k))
    {
      MapOfLatest(r, k);
      WithoutMemtable(s, k);
    }
    if ShowsRight(s) {
      forall k | Find(Memtable(l), k).Some?
        ensures Shown(Find(Memtable(l), k)) == Shown(Latest(r, k))
      {
        assert Got(s, k) == Lookup(MapOf(r), k);
      }
    }
  }

  lemma WithoutMemtable(s: Store, k: Data)
    requires Inv(s)
    ensures Find(Mem(s.disk), k).None? ==> BestFrom(Tables(s.disk), 0, k) == Latest(Past(s), k)
  {
    hide Represents, Held, Memtable, AllRecords, Named, Latest, BestFrom;
    LiveSurvives(s);
    TablesSorted(s.disk.manifest.files, s.disk.files, Bound(s));
    GetWithoutMemtable(Tables(s.disk), AllRecords(s.disk.frames), Past(s), k);
  }

  /** Get and a scan agree on every key exactly then, too. */
  lemma ReadsAgreeWhen(s: Store)
    requires Inv(s)
    ensures ReadsAgree(s) <==> Faithful(AllRecords(s.disk.frames), Past(s))
  {
    hide Inv, Faithful, MapOf, Got, Scanned;
    ShowsRightWhen(s);
    forall k
      ensures Scanned(s, k) == Lookup(MapOf(Past(s)), k)
    {
      ScanRefinesMap(s, k);
    }
    if ReadsAgree(s) {
      forall k
        ensures Got(s, k) == Lookup(MapOf(Past(s)), k)
      {
        assert Got(s, k) == Scanned(s, k);
      }
    }
    if ShowsRight(s) {
      forall k
        ensures Got(s, k) == Scanned(s, k)
      {
        assert Got(s, k) == Lookup(MapOf(Past(s)), k);
      }
    }
  }

  /** Finding the newest version is enough. */
  lemma RightVersionsShow(s: Store)
    requires Inv(s) && GetsRight(s)
    ensures ShowsRight(s)
  {
    hide Inv, Faithful, ShowsRight, GetsRight;
    GetsRightWhen(s);
    ShowsRightWhen(s);
    DominantFaithful(AllRecords(s.disk.frames), Past(s));
  }

  lemma DominantFaithful(l: seq<Entry>, r: seq<Entry>)
    requires Dominant(l, r)
    ensures Faithful(l, r)
  {
  }

  lemma DominatedTruthful(s: Store)
    requires Dominated(s)
    ensures Truthful(s)
  {
    hide Dominant, Faithful, AllRecords, Surviving;
    forall p: nat | s.disk.synced <= p <= |s.disk.frames|
      ensures TruthfulAt(s, p)
    {
      assert DominatedAt(s, p);
      DominantFaithful(AllRecords(s.disk.frames[..p]), AllRecords(Surviving(s, p)));
    }
  }

  lemma LiveFaithful(s: Store)
    requires Truthful(s)
    ensures Faithful(AllRecords(s.disk.frames), Past(s))
  {
    hide Faithful, AllRecords;
    assert TruthfulAt(s, |s.disk.frames|);
    assert s.disk.frames[..|s.disk.frames|] == s.disk.frames;
    assert Surviving(s, |s.disk.frames|) == s.history;
  }

  /** After every crash that may happen now point reads are right, exactly in the truthful stores. */
  lemma CrashShows(s: Store)
    requires Inv(s)
    ensures RightAfterCrash(s) <==> Truthful(s)
  {
    hide Inv, Faithful, AllRecords, ShowsRight;
    SyncedInLog(s);
    forall p, files, policy | Enabled(s, Crash(p, files, policy))
      ensures ShowsRight(Step(s, Crash(p, files, policy))) <==> TruthfulAt(s, p)
    {
      StepKeeps(s, Crash(p, files, policy));
      ShowsRightWhen(Step(s, Crash(p, files, policy)));
    }
    if !Truthful(s) {
      var p: nat :| s.disk.synced <= p <= |s.disk.frames| && !TruthfulAt(s, p);
      assert Enabled(s, Crash(p, s.disk.files, s.policy));
    }
  }

  ghost predicate RightAfterCrash(s: Store) {
    forall p, files, policy :: Enabled(s, Crash(p, files, policy)) ==> ShowsRight(Step(s, Crash(p, files, policy)))
  }

  // ---------- the steps ----------

  lemma FaithfulAppend(l: seq<Entry>, r: seq<Entry>, e: Entry)
    requires Faithful(l, r) && forall x :: x in l ==> x.seqno < e.seqno
    ensures Faithful(l + [e], r + [e])
  {
    MemtableAppend(l, e);
    assert (r + [e])[..|r|] == r;
    forall k | Find(Memtable(l + [e]), k).Some?
      ensures Shown(Find(Memtable(l + [e]), k)) == Shown(Latest(r + [e], k))
    {
      MemtableTop(l, k);
      FindUpsert(Memtable(l), e, k);
    }
  }

  lemma {:induction false} FaithfulFrame(l: seq<Entry>, r: seq<Entry>, es: seq<Entry>, after: nat)
    requires Faithful(l, r) && forall x :: x in l ==> x.seqno <= after
    requires forall i :: 0 <= i < |es| ==> es[i].seqno == after + i + 1
    ensures Faithful(l + es, r + es) && forall x :: x in l + es ==> x.seqno <= after + |es|
    decreases |es|
  {
    hide Faithful;
    if es == [] {
      assert l + es == l && r + es == r;
    } else {
      var n := |es| - 1;
      FaithfulFrame(l, r, es[..n], after);
      FaithfulAppend(l + es[..n], r + es[..n], es[n]);
      assert es == es[..n] + [es[n]];
      assert l + es == l + es[..n] + [es[n]] && r + es == r + es[..n] + [es[n]];
    }
  }

  lemma AppendTruthful(s: Store, f: Frame)
    requires Inv(s) && Truthful(s) && Enabled(s, Append(f))
    ensures Truthful(Step(s, Append(f)))
  {
    hide Faithful, AllRecords, Represents, Held, Tables, Sound, Records, FilesOk;
    var s', l := Step(s, Append(f)), s.disk.frames;
    LiveFaithful(s);
    LogNumbers(s);
    AllRecordsAppend(l, f);
    AllRecordsAppend(s.history, f);
    FaithfulFrame(AllRecords(l), Past(s), Records(f), s.nextSeq);
    forall p: nat | s'.disk.synced <= p <= |s'.disk.frames|
      ensures TruthfulAt(s', p)
    {
      if p <= |l| {
        assert TruthfulAt(s, p);
        assert s'.disk.frames[..p] == l[..p];
        assert Surviving(s', p) == Surviving(s, p);
      } else {
        assert s'.disk.frames[..p] == l + [f] && Surviving(s', p) == s.history + [f];
      }
    }
  }

  /** Steps that change neither log nor history, and syncs. */
  lemma SameTruthful(s: Store, ev: Event)
    requires Truthful(s) && Enabled(s, ev)
    requires !ev.Append? && !ev.PublishFlush? && !ev.ResetLog? && !ev.Crash?
    ensures Truthful(Step(s, ev))
  {
    hide Faithful, AllRecords, Memtable, Describes, MergeOf, Alloc, Publish;
    var s' := Step(s, ev);
    forall p: nat | s'.disk.synced <= p <= |s'.disk.frames|
      ensures TruthfulAt(s', p)
    {
      assert TruthfulAt(s, p);
      assert Surviving(s', p) == Surviving(s, p);
    }
  }

  lemma CutTruthful(s: Store, ev: Event)
    requires Truthful(s) && Enabled(s, ev) && (ev.ResetLog? || ev.Crash?)
    ensures Truthful(Step(s, ev))
  {
    hide Faithful;
    var s' := Step(s, ev);
    if ev.Crash? {
      assert TruthfulAt(s, ev.p);
      assert s'.disk.frames[..ev.p] == s.disk.frames[..ev.p] && Surviving(s', ev.p) == Surviving(s, ev.p);
    } else {
      assert s'.disk.frames[..0] == [];
      NothingDominates(AllRecords(Surviving(s', 0)));
      DominantFaithful([], AllRecords(Surviving(s', 0)));
    }
  }

  /** A cut of a log whose whole is faithful: faithful if and only if it is harmless. */
  lemma CutFaithful(frames: seq<Frame>, p: nat, r: seq<Entry>)
    requires p <= |frames| && Faithful(AllRecords(frames), r)
    ensures Faithful(AllRecords(frames[..p]), r) <==> HarmlessCut(frames, p)
  {
    hide Latest, Memtable, AllRecords, Find;
    var l, m := AllRecords(frames), AllRecords(frames[..p]);
    AllRecordsConcat(frames[..p], frames[p..]);
    assert frames == frames[..p] + frames[p..];
    forall k | Find(Memtable(m), k).Some?
      ensures Shown(Find(Memtable(l), k)) == Shown(Latest(r, k))
    {
      StaysWritten(m, AllRecords(frames[p..]), k);
    }
  }

  lemma StaysWritten(l: seq<Entry>, m: seq<Entry>, k: Data)
    requires Find(Memtable(l), k).Some?
    ensures Find(Memtable(l + m), k).Some?
  {
    MemtableTop(l, k);
    MemtableTop(l + m, k);
    assert Find(Memtable(l), k).value in Elems(l + m);
  }

  /** After the manifest update of a flush, exactly the harmless logs stay truthful. */
  lemma PublishTruthful(s: Store, meta: M.FileMeta)
    requires Enabled(s, PublishFlush(meta)) && s.disk.synced <= |s.disk.frames|
    ensures Truthful(Step(s, PublishFlush(meta))) <==>
            Faithful(AllRecords(s.disk.frames), Past(s)) && Harmless(s.disk.frames, s.disk.synced)
  {
    hide Faithful, HarmlessCut, AllRecords, Memtable, Publish, Describes;
    var t, frames := Step(s, PublishFlush(meta)), s.disk.frames;
    if Faithful(AllRecords(frames), Past(s)) {
      forall p: nat | t.disk.synced <= p <= |frames|
        ensures TruthfulAt(t, p) <==> HarmlessCut(frames, p)
      {
        CutFaithful(frames, p, Past(s));
      }
    }
    if Truthful(t) {
      LiveFaithful(t);
      forall p: nat | s.disk.synced <= p <= |frames|
        ensures HarmlessCut(frames, p)
      {
        assert TruthfulAt(t, p);
      }
    }
  }

  /** Every step keeps a store truthful, publication if and only if the log is harmless. */
  lemma StepTruthful(s: Store, ev: Event)
    requires Inv(s) && Truthful(s) && Enabled(s, ev)
    ensures Truthful(Step(s, ev)) <==> (ev.PublishFlush? ==> Harmless(s.disk.frames, s.disk.synced))
  {
    hide Inv, Enabled, Step, Harmless, Faithful, TruthfulAt;
    match ev
    case Append(f) => AppendTruthful(s, f);
    case PublishFlush(meta) =>
      LiveFaithful(s);
      PublishTruthful(s, meta);
    case ResetLog => CutTruthful(s, ev);
    case Crash(_, _, _) => CutTruthful(s, ev);
    case _ => SameTruthful(s, ev);
  }

  // ---------- the window of a flush, exactly ----------

  /**
   A flush does not sync the log before it publishes the table. Point reads show the plain
   map after every crash that may follow exactly when they show it now, and each cut the
   crash may make in the log changes nothing shown of the keys written before the cut.
   (Scans are right in any case.)
   */
  lemma FlushWindow(s: Store, meta: M.FileMeta)
    requires Inv(s) && Enabled(s, PublishFlush(meta))
    ensures RightAfterCrash(Step(s, PublishFlush(meta))) <==> ShowsRight(s) && Harmless(s.disk.frames, s.disk.synced)
  {
    hide Inv, Faithful, Harmless, ShowsRight, RightAfterCrash, Truthful, Enabled, Step;
    SyncedInLog(s);
    StepKeeps(s, PublishFlush(meta));
    CrashShows(Step(s, PublishFlush(meta)));
    PublishTruthful(s, meta);
    ShowsRightWhen(s);
  }

  /** A log no frame of which rewrites an earlier key without being durable is harmless. */
  lemma SafeHarmless(frames: seq<Frame>, synced: nat)
    requires Increasing(AllRecords(frames)) && FlushSafe(frames, synced)
    ensures Harmless(frames, synced)
  {
    hide AllRecords, FlushSafe, Dominant, Faithful;
    var l := AllRecords(frames);
    OwnDominant(l);
    DominantFaithful(l, l);
    forall p: nat | synced <= p <= |frames|
      ensures HarmlessCut(frames, p)
    {
      SafePrefix(frames, synced, p, l);
      DominantFaithful(AllRecords(frames[..p]), l);
      CutFaithful(frames, p, l);
    }
  }

  lemma OwnDominant(l: seq<Entry>)
    requires Increasing(l)
    ensures Dominant(l, l)
  {
    hide Increasing, Top, Latest;
    forall k
      ensures Find(Memtable(l), k) == Latest(l, k)
    {
      MemtableTop(l, k);
      LatestTop(l, k);
      TopUnique(Find(Memtable(l), k), Latest(l, k), k, Elems(l), l);
    }
  }

  // ---------- runs ----------

  /** Every flush of the run publishes its table when the log is harmless. */
  ghost predicate HarmlessRun(s: Store, evs: seq<Event>) {
    evs == [] ||
    (&& HarmlessRun(s, evs[..|evs| - 1])
     && (evs[|evs| - 1].PublishFlush? ==>
           var t := Run(s, evs[..|evs| - 1]);
           t.Some? && Harmless(t.value.disk.frames, t.value.disk.synced)))
  }

  lemma {:induction false} HarmlessRunTruthful(s: Store, evs: seq<Event>)
    requires Inv(s) && Truthful(s) && Run(s, evs).Some? && HarmlessRun(s, evs)
    ensures Truthful(Run(s, evs).value)
  {
    hide Truthful, Inv, Enabled, Step, Harmless;
    if evs != [] {
      var n := |evs| - 1;
      HarmlessRunTruthful(s, evs[..n]);
      RunKeeps(s, evs[..n]);
      StepTruthful(Run(s, evs[..n]).value, evs[n]);
    }
  }

  lemma {:induction false} HarmlessPrefix(s: Store, evs: seq<Event>, i: nat)
    requires HarmlessRun(s, evs) && i <= |evs|
    ensures HarmlessRun(s, evs[..i])
    decreases |evs|
  {
    hide Run, Harmless;
    if i < |evs| {
      var n := |evs| - 1;
      HarmlessPrefix(s, evs[..n], i);
      assert evs[..n][..i] == evs[..i];
    } else {
      assert evs[..i] == evs;
    }
  }

  /** A run whose states are all truthful publishes harmless logs only. */
  lemma {:induction false} TruthfulRunHarmless(s: Store, evs: seq<Event>)
    requires Inv(s) && Run(s, evs).Some?
    requires forall i :: 0 <= i <= |evs| ==> Run(s, evs[..i]).Some? && Truthful(Run(s, evs[..i]).value)
    ensures HarmlessRun(s, evs)
  {
    hide Truthful, Inv, Enabled, Step, Harmless;
    if evs != [] {
      var n := |evs| - 1;
      forall i | 0 <= i <= n
        ensures Run(s, evs[..n][..i]).Some? && Truthful(Run(s, evs[..n][..i]).value)
      {
        assert evs[..n][..i] == evs[..i];
      }
      TruthfulRunHarmless(s, evs[..n]);
      RunKeeps(s, evs[..n]);
      assert evs[..n + 1] == evs;
      assert Truthful(Run(s, evs[..n]).value) && Truthful(Run(s, evs[..n + 1]).value);
      StepTruthful(Run(s, evs[..n]).value, evs[n]);
    }
  }

  /** After a crash at any point of the run, point reads are right. */
  ghost predicate RightAnywhere(s: Store, evs: seq<Event>) {
    forall i :: 0 <= i <= |evs| ==> Run(s, evs[..i]).Some? && RightAfterCrash(Run(s, evs[..i]).value)
  }

  /**
   Whole runs, exactly: point reads show the plain map after a crash at any point of the
   run if and only if they do after a crash at its start, and each of its flushes published
   its table when the log was harmless. Then they show it throughout the run as well.
   */
  lemma RunShowsMap(s: Store, evs: seq<Event>)
    requires Inv(s) && Run(s, evs).Some?
    ensures RightAnywhere(s, evs) <==> Truthful(s) && HarmlessRun(s, evs)
    ensures Truthful(s) && HarmlessRun(s, evs) ==> ShowsRight(Run(s, evs).value) && Truthful(Run(s, evs).value)
  {
    hide Truthful, Inv, HarmlessRun, RightAfterCrash, ShowsRight, Faithful;
    forall i: nat | i <= |evs|
      ensures Run(s, evs[..i]).Some? && Inv(Run(s, evs[..i]).value)
      ensures RightAfterCrash(Run(s, evs[..i]).value) <==> Truthful(Run(s, evs[..i]).value)
      ensures Truthful(s) && HarmlessRun(s, evs) ==> Truthful(Run(s, evs[..i]).value)
    {
      RunPrefix(s, evs, i);
      RunKeeps(s, evs[..i]);
      CrashShows(Run(s, evs[..i]).value);
      if Truthful(s) && HarmlessRun(s, evs) {
        HarmlessPrefix(s, evs, i);
        HarmlessRunTruthful(s, evs[..i]);
      }
    }
    if RightAnywhere(s, evs) {
      assert evs[..0] == [];
      TruthfulRunHarmless(s, evs);
    }
    if Truthful(s) && HarmlessRun(s, evs) {
      assert evs[..|evs|] == evs;
      LiveFaithful(Run(s, evs).value);
      ShowsRightWhen(Run(s, evs).value);
    }
  }

  /** Runs whose flushes find the log safe are among them, and so those that sync every append. */
  lemma {:induction false} SafeRunHarmless(s: Store, evs: seq<Event>)
    requires Inv(s) && Run(s, evs).Some? && SafeRun(s, evs)
    ensures HarmlessRun(s, evs)
  {
    hide Inv, Enabled, Step, Harmless, FlushSafe;
    if evs != [] {
      var n := |evs| - 1;
      SafeRunHarmless(s, evs[..n]);
      RunKeeps(s, evs[..n]);
      if evs[n].PublishFlush? {
        LogIncreasing(Run(s, evs[..n]).value);
        SafeHarmless(Run(s, evs[..n]).value.disk.frames, Run(s, evs[..n]).value.disk.synced);
      }
    }
  }

  lemma FullRunHarmless(s: Store, evs: seq<Event>)
    requires Inv(s) && Run(s, evs).Some? && FullRun(s.policy, evs)
    ensures HarmlessRun(s, evs)
  {
    hide Inv, Run, FullRun, SafeRun, HarmlessRun;
    FullRunSafe(s, evs);
    SafeRunHarmless(s, evs);
  }

  lemma LogIncreasing(s: Store)
    requires Inv(s)
    ensures Increasing(AllRecords(s.disk.frames))
  {
    hide Held, AllRecords, Tables, FilesOk, Numbers, JobOk, WithinPolicy;
    LiveSurvives(s);
  }
}
