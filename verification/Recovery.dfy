/**
 What every step of the engine keeps: the files the manifest names are there and distinct,
 numbers only grow, and from whatever a crash leaves the store is recovered to a prefix of
 its history.
 */
module Recovery {
  import opened Bytes
  import opened Entries
  import opened Wal
  import opened WalLog
  import opened History
  import opened Engine
  import Merge
  import M = Manifest

  // ---------- the files of the manifest ----------

  ghost predicate Named(name: Data, bound: nat) {
    exists n: nat :: n < bound && name == M.FileName(n)
  }

  ghost predicate FileOk(f: M.FileMeta, files: map<Data, seq<Entry>>, bound: nat) {
    Named(f.name, bound) && f.name in files && Sorted(files[f.name]) && f.maxSeq == MaxSeqno(files[f.name])
  }

  ghost predicate Distinct(fs: seq<M.FileMeta>) {
    forall i, j :: 0 <= i < j < |fs| ==> fs[i].name != fs[j].name
  }

  /** Every named file is on disk, is a sorted table, and bears a number below `bound`. */
  ghost predicate FilesOk(fs: seq<M.FileMeta>, files: map<Data, seq<Entry>>, bound: nat) {
    Distinct(fs) && forall f :: f in fs ==> FileOk(f, files, bound)
  }

  lemma FilesSame(m: M.State, files: map<Data, seq<Entry>>, files': map<Data, seq<Entry>>, bound: nat, bound': nat)
    requires FilesOk(m.files, files, bound) && SameNamed(m, files, files') && bound <= bound'
    ensures FilesOk(m.files, files', bound') && Contents(m.files, files') == Contents(m.files, files)
  {
    forall f | f in m.files
      ensures FileOk(f, files', bound')
    {
      assert FileOk(f, files, bound);
      var i :| 0 <= i < |m.files| && m.files[i] == f;
      var n: nat :| n < bound && f.name == M.FileName(n);
    }
  }

  /** A number not yet handed out names no file of the manifest. */
  lemma FreshName(m: M.State, files: map<Data, seq<Entry>>, n: nat)
    requires FilesOk(m.files, files, n)
    ensures forall i :: 0 <= i < |m.files| ==> m.files[i].name in files && m.files[i].name != M.FileName(n)
  {
    forall i | 0 <= i < |m.files|
      ensures m.files[i].name in files && m.files[i].name != M.FileName(n)
    {
      assert FileOk(m.files[i], files, n);
      var k: nat :| k < n && m.files[i].name == M.FileName(k);
      M.FileNameInjective(k, n);
    }
  }

  lemma {:induction false} WithoutMembers(fs: seq<M.FileMeta>, names: set<Data>)
    ensures forall f :: f in M.Without(fs, names) <==> f in fs && f.name !in names
  {
    if fs != [] {
      var n := |fs| - 1;
      WithoutMembers(fs[..n], names);
      assert fs == fs[..n] + [fs[n]];
    }
  }

  lemma {:induction false} WithoutDistinct(fs: seq<M.FileMeta>, names: set<Data>)
    requires Distinct(fs)
    ensures Distinct(M.Without(fs, names))
  {
    if fs != [] {
      var n := |fs| - 1;
      WithoutDistinct(fs[..n], names);
      WithoutMembers(fs[..n], names);
      forall f | f in M.Without(fs[..n], names)
        ensures f.name != fs[n].name
      {
        var i :| 0 <= i < n && fs[i] == f;
      }
      DistinctAppend(M.Without(fs[..n], names), fs[n]);
    }
  }

  lemma DistinctAppend(fs: seq<M.FileMeta>, f: M.FileMeta)
    requires Distinct(fs) && forall g :: g in fs ==> g.name != f.name
    ensures Distinct(fs + [f])
  {
  }

  lemma {:induction false} WithoutNone(fs: seq<M.FileMeta>)
    ensures M.Without(fs, {}) == fs
  {
    if fs != [] {
      var n := |fs| - 1;
      WithoutNone(fs[..n]);
      assert fs == fs[..n] + [fs[n]];
    }
  }

  lemma {:induction false} OnlyMembers(fs: seq<M.FileMeta>, names: set<Data>)
    ensures forall f :: f in Only(fs, names) <==> f in fs && f.name in names
    ensures |Only(fs, names)| + |M.Without(fs, names)| == |fs|
  {
    if fs != [] {
      var n := |fs| - 1;
      OnlyMembers(fs[..n], names);
      assert fs == fs[..n] + [fs[n]];
    }
  }

  lemma FilesPublish(fs: seq<M.FileMeta>, files: map<Data, seq<Entry>>, remove: set<Data>, n: nat, meta: M.FileMeta)
    requires FilesOk(fs, files, n)
    requires meta.name == M.FileName(n) && meta.name in files && Sorted(files[meta.name])
      && meta.maxSeq == MaxSeqno(files[meta.name])
    ensures FilesOk(M.Without(fs, remove) + [meta], files, n + 1)
  {
    WithoutMembers(fs, remove);
    WithoutDistinct(fs, remove);
    var kept := M.Without(fs, remove);
    forall f | f in kept + [meta]
      ensures FileOk(f, files, n + 1) && (f in kept ==> f.name != meta.name)
    {
      if f in kept {
        assert FileOk(f, files, n);
        var k: nat :| k < n && f.name == M.FileName(k);
        M.FileNameInjective(k, n);
      } else {
        assert n < n + 1 && meta.name == M.FileName(n);
      }
    }
  }

  ghost function HeldBy(fs: seq<M.FileMeta>, files: map<Data, seq<Entry>>): set<Entry> {
    Held(Contents(fs, files))
  }

  lemma HeldByMember(fs: seq<M.FileMeta>, files: map<Data, seq<Entry>>, e: Entry)
    ensures e in HeldBy(fs, files) <==> exists f :: f in fs && e in Load(files, f.name)
  {
    var ts := Contents(fs, files);
    if e in HeldBy(fs, files) {
      var t :| t in ts && e in t;
      var i :| 0 <= i < |ts| && ts[i] == t;
      assert fs[i] in fs;
    }
    if f :| f in fs && e in Load(files, f.name) {
      var i :| 0 <= i < |fs| && fs[i] == f;
      assert ts[i] in ts;
    }
  }

  /** The inputs of a merge and the other tables together hold what all tables hold. */
  lemma HeldParts(fs: seq<M.FileMeta>, files: map<Data, seq<Entry>>, names: set<Data>)
    ensures HeldBy(fs, files) == HeldBy(M.Without(fs, names), files) + HeldBy(Only(fs, names), files)
  {
    WithoutMembers(fs, names);
    OnlyMembers(fs, names);
    forall e
      ensures e in HeldBy(fs, files) <==> e in HeldBy(M.Without(fs, names), files) + HeldBy(Only(fs, names), files)
    {
      HeldByMember(fs, files, e);
      HeldByMember(M.Without(fs, names), files, e);
      HeldByMember(Only(fs, names), files, e);
    }
  }

  lemma HeldPublish(fs: seq<M.FileMeta>, files: map<Data, seq<Entry>>, meta: M.FileMeta)
    ensures HeldBy(fs + [meta], files) == HeldBy(fs, files) + Elems(Load(files, meta.name))
  {
    assert Contents(fs + [meta], files) == Contents(fs, files) + [Load(files, meta.name)];
    HeldAppend(Contents(fs, files), Load(files, meta.name));
  }

  lemma TablesSorted(fs: seq<M.FileMeta>, files: map<Data, seq<Entry>>, bound: nat)
    requires forall f :: f in fs ==> FileOk(f, files, bound)
    ensures Merge.AllSorted(Contents(fs, files))
  {
    forall i | 0 <= i < |fs|
      ensures Sorted(Contents(fs, files)[i])
    {
      assert fs[i] in fs;
    }
  }

  /** A merge of tables out of one history keeps exactly the newest version of every key. */
  lemma MergeKeeps(inputs: seq<seq<Entry>>, r: seq<Entry>)
    requires Merge.AllSorted(inputs) && Increasing(r) && Held(inputs) <= Elems(r)
    ensures var out := Merge.Merged(inputs, false);
            && Sorted(out) && Elems(out) <= Held(inputs)
            && forall e :: e in Held(inputs) && Top(Some(e), e.key, Held(inputs)) ==> e in out
  {
    var out := Merge.Merged(inputs, false);
    Merge.MergedFinds(inputs, false, []);
    assert inputs[..|inputs|] == inputs;
    forall e | e in out
      ensures e in Held(inputs)
    {
      Merge.MergedFinds(inputs, false, e.key);
      NewestTop(inputs, |inputs|, e.key);
      FindMember(out, e);
    }
    forall e | e in Held(inputs) && Top(Some(e), e.key, Held(inputs))
      ensures e in out
    {
      Merge.MergedFinds(inputs, false, e.key);
      NewestTop(inputs, |inputs|, e.key);
      TopUnique(Some(e), Merge.NewestTo(inputs, |inputs|, e.key), e.key, Held(inputs), r);
    }
  }

  // ---------- the invariant ----------

  /** The number up to which file names have been published. */
  function Bound(s: Store): nat {
    match s.job
    case FlushNamed(n) => n
    case FlushWritten(n) => n
    case MergeNamed(_, n) => n
    case MergeWritten(_, n) => n
    case _ => s.disk.manifest.nextFile
  }

  ghost predicate Numbers(s: Store) {
    && (forall e :: e in Past(s) ==> e.seqno <= s.nextSeq)
    && s.disk.manifest.logSeq <= s.nextSeq
    && (forall i :: 0 <= i < |s.disk.frames| ==> Sound(s.disk.frames[i]))
    && forall i :: 0 <= i < |s.history| ==> Sound(s.history[i])
  }

  /** What is left when `p` frames of the log survive represents what survives of the history. */
  ghost predicate Survives(s: Store, p: nat)
    requires p <= |s.disk.frames|
  {
    Represents(Held(Tables(s.disk)), AllRecords(s.disk.frames[..p]), AllRecords(Surviving(s, p)))
  }

  ghost predicate Recoverable(s: Store) {
    && s.disk.synced <= |s.disk.frames| && |s.disk.frames| - s.disk.synced <= |s.history|
    && forall p: nat :: s.disk.synced <= p <= |s.disk.frames| ==> Survives(s, p)
  }

  ghost predicate JobOk(s: Store) {
    && Bound(s) <= s.disk.manifest.nextFile
    && match s.job
       case FlushNamed(n) => n + 1 == s.disk.manifest.nextFile
       case FlushWritten(n) =>
         n + 1 == s.disk.manifest.nextFile && M.FileName(n) in s.disk.files
           && s.disk.files[M.FileName(n)] == Mem(s.disk)
       case FlushPublished => Represents(Held(Tables(s.disk)), [], Past(s))
       case MergeNamed(inputs, n) => n + 1 == s.disk.manifest.nextFile && inputs <= NamesOf(s.disk.manifest.files)
       case MergeWritten(inputs, n) =>
         n + 1 == s.disk.manifest.nextFile && inputs <= NamesOf(s.disk.manifest.files)
         && M.FileName(n) in s.disk.files && s.disk.files[M.FileName(n)] == MergeOf(s.disk, inputs)
       case Removing(names) => forall i :: 0 <= i < |s.disk.manifest.files| ==> s.disk.manifest.files[i].name !in names
       case _ => true
  }

  ghost predicate WithinPolicy(s: Store)
    requires s.disk.synced <= |s.disk.frames|
  {
    var unsynced := |s.disk.frames| - s.disk.synced;
    if s.job.Syncing? then s.appends > 0 && unsynced > 0 && s.policy.Allows(s.appends - 1, unsynced - 1)
    else s.policy.Allows(s.appends, unsynced)
  }

  ghost predicate Inv(s: Store) {
    && FilesOk(s.disk.manifest.files, s.disk.files, Bound(s))
    && Numbers(s) && Recoverable(s) && JobOk(s) && WithinPolicy(s)
  }

  /** The live store, between operations, represents its whole history. */
  lemma LiveSurvives(s: Store)
    requires Recoverable(s)
    ensures Represents(Held(Tables(s.disk)), AllRecords(s.disk.frames), Past(s))
  {
    hide Represents, Held, Tables;
    assert Survives(s, |s.disk.frames|);
    assert s.disk.frames[..|s.disk.frames|] == s.disk.frames;
    assert Surviving(s, |s.disk.frames|) == s.history;
  }

  // ---------- what each step keeps ----------

  /** Steps that leave log, history and tables alone. */
  lemma RecoverableSame(s: Store, s': Store)
    requires Recoverable(s) && s'.disk.frames == s.disk.frames && s'.disk.synced == s.disk.synced
      && s'.history == s.history
    requires Tables(s'.disk) == Tables(s.disk) && !s.job.FlushPublished? && !s'.job.FlushPublished?
    ensures Recoverable(s')
  {
    hide Represents, Held, Tables, AllRecords;
    forall p: nat | s'.disk.synced <= p <= |s'.disk.frames|
      ensures Survives(s', p)
    {
      assert Survives(s, p);
      assert Surviving(s', p) == Surviving(s, p);
    }
  }

  /** Records numbered consecutively above everything before. */
  lemma {:induction false} RepresentsFrame(held: set<Entry>, l: seq<Entry>, r: seq<Entry>, es: seq<Entry>, after: nat)
    requires Represents(held, l, r) && forall x :: x in r ==> x.seqno <= after
    requires forall i :: 0 <= i < |es| ==> es[i].seqno == after + i + 1
    ensures Represents(held, l + es, r + es) && forall x :: x in r + es ==> x.seqno <= after + |es|
    decreases |es|
  {
    hide Represents;
    if es == [] {
      assert l + es == l && r + es == r;
    } else {
      var n := |es| - 1;
      RepresentsFrame(held, l, r, es[..n], after);
      RepresentsAppend(held, l + es[..n], r + es[..n], es[n]);
      assert es == es[..n] + [es[n]];
      assert l + es == l + es[..n] + [es[n]] && r + es == r + es[..n] + [es[n]];
    }
  }

  lemma AppendKeeps(s: Store, f: Frame)
    requires Inv(s) && Enabled(s, Append(f))
    ensures Inv(Step(s, Append(f)))
  {
    hide Represents, Held, Tables, AllRecords, FilesOk, Sound, Records;
    var s' := Step(s, Append(f));
    var l := s.disk.frames;
    assert Tables(s'.disk) == Tables(s.disk) by {
      TablesDepend(s'.disk, s.disk);
    }
    LiveSurvives(s);
    AllRecordsAppend(l, f);
    AllRecordsAppend(s.history, f);
    RepresentsFrame(Held(Tables(s.disk)), AllRecords(l), Past(s), Records(f), s.nextSeq);
    forall p: nat | s'.disk.synced <= p <= |s'.disk.frames|
      ensures Survives(s', p)
    {
      if p <= |l| {
        assert Survives(s, p);
        assert s'.disk.frames[..p] == l[..p];
        assert Surviving(s', p) == Surviving(s, p);
      } else {
        assert s'.disk.frames[..p] == l + [f] && Surviving(s', p) == s.history + [f];
      }
    }
    NextAllowed(s.policy, s.appends, |l| - s.disk.synced);
  }

  lemma TablesDepend(d: Disk, d': Disk)
    requires d.manifest.files == d'.manifest.files && d.files == d'.files
    ensures Tables(d) == Tables(d')
  {
  }

  lemma SyncKeeps(s: Store)
    requires Inv(s) && Enabled(s, Sync)
    ensures Inv(Step(s, Sync))
  {
    hide Represents, Held, Tables, AllRecords, FilesOk, Sound;
    var s' := Step(s, Sync);
    TablesDepend(s'.disk, s.disk);
    assert Survives(s, |s.disk.frames|);
    assert Surviving(s', |s.disk.frames|) == Surviving(s, |s.disk.frames|);
  }

  lemma SkipKeeps(s: Store, n: nat)
    requires Inv(s) && Enabled(s, Skip(n))
    ensures Inv(Step(s, Skip(n)))
  {
    hide Represents, Held, Tables, AllRecords, FilesOk, Sound;
    RecoverableSame(s, Step(s, Skip(n)));
  }

  /** Handing out a file number. */
  lemma AllocKeeps(s: Store, ev: Event)
    requires Inv(s) && Enabled(s, ev) && (ev.StartFlush? || ev.StartMerge?)
    ensures Inv(Step(s, ev))
  {
    hide Represents, Held, Tables, AllRecords, FilesOk, Sound, Memtable;
    TablesDepend(Step(s, ev).disk, s.disk);
    RecoverableSame(s, Step(s, ev));
  }

  /** Writing a table under a number that is not published. */
  lemma WriteKeeps(s: Store, ev: Event)
    requires Inv(s) && Enabled(s, ev) && (ev.WriteFlush? || ev.WriteMerge?)
    ensures Inv(Step(s, ev))
  {
    hide Represents, Held, AllRecords, FilesOk, Sound, Memtable, Only, Merge.Merged;
    var s' := Step(s, ev);
    var m, n := s.disk.manifest, s.job.n;
    FreshName(m, s.disk.files, n);
    FilesSame(m, s.disk.files, s'.disk.files, n, n);
    RecoverableSame(s, s');
    if ev.WriteMerge? {
      MergeOfSame(s.disk, s'.disk, s.job.inputs, n);
    }
  }

  lemma MergeOfSame(d: Disk, d': Disk, inputs: set<Data>, n: nat)
    requires FilesOk(d.manifest.files, d.files, n) && d'.manifest.files == d.manifest.files
    requires forall name :: name != M.FileName(n) ==> Load(d'.files, name) == Load(d.files, name)
    ensures MergeOf(d', inputs) == MergeOf(d, inputs)
  {
    var fs := Only(d.manifest.files, inputs);
    OnlyMembers(d.manifest.files, inputs);
    FreshName(d.manifest, d.files, n);
    forall i | 0 <= i < |fs|
      ensures fs[i].name != M.FileName(n)
    {
      assert fs[i] in fs;
    }
    assert Contents(fs, d'.files) == Contents(fs, d.files);
  }

  /** Giving up a table that could not be written. */
  lemma AbandonKeeps(s: Store)
    requires Inv(s) && Enabled(s, AbandonFlush)
    ensures Inv(Step(s, AbandonFlush))
  {
    hide Represents, Held, AllRecords, FilesOk, Sound, Memtable;
    var s' := Step(s, AbandonFlush);
    var m, n := s.disk.manifest, s.job.n;
    FreshName(m, s.disk.files, n);
    FilesSame(m, s.disk.files, s'.disk.files, n, n + 1);
    RecoverableSame(s, s');
  }

  lemma RecordsPrefix(fs: seq<Frame>, p: nat)
    requires p <= |fs|
    ensures Elems(AllRecords(fs[..p])) <= Elems(AllRecords(fs))
  {
    AllRecordsConcat(fs[..p], fs[p..]);
    assert fs == fs[..p] + fs[p..];
  }

  /** The manifest takes up a table that holds what the log holds. */
  lemma PublishFlushKeeps(s: Store, meta: M.FileMeta)
    requires Inv(s) && Enabled(s, PublishFlush(meta))
    ensures Inv(Step(s, PublishFlush(meta)))
  {
    hide Represents, Held, AllRecords, FilesOk, Sound, Memtable, M.Without;
    var s' := Step(s, PublishFlush(meta));
    var d, l := s.disk, AllRecords(s.disk.frames);
    LiveSurvives(s);
    FlushedSorted(l);
    FilesPublish(d.manifest.files, d.files, {}, s.job.n, meta);
    WithoutNone(d.manifest.files);
    HeldPublish(d.manifest.files, d.files, meta);
    FlushRepresents(Held(Tables(d)), l, Past(s), []);
    assert AllRecords(d.frames[..0]) == [] by {
      NoRecords(d.frames);
    }
    forall p: nat | s'.disk.synced <= p <= |s'.disk.frames|
      ensures Survives(s', p)
    {
      assert Survives(s, p);
      RecordsPrefix(d.frames, p);
      FlushRepresentsPrefix(Held(Tables(d)), l, Past(s), AllRecords(d.frames[..p]), AllRecords(Surviving(s, p)));
    }
    FlushedNumbers(l, Past(s), Held(Tables(d)), s.nextSeq);
  }

  lemma NoRecords(fs: seq<Frame>)
    ensures AllRecords(fs[..0]) == []
  {
  }

  lemma FlushedSorted(l: seq<Entry>)
    ensures Sorted(Memtable(l))
  {
    MemtableTop(l, []);
  }

  lemma FlushRepresents(held: set<Entry>, l: seq<Entry>, r: seq<Entry>, m: seq<Entry>)
    requires Represents(held, l, r) && Increasing(m) && Elems(m) <= Elems(l)
    ensures Represents(held + Elems(Memtable(l)), m, r)
  {
    RepresentsFlush(held, l, r, m);
  }

  lemma FlushRepresentsPrefix(held: set<Entry>, l: seq<Entry>, r: seq<Entry>, m: seq<Entry>, q: seq<Entry>)
    requires Represents(held, l, r) && Represents(held, m, q) && Elems(m) <= Elems(l)
    ensures Represents(held + Elems(Memtable(l)), m, r)
  {
    RepresentsFlush(held, l, r, m);
  }

  lemma {:induction false} MaxSeqnoAtMost(es: seq<Entry>, n: nat)
    requires forall e :: e in es ==> e.seqno <= n
    ensures MaxSeqno(es) <= n
  {
    if es != [] {
      MaxSeqnoAtMost(es[1..], n);
    }
  }

  lemma FlushedNumbers(l: seq<Entry>, r: seq<Entry>, held: set<Entry>, n: nat)
    requires Represents(held, l, r) && forall e :: e in r ==> e.seqno <= n
    ensures MaxSeqno(Memtable(l)) <= n
  {
    MemtableElems(l);
    forall e | e in Memtable(l)
      ensures e.seqno <= n
    {
      assert e in Elems(Memtable(l)) && e in Elems(l) && e in Elems(r);
    }
    MaxSeqnoAtMost(Memtable(l), n);
  }

  lemma ResetKeeps(s: Store)
    requires Inv(s) && Enabled(s, ResetLog)
    ensures Inv(Step(s, ResetLog))
  {
    hide Represents, Held, Tables, FilesOk, Sound;
    var s' := Step(s, ResetLog);
    TablesDepend(s'.disk, s.disk);
    assert Surviving(s', 0) == s.history;
    assert s'.disk.frames[..0] == [];
  }

  /** What the tables hold after a merge has taken the place of its inputs. */
  lemma MergeHolds(d: Disk, inputs: set<Data>, r: seq<Entry>, n: nat, meta: M.FileMeta)
    requires FilesOk(d.manifest.files, d.files, n) && Increasing(r) && Held(Tables(d)) <= Elems(r)
    requires Load(d.files, meta.name) == MergeOf(d, inputs)
    ensures Sorted(MergeOf(d, inputs)) && Elems(MergeOf(d, inputs)) <= Held(Tables(d))
    ensures var held' := HeldBy(M.Without(d.manifest.files, inputs) + [meta], d.files);
            && held' <= Held(Tables(d))
            && forall e :: e in Held(Tables(d)) && Top(Some(e), e.key, Held(Tables(d))) ==> e in held'
  {
    hide Held, Merge.Merged, M.Without, Only, Sorted;
    var fs, kept, only := d.manifest.files, M.Without(d.manifest.files, inputs), Only(d.manifest.files, inputs);
    OnlyMembers(fs, inputs);
    TablesSorted(only, d.files, n);
    HeldParts(fs, d.files, inputs);
    MergeKeeps(Contents(only, d.files), r);
    HeldPublish(kept, d.files, meta);
    forall e | e in HeldBy(only, d.files) && Top(Some(e), e.key, Held(Tables(d)))
      ensures e in MergeOf(d, inputs)
    {
      assert Top(Some(e), e.key, HeldBy(only, d.files));
    }
  }

  lemma PublishMergeKeeps(s: Store, meta: M.FileMeta)
    requires Inv(s) && Enabled(s, PublishMerge(meta))
    ensures Inv(Step(s, PublishMerge(meta)))
  {
    hide Represents, Held, AllRecords, FilesOk, Sound, M.Without, MergeOf, Contents, Top;
    var s' := Step(s, PublishMerge(meta));
    var d, inputs := s.disk, s.job.inputs;
    LiveSurvives(s);
    WithinHistory(Held(Tables(d)), AllRecords(d.frames), Past(s));
    MergeHolds(d, inputs, Past(s), s.job.n, meta);
    FilesPublish(d.manifest.files, d.files, inputs, s.job.n, meta);
    forall p: nat | s'.disk.synced <= p <= |s'.disk.frames|
      ensures Survives(s', p)
    {
      assert Survives(s, p);
      assert Surviving(s', p) == Surviving(s, p);
      RepresentsReplace(Held(Tables(d)), Held(Tables(s'.disk)), AllRecords(d.frames[..p]), AllRecords(Surviving(s, p)));
    }
    HeldNumbers(MergeOf(d, inputs), Held(Tables(d)), Past(s), s.nextSeq);
    NoneRemoved(d.manifest.files, d.files, inputs, s.job.n, meta);
  }

  lemma WithinHistory(held: set<Entry>, l: seq<Entry>, r: seq<Entry>)
    requires Represents(held, l, r)
    ensures Increasing(r) && held <= Elems(r)
  {
  }

  lemma HeldNumbers(es: seq<Entry>, held: set<Entry>, r: seq<Entry>, n: nat)
    requires Elems(es) <= held && held <= Elems(r) && forall e :: e in r ==> e.seqno <= n
    ensures MaxSeqno(es) <= n
  {
    forall e | e in es
      ensures e.seqno <= n
    {
      assert e in Elems(es) && e in Elems(r);
    }
    MaxSeqnoAtMost(es, n);
  }

  /** The inputs are older files, so none of them is left in the manifest. */
  lemma NoneRemoved(fs: seq<M.FileMeta>, files: map<Data, seq<Entry>>, inputs: set<Data>, n: nat, meta: M.FileMeta)
    requires FilesOk(fs, files, n) && inputs <= NamesOf(fs) && meta.name == M.FileName(n)
    ensures var fs' := M.Without(fs, inputs) + [meta]; forall i :: 0 <= i < |fs'| ==> fs'[i].name !in inputs
  {
    WithoutMembers(fs, inputs);
    var kept := M.Without(fs, inputs);
    forall i | 0 <= i < |kept|
      ensures kept[i].name !in inputs
    {
      assert kept[i] in kept;
    }
    if meta.name in inputs {
      var f :| f in fs && f.name == meta.name;
      assert FileOk(f, files, n);
      var k: nat :| k < n && meta.name == M.FileName(k);
      M.FileNameInjective(k, n);
    }
  }

  lemma RemoveKeeps(s: Store, name: Data)
    requires Inv(s) && Enabled(s, Remove(name))
    ensures Inv(Step(s, Remove(name)))
  {
    hide Represents, Held, AllRecords, FilesOk, Sound;
    var s' := Step(s, Remove(name));
    var m := s.disk.manifest;
    assert SameNamed(m, s.disk.files, s'.disk.files) by {
      hide *;
      NamedRemain(m, s.disk.files, name, Bound(s));
    }
    FilesSame(m, s.disk.files, s'.disk.files, Bound(s), Bound(s'));
    RecoverableSame(s, s');
  }

  lemma NamedRemain(m: M.State, files: map<Data, seq<Entry>>, name: Data, bound: nat)
    requires FilesOk(m.files, files, bound) && forall i :: 0 <= i < |m.files| ==> m.files[i].name != name
    ensures SameNamed(m, files, files - {name})
  {
    forall i | 0 <= i < |m.files|
      ensures m.files[i].name in files
    {
      assert FileOk(m.files[i], files, bound);
    }
  }

  lemma {:induction false} MaxFileSeqBound(fs: seq<M.FileMeta>, f: M.FileMeta)
    requires f in fs
    ensures f.maxSeq <= M.MaxFileSeq(fs)
  {
    var n := |fs| - 1;
    assert fs == fs[..n] + [fs[n]];
    if f != fs[n] {
      MaxFileSeqBound(fs[..n], f);
    }
  }

  /** The counter after recovery is not below any number that survives. */
  lemma RecoveredCovers(m: M.State, files: map<Data, seq<Entry>>, bound: nat, frames: seq<Frame>, r: seq<Entry>)
    requires FilesOk(m.files, files, bound) && Represents(HeldBy(m.files, files), AllRecords(frames), r)
    ensures forall e :: e in r ==> e.seqno <= RecoveredSeq(m, frames)
  {
    hide Held, AllRecords;
    if r != [] {
      var last := r[|r| - 1];
      assert Latest(r, last.key) == Some(last);
      assert Top(Latest(r, last.key), last.key, HeldBy(m.files, files) + Elems(AllRecords(frames)));
      if last in AllRecords(frames) {
        MaxSeqnoBound(AllRecords(frames), last);
      } else {
        HeldByMember(m.files, files, last);
        var f :| f in m.files && last in Load(files, f.name);
        assert FileOk(f, files, bound);
        MaxSeqnoBound(files[f.name], last);
        MaxFileSeqBound(m.files, f);
      }
    }
  }

  /** And it is one of the numbers found in log or manifest, or zero when there is none. */
  lemma RecoveredMet(m: M.State, frames: seq<Frame>)
    ensures var n := RecoveredSeq(m, frames);
            || n == 0 || n == m.logSeq || (exists e :: e in AllRecords(frames) && e.seqno == n)
            || exists f :: f in m.files && f.maxSeq == n
  {
    hide AllRecords;
    MaxSeqnoMet(AllRecords(frames));
    M.MaxFileSeqMet(m.files);
  }

  lemma CrashKeeps(s: Store, p: nat, files: map<Data, seq<Entry>>, policy: SyncPolicy)
    requires Inv(s) && Enabled(s, Crash(p, files, policy))
    ensures Inv(Step(s, Crash(p, files, policy)))
  {
    hide Represents, Held, AllRecords, FilesOk, Sound;
    var s' := Step(s, Crash(p, files, policy));
    var m := s.disk.manifest;
    FilesSame(m, s.disk.files, files, Bound(s), m.nextFile);
    assert Survives(s, p);
    assert s'.disk.frames[..p] == s.disk.frames[..p];
    assert Surviving(s', p) == s'.history;
    RecoveredCovers(m, files, m.nextFile, s'.disk.frames, Past(s'));
  }

  /** Every step keeps the invariant. */
  lemma StepKeeps(s: Store, ev: Event)
    requires Inv(s) && Enabled(s, ev)
    ensures Inv(Step(s, ev))
  {
    hide Inv;
    match ev
    case Append(f) => AppendKeeps(s, f);
    case Skip(n) => SkipKeeps(s, n);
    case Sync => SyncKeeps(s);
    case StartFlush => AllocKeeps(s, ev);
    case WriteFlush => WriteKeeps(s, ev);
    case AbandonFlush => AbandonKeeps(s);
    case PublishFlush(meta) => PublishFlushKeeps(s, meta);
    case ResetLog => ResetKeeps(s);
    case StartMerge(_) => AllocKeeps(s, ev);
    case WriteMerge => WriteKeeps(s, ev);
    case PublishMerge(meta) => PublishMergeKeeps(s, meta);
    case Remove(name) => RemoveKeeps(s, name);
    case Crash(p, files, policy) => CrashKeeps(s, p, files, policy);
  }
}
