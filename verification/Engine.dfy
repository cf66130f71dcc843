/**
 The engine as a state machine over its durable writes (`lsmkv/write.go`, `open.go`,
 `compact.go`): every log append, sync, manifest rename, table write and file removal is
 one step, and a crash with the recovery that follows it may happen between any two.

 The history is the list of frames whose effects the store holds; a crash may cut it.
 */
module Engine {
  import opened Bytes
  import opened Entries
  import opened Wal
  import opened WalLog
  import opened History
  import Merge
  import M = Manifest

  datatype Disk = Disk(files: map<Data, seq<Entry>>, manifest: M.State, frames: seq<Frame>, synced: nat)

  /** How far an operation of several durable writes has come. */
  datatype Job =
    | Idle
    | Syncing                                       // a frame is in the log, its sync is due
    | FlushNamed(n: nat)
    | FlushWritten(n: nat)
    | FlushPublished                                // the manifest names the table, the log is still there
    | MergeNamed(inputs: set<Data>, n: nat)
    | MergeWritten(inputs: set<Data>, n: nat)
    | Removing(names: set<Data>)                    // the manifest no longer names these files

  datatype Store = Store(disk: Disk, nextSeq: nat, appends: nat, job: Job, history: seq<Frame>, policy: SyncPolicy)

  datatype Event =
    | Append(frame: Frame)
    | Skip(count: nat)                              // numbers used up by a refused append
    | Sync
    | StartFlush
    | WriteFlush
    | AbandonFlush                                  // the table could not be written; nothing of it stays
    | PublishFlush(meta: M.FileMeta)
    | ResetLog
    | StartMerge(inputs: set<Data>)
    | WriteMerge
    | PublishMerge(meta: M.FileMeta)
    | Remove(name: Data)
    | Crash(p: nat, files: map<Data, seq<Entry>>, policy: SyncPolicy)
      // `p` frames survive, files not named may be anything, and the store is opened under a policy

  // ---------- what is on disk ----------

  function Load(files: map<Data, seq<Entry>>, name: Data): seq<Entry> {
    if name in files then files[name] else []
  }

  function Contents(metas: seq<M.FileMeta>, files: map<Data, seq<Entry>>): (ts: seq<seq<Entry>>)
    ensures |ts| == |metas| && forall i :: 0 <= i < |ts| ==> ts[i] == Load(files, metas[i].name)
  {
    seq(|metas|, i requires 0 <= i < |metas| => Load(files, metas[i].name))
  }

  /** The tables of the manifest, in its order. */
  function Tables(d: Disk): seq<seq<Entry>> {
    Contents(d.manifest.files, d.files)
  }

  /** The memtable: what replaying the log gives. */
  function Mem(d: Disk): seq<Entry> {
    Memtable(AllRecords(d.frames))
  }

  function Past(s: Store): seq<Entry> {
    AllRecords(s.history)
  }

  /** The files named in `names`, in their order. */
  function Only(fs: seq<M.FileMeta>, names: set<Data>): seq<M.FileMeta> {
    if fs == [] then []
    else
      var rest := Only(fs[..|fs| - 1], names);
      if fs[|fs| - 1].name in names then rest + [fs[|fs| - 1]] else rest
  }

  ghost function NamesOf(fs: seq<M.FileMeta>): set<Data> {
    set f | f in fs :: f.name
  }

  /** The table a merge of the named inputs writes. */
  function MergeOf(d: Disk, inputs: set<Data>): seq<Entry> {
    Merge.Merged(Contents(Only(d.manifest.files, inputs), d.files), false)
  }

  /** What the manifest records about a table. */
  predicate Describes(meta: M.FileMeta, name: Data, level: nat, es: seq<Entry>) {
    && meta.name == name && meta.level == level && meta.maxSeq == MaxSeqno(es) && meta.entries == |es|
    && (es != [] ==> meta.minKey == es[0].key && meta.maxKey == es[|es| - 1].key)
  }

  /** The record of a table under number `n`. */
  function MetaFor(n: nat, level: nat, es: seq<Entry>, size: nat): M.FileMeta {
    M.FileMeta(M.FileName(n), level, if es == [] then [] else es[0].key, if es == [] then [] else es[|es| - 1].key,
               MaxSeqno(es), |es|, size)
  }

  lemma MetaDescribes(n: nat, level: nat, es: seq<Entry>, size: nat)
    ensures Describes(MetaFor(n, level, es, size), M.FileName(n), level, es)
  {
  }

  // ---------- steps ----------

  function DropLast<T>(h: seq<T>, n: int): seq<T> {
    if 0 <= n <= |h| then h[..|h| - n] else []
  }

  /**
   What of the history survives a crash that keeps `p` frames of the log: all of it once a
   table with the memtable's contents is in the manifest, otherwise all but the frames lost.
   */
  function Surviving(s: Store, p: nat): seq<Frame> {
    if s.job.FlushPublished? then s.history else DropLast(s.history, |s.disk.frames| - p)
  }

  /** The counter after recovery: the largest number in manifest or log. */
  function RecoveredSeq(m: M.State, frames: seq<Frame>): nat {
    Max(MaxSeqno(AllRecords(frames)), Max(M.MaxFileSeq(m.files), m.logSeq))
  }

  /** A frame as the appenders build it: consecutive numbers, no value with a deletion. */
  ghost predicate Follows(f: Frame, after: nat) {
    && Records(f) != []
    && forall i :: 0 <= i < |Records(f)| ==> Records(f)[i].seqno == after + i + 1
  }

  ghost predicate Sound(f: Frame) {
    Encodable(f) && forall e :: e in Records(f) && e.deleted ==> e.value == []
  }

  ghost predicate SameNamed(m: M.State, files: map<Data, seq<Entry>>, files': map<Data, seq<Entry>>) {
    forall i :: 0 <= i < |m.files| ==>
      m.files[i].name in files' && Load(files', m.files[i].name) == Load(files, m.files[i].name)
  }

  ghost predicate Enabled(s: Store, ev: Event) {
    match ev
    case Append(f) => s.job.Idle? && Follows(f, s.nextSeq) && Sound(f)
    case Skip(_) => s.job.Idle?
    case Sync => s.job.Idle? || s.job.Syncing?
    case StartFlush => s.job.Idle? && Mem(s.disk) != []
    case WriteFlush => s.job.FlushNamed?
    case AbandonFlush => s.job.FlushNamed?
    case PublishFlush(meta) => s.job.FlushWritten? && Describes(meta, M.FileName(s.job.n), 0, Mem(s.disk))
    case ResetLog => s.job.FlushPublished?
    case StartMerge(inputs) => s.job.Idle? && inputs != {} && inputs <= NamesOf(s.disk.manifest.files)
    case WriteMerge => s.job.MergeNamed?
    case PublishMerge(meta) =>
      s.job.MergeWritten? && Describes(meta, M.FileName(s.job.n), 1, MergeOf(s.disk, s.job.inputs))
    case Remove(name) => s.job.Removing? && name in s.job.names
    case Crash(p, files, _) => s.disk.synced <= p <= |s.disk.frames| && SameNamed(s.disk.manifest, s.disk.files, files)
  }

  function Alloc(m: M.State): M.State {
    m.(nextFile := m.nextFile + 1, version := M.VERSION)
  }

  function Publish(m: M.State, remove: set<Data>, meta: M.FileMeta): M.State {
    m.(files := M.Without(m.files, remove) + [meta], logSeq := Max(m.logSeq, meta.maxSeq), version := M.VERSION)
  }

  ghost function Step(s: Store, ev: Event): Store
    requires Enabled(s, ev)
  {
    var d := s.disk;
    match ev
    case Append(f) =>
      Store(d.(frames := d.frames + [f]), s.nextSeq + |Records(f)|, s.appends + 1,
            if s.policy.Due(s.appends + 1) then Syncing else Idle, s.history + [f], s.policy)
    case Skip(count) => s.(nextSeq := s.nextSeq + count)
    case Sync => s.(disk := d.(synced := |d.frames|), job := Idle)
    case StartFlush => s.(disk := d.(manifest := Alloc(d.manifest)), job := FlushNamed(d.manifest.nextFile))
    case WriteFlush => s.(disk := d.(files := d.files[M.FileName(s.job.n) := Mem(d)]), job := FlushWritten(s.job.n))
    case AbandonFlush => s.(disk := d.(files := d.files - {M.FileName(s.job.n)}), job := Idle)
    case PublishFlush(meta) => s.(disk := d.(manifest := Publish(d.manifest, {}, meta)), job := FlushPublished)
    case ResetLog => s.(disk := d.(frames := [], synced := 0), appends := 0, job := Idle)
    case StartMerge(inputs) =>
      s.(disk := d.(manifest := Alloc(d.manifest)), job := MergeNamed(inputs, d.manifest.nextFile))
    case WriteMerge =>
      s.(disk := d.(files := d.files[M.FileName(s.job.n) := MergeOf(d, s.job.inputs)]),
         job := MergeWritten(s.job.inputs, s.job.n))
    case PublishMerge(meta) =>
      s.(disk := d.(manifest := Publish(d.manifest, s.job.inputs, meta)), job := Removing(s.job.inputs))
    case Remove(name) =>
      s.(disk := d.(files := d.files - {name}),
         job := if s.job.names == {name} then Idle else Removing(s.job.names - {name}))
    case Crash(p, files, policy) =>
      Store(Disk(files, d.manifest, d.frames[..p], p), RecoveredSeq(d.manifest, d.frames[..p]), 0, Idle,
            Surviving(s, p), policy)
  }
}
