/**
 The open store (`lsmkv`): memtable, log, manifest and tables behind Put, Delete, Write,
 Get, scans, Flush, Compact, Open and Close, over the bytes of its files.

 A ghost field follows the state machine of `Engine`: after every durable write the step
 just made is recorded, and can be recorded only if the disk is as that step leaves it.
 */
module Database {
  import opened Bytes
  import opened Entries
  import opened Wal
  import opened WalLog
  import opened History
  import opened Engine
  import opened Recovery
  import opened Runs
  import Reads
  import Answers
  import Compaction
  import Merge
  import Scan
  import M = Manifest
  import S = SkipList
  import Table
  import TableWriter
  import TableReader
  import TableIter
  import Sizes

  // ---------- options ----------

  datatype Durability = SyncFull | SyncBatch | SyncNone

  datatype Options = Options(memtableBytes: int, durability: Durability, syncEveryN: int, compactThreshold: int,
                             readOnly: bool)

  function Normalize(o: Option<Options>): (n: Options)
    ensures n.memtableBytes > 0 && n.syncEveryN > 0 && n.compactThreshold > 0
  {
    match o
    case None => Options(0x40_0000, SyncFull, 32, 2, false)
    case Some(p) =>
      Options(if p.memtableBytes > 0 then p.memtableBytes else 0x40_0000, p.durability,
              if p.syncEveryN > 0 then p.syncEveryN else 32,
              if p.compactThreshold > 0 then p.compactThreshold else 2, p.readOnly)
  }

  function LogPolicy(o: Options): SyncPolicy {
    match o.durability
    case SyncNone => SyncPolicy(0, false)
    case SyncBatch => SyncPolicy(if o.syncEveryN > 0 then o.syncEveryN else 0, false)
    case SyncFull => SyncPolicy(0, true)
  }

  /** What is given is kept; what is missing or not positive becomes the default. */
  lemma OptionsKept(p: Options)
    ensures Normalize(None) == Options(4_194_304, SyncFull, 32, 2, false)
    ensures var n := Normalize(Some(p));
            && n.durability == p.durability && n.readOnly == p.readOnly
            && n.memtableBytes == (if p.memtableBytes >= 1 then p.memtableBytes else 4_194_304)
            && n.syncEveryN == (if p.syncEveryN >= 1 then p.syncEveryN else 32)
            && n.compactThreshold == (if p.compactThreshold >= 1 then p.compactThreshold else 2)
  {
  }

  lemma OptionsGiven(o: Option<Options>)
    ensures o.Some? ==> Normalize(o).durability == o.value.durability && Normalize(o).readOnly == o.value.readOnly
    ensures o.None? ==> Normalize(o).durability.SyncFull? && !Normalize(o).readOnly
  {
    OptionsKept(if o.Some? then o.value else Options(0, SyncNone, 0, 0, true));
  }

  /** What each durability setting promises, as it is given: nothing lost, fewer than N lost, no promise. */
  lemma DurabilityLimits(p: Options)
    ensures Limit(LogPolicy(Normalize(None))) == Some(0)
    ensures Limit(LogPolicy(Normalize(Some(p)))) ==
            match p.durability
            case SyncFull => Some(0)
            case SyncBatch => Some(if p.syncEveryN >= 1 then p.syncEveryN - 1 else 31)
            case SyncNone => None
  {
  }

  // ---------- batches ----------

  class WriteBatch {
    var entries: seq<Item>

    ghost predicate Valid()
      reads this
    {
      Plain(entries)
    }

    constructor ()
      ensures Valid() && entries == []
    {
      entries := [];
    }

    /** `isNil` tells whether the key is a nil slice; the copy kept is nil as well. */
    method Put(key: Data, isNil: bool, value: Data)
      requires Valid() && (isNil ==> key == [])
      modifies this
      ensures Valid() && entries == old(entries) + [Item(key, isNil, value, false)]
    {
      entries := entries + [Item(key, isNil, value, false)];
    }

    method Delete(key: Data, isNil: bool)
      requires Valid() && (isNil ==> key == [])
      modifies this
      ensures Valid() && entries == old(entries) + [Item(key, isNil, [], true)]
    {
      entries := entries + [Item(key, isNil, [], true)];
    }

    method Clear()
      modifies this
      ensures Valid() && entries == []
    {
      entries := [];
    }
  }

  /** A deletion carries no value, and a nil key no bytes. */
  ghost predicate Plain(items: seq<Item>) {
    forall i :: 0 <= i < |items| ==>
      (items[i].deleted ==> items[i].value == []) && (items[i].isNil ==> items[i].key == [])
  }

  // ---------- the store ----------

  datatype Error = Closed | ReadOnly | Invalid | NotFound | LogRefused(error: WalLog.Error) | TableRefused

  datatype Outcome = Done | Failed(error: Error)

  datatype Read = Value(value: Data) | NoValue(error: Error)

  datatype OpenTable = OpenTable(name: Data, reader: TableReader.Reader)

  /** The steps of an append under the store's policy. */
  function AppendEvents(s: Store, f: Frame): seq<Event> {
    [Append(f)] + (if s.policy.Due(s.appends + 1) then [Sync] else [])
  }

  function FlushEvents(meta: M.FileMeta): seq<Event> {
    [StartFlush, WriteFlush, PublishFlush(meta), ResetLog]
  }

  /** What is on disk at one moment, in bytes. */
  datatype Picture = Picture(files: map<Data, Data>, log: Data, manifest: M.State)

  ghost predicate PictureOf(pic: Picture, d: Disk, o: Table.Options, env: Table.Env, crc: Data -> U32) {
    AllWritten(pic.files, d.files, o, env) && pic.log == LogBytes(Raws(d.frames), crc) && pic.manifest == d.manifest
  }

  /** Before and after each event of a run the bytes are those of its state. */
  ghost predicate Pictured(s: Store, evs: seq<Event>, shots: seq<Picture>, o: Table.Options, env: Table.Env,
                           crc: Data -> U32) {
    && |shots| == |evs| + 1
    && forall i :: 0 <= i <= |evs| ==>
         Run(s, evs[..i]).Some? && PictureOf(shots[i], Run(s, evs[..i]).value.disk, o, env, crc)
  }

  lemma PicturedStart(s: Store, pic: Picture, o: Table.Options, env: Table.Env, crc: Data -> U32)
    requires PictureOf(pic, s.disk, o, env, crc)
    ensures Pictured(s, [], [pic], o, env, crc)
  {
    hide PictureOf;
  }

  lemma PicturedAppend(s: Store, evs: seq<Event>, shots: seq<Picture>, o: Table.Options, env: Table.Env,
                       crc: Data -> U32,
                       ev: Event, pic: Picture)
    requires Pictured(s, evs, shots, o, env, crc) && Run(s, evs + [ev]).Some?
    requires PictureOf(pic, Run(s, evs + [ev]).value.disk, o, env, crc)
    ensures Pictured(s, evs + [ev], shots + [pic], o, env, crc)
  {
    hide Run, PictureOf;
    var evs', shots' := evs + [ev], shots + [pic];
    forall i | 0 <= i <= |evs'|
      ensures Run(s, evs'[..i]).Some? && PictureOf(shots'[i], Run(s, evs'[..i]).value.disk, o, env, crc)
    {
      if i <= |evs| {
        assert evs'[..i] == evs[..i] && shots'[i] == shots[i];
      } else {
        assert evs'[..i] == evs';
      }
    }
  }

  /** Byte `n` of the log is not before the end of the synced frames. */
  ghost predicate BehindSynced(s: Store, n: nat, crc: Data -> U32) {
    s.disk.synced <= |s.disk.frames| && |LogTo(Raws(s.disk.frames), s.disk.synced, crc)| <= n
  }

  /** What can be opened: the directory and the log of a store, the log cut at byte `n` behind its synced frames. */
  ghost predicate Openable(s: Store, dir: map<Data, Data>, logFile: Data, n: nat, o: Table.Options, env: Table.Env,
                           crc: Data -> U32) {
    && n <= |LogBytes(Raws(s.disk.frames), crc)| && logFile == LogBytes(Raws(s.disk.frames), crc)[..n]
    && BehindSynced(s, n, crc)
    && forall f :: f in s.disk.manifest.files ==> WrittenIn(dir, f.name, Load(s.disk.files, f.name), o, env)
  }

  function KeyOf(k: Option<Data>): Data {
    if k.Some? then k.value else []
  }

  class DB {
    const opts: Options
    const format: Table.Options
    const env: Table.Env
    const mem: S.SkipList
    const wal: Log
    const manif: M.Manifest
    var tables: seq<OpenTable>
    var files: map<Data, Data>
    var closed: bool

    ghost var contents: map<Data, seq<Entry>>    // what the files encode
    ghost const start: Store                     // the recovered store at open
    ghost var now: Store
    ghost var events: seq<Event>                 // the steps since
    ghost var shots: seq<Picture>                // the bytes on disk before and after each of them

    // ----- invariants -----

    ghost predicate Storable(es: seq<Entry>) {
      Table.Representable(es, format, env)
    }

    ghost function DiskNow(): Disk
      reads this`contents, wal`frames, wal`synced, manif`state
    {
      Disk(contents, manif.state, wal.frames, wal.synced)
    }

    /** The recorded steps form a run, and the run is where `now` says. */
    ghost predicate Reached()
      reads this`now, this`events, this`shots
    {
      && Inv(start) && Inv(now) && Run(start, events) == Some(now) && now.policy == start.policy == wal.policy
      && |shots| == |events| + 1 && Pictured(start, events, shots, format, env, wal.crc)
      && forall i :: 0 <= i < |events| ==> !events[i].Crash?
    }

    /** Disk and counters are those of the state machine. */
    ghost predicate Linked()
      reads this`now, this`events, this`shots, this`contents, wal, manif
    {
      Reached() && now.disk == DiskNow() && now.nextSeq == wal.nextSeq && now.appends == wal.appends
    }

    ghost predicate Stored()
      reads this`files, this`contents
    {
      AllWritten(files, contents, format, env)
    }

    ghost predicate Core()
      reads this`now, this`events, this`shots, this`contents, this`files, wal, manif, mem, mem.Repr
    {
      && this !in mem.Repr && wal !in mem.Repr && manif !in mem.Repr
      && mem.Valid() && wal.Valid() && Linked() && Stored() && format.Valid() && format.blockSize < Sizes.MAX_BLOCK
    }

    /** The open tables are those of the manifest, in its order. */
    ghost predicate Opened(ts: seq<OpenTable>, metas: seq<M.FileMeta>, upto: nat)
      requires format.Valid() && upto <= |ts| && upto <= |metas|
      reads this`contents
    {
      forall i :: 0 <= i < upto ==>
        ts[i].name == metas[i].name && ts[i].reader == TableReader.ReaderOf(Load(contents, metas[i].name), format, env)
    }

    /** Between operations: nothing is half done, and the memtable is what the log holds. */
    ghost predicate Standing()
      reads this, wal, manif, mem, mem.Repr
    {
      && Core() && now.job.Idle? && |tables| == |manif.state.files| && mem.contents == Mem(now.disk)
      && opts.memtableBytes > 0 && opts.compactThreshold > 0 && opts.syncEveryN > 0 && wal.policy == LogPolicy(opts)
    }

    ghost predicate Ready()
      reads this, wal, manif, mem, mem.Repr
    {
      Standing() && Opened(tables, manif.state.files, |tables|)
    }

    /** An open store can read its tables; a closed one has closed them all. */
    ghost predicate Valid()
      reads this, wal, manif, mem, mem.Repr
    {
      if closed then Standing() && forall i :: 0 <= i < |tables| ==> tables[i].reader.file.None?
      else Ready() && !wal.closed
    }

    /** What a valid store's parts have to do with the state machine. */
    lemma Parts()
      requires Valid()
      ensures mem.contents == Mem(now.disk) && wal.nextSeq == now.nextSeq && wal.frames == now.disk.frames
      ensures manif.state == now.disk.manifest && contents == now.disk.files && Inv(now) && now.job.Idle?
      ensures this !in mem.Repr && wal.file == LogBytes(Raws(wal.frames), wal.crc) && now.disk.synced <= |wal.frames|
      ensures AllWritten(files, contents, format, env)
    {
      hide Run, Survives, FilesOk, Numbers, JobOk, WithinPolicy, S.SkipList.Valid, AllWritten, LogBytes;
    }

    /** The state after the first `i` of the recorded steps. */
    ghost function At(i: nat): Store
      requires Reached() && i <= |events|
      reads this`now, this`events, this`shots
    {
      Run(start, events[..i]).value
    }

    lemma PictureAt(i: nat)
      requires Reached() && i <= |events|
      ensures Inv(At(i)) && PictureOf(shots[i], At(i).disk, format, env, wal.crc) && At(i).policy == wal.policy
    {
      hide Inv, Run, PictureOf;
      RunKeeps(start, events[..i]);
      RunPolicy(start, events[..i]);
    }

    /** The bytes at step `i`, with the log cut, can be opened. */
    lemma CanOpen(i: nat, n: nat, dir: map<Data, Data>, logFile: Data)
      requires Reached() && i <= |events| && n <= |shots[i].log| && logFile == shots[i].log[..n]
      requires forall f :: f in shots[i].manifest.files && f.name in shots[i].files ==>
        f.name in dir && dir[f.name] == shots[i].files[f.name]
      requires BehindSynced(At(i), n, wal.crc)
      ensures Inv(At(i)) && Openable(At(i), dir, logFile, n, format, env, wal.crc)
      ensures shots[i].manifest == At(i).disk.manifest
    {
      hide Inv, Pictured, Run, LogBytes, BehindSynced, Raws, WrittenIn, AllWritten, Load, At;
      PictureAt(i);
      forall f | f in At(i).disk.manifest.files
        ensures WrittenIn(dir, f.name, Load(At(i).disk.files, f.name), format, env)
      {
        NamedInPicture(At(i), shots[i], dir, f, format, env, wal.crc);
      }
    }

    /** What the recovered store is then, seen from the history and from the log's bytes. */
    lemma AfterCrash(i: nat, n: nat, dir: map<Data, seq<Entry>>, policy: SyncPolicy)
      requires Reached() && i <= |events|
      requires var s := At(i); Enabled(s, Crash(Whole(Raws(s.disk.frames), |s.disk.frames|, n, wal.crc), dir, policy))
      ensures var s := At(i);
              var t := Step(s, Crash(Whole(Raws(s.disk.frames), |s.disk.frames|, n, wal.crc), dir, policy));
              && t.history <= s.history
              && (n == |shots[i].log| ==> t.history == s.history)
              && (Limit(wal.policy).Some? ==>
                    |s.history| - |t.history| <= Limit(wal.policy).value + (if s.job.Syncing? then 1 else 0))
              && (Answers.Truthful(start) && Answers.HarmlessRun(start, events) ==> Answers.ShowsRight(t))
    {
      hide Inv, Run, Pictured, Enabled, Step, LogBytes, Raws, MapOf, Limit, AllWritten;
      hide Answers.Truthful, Answers.HarmlessRun, Answers.ShowsRight, Whole;
      PictureAt(i);
      RunPrefix(start, events, i);
      var s := At(i);
      var p := Whole(Raws(s.disk.frames), |s.disk.frames|, n, wal.crc);
      CrashRefinement(start, events[..i], p, dir, policy);
      if n == |shots[i].log| {
        WholeLog(s.disk.frames, 0, n, wal.crc);
      }
      Answers.RunShowsMap(start, events);
      if Answers.Truthful(start) && Answers.HarmlessRun(start, events) {
        RightThere(start, events, i, Crash(p, dir, policy));
      }
    }

    /**
     Between operations every logged frame is durable under SyncFull, and all but fewer than
     N under SyncBatch.
     */
    lemma Durable()
      requires Valid()
      ensures opts.durability.SyncFull? ==> now.disk.synced == |now.disk.frames|
      ensures opts.durability.SyncBatch? ==> |now.disk.frames| - now.disk.synced < opts.syncEveryN
    {
      hide Run, Pictured, Survives, FilesOk, Numbers, JobOk, S.SkipList.Valid, Log.Valid, AllWritten, Opened;
      if opts.durability.SyncFull? {
        Reads.FullSynced(now);
      }
      AllowedWithin(now.policy, now.appends, |now.disk.frames| - now.disk.synced);
    }

    /** When an append is followed by a sync, by the durability asked for. */
    lemma SyncDue(appends: nat)
      requires Valid()
      ensures wal.policy.Due(appends) <==>
              match opts.durability
              case SyncFull => true
              case SyncBatch => exists q: nat :: appends == q * opts.syncEveryN
              case SyncNone => false
    {
      hide Core, Opened;
      DueWhen(wal.policy, appends);
    }

    /** The plain map the store stands for. */
    ghost function View(): map<Data, Data>
      reads this`now
    {
      MapOf(Past(now))
    }

    // ----- opening -----

    /**
     Opens what a crash has left of the store `s0`: its log cut at byte `n`, not before the
     end of the synced frames, the manifest, and the files the manifest names. Other files
     of the directory may hold anything. The result is the recovered store.
     */
    constructor (o: Option<Options>, format: Table.Options, env: Table.Env, dir: map<Data, Data>, logFile: Data,
                 logCrc: Data -> U32,
                 loaded: Option<M.State>, ghost s0: Store, ghost n: nat)
      requires format.Valid() && format.blockSize < Sizes.MAX_BLOCK && Inv(s0)
      requires match loaded case None => s0 == Fresh(s0.policy) case Some(m) => m == s0.disk.manifest
      requires Openable(s0, dir, logFile, n, format, env, logCrc)
      ensures Valid() && !closed && fresh(mem) && fresh(mem.Repr) && fresh(wal) && fresh(manif)
      ensures opts == Normalize(o) && this.format == format && this.env == env && wal.crc == logCrc && files == dir
      ensures o.Some? ==> opts.durability == o.value.durability && opts.readOnly == o.value.readOnly
      ensures o.None? ==> opts.durability.SyncFull? && !opts.readOnly
      ensures events == [] && start == now
      ensures mem.HasNil() == Find(mem.contents, []).Some?
      ensures var ev := Crash(Whole(Raws(s0.disk.frames), |s0.disk.frames|, n, logCrc), contents,
                              LogPolicy(Normalize(o)));
              Enabled(s0, ev) && now == Step(s0, ev)
      ensures Reads.Dominated(s0) ==> Reads.Dominated(now)
      ensures Answers.Truthful(s0) ==> Answers.Truthful(now)
    {
      hide Reads.Dominated, Answers.Truthful, Inv, Enabled, Whole, LogBytes, LogTo, Raws, WrittenIn, AllRecords;
      hide MaxSeqno, Memtable;
      hide Normalize, LogPolicy, S.SkipList.Valid, Log.Valid, Valid, Pictured;
      opts := Normalize(o);
      this.format := format;
      this.env := env;
      mem := new S.SkipList();
      OpenStep(s0, n, logCrc, LogPolicy(Normalize(o)));
      wal := new Log(logFile, logCrc, LogPolicy(Normalize(o)), s0.disk.frames, n);
      manif := new M.Manifest(loaded);
      files := dir;
      tables, closed := [], false;
      start := Step(s0, Crash(Whole(Raws(s0.disk.frames), |s0.disk.frames|, n, logCrc), Restrict(s0.disk),
        LogPolicy(Normalize(o))));
      contents := Restrict(s0.disk);
      now := Step(s0, Crash(Whole(Raws(s0.disk.frames), |s0.disk.frames|, n, logCrc), Restrict(s0.disk),
        LogPolicy(Normalize(o))));
      events := [];
      new;
      RestrictWritten(s0.disk, dir, format, env);
      FirstPicture();
      StaysReadable(s0, Crash(Whole(Raws(s0.disk.frames), |s0.disk.frames|, n, logCrc), contents,
        LogPolicy(Normalize(o))));
      Recover();
      OptionsGiven(o);
    }

    ghost method FirstPicture()
      requires wal.Valid() && Stored() && now == start && now.disk == DiskNow() && events == []
      modifies this`shots
      ensures |shots| == |events| + 1 && Pictured(start, events, shots, format, env, wal.crc)
    {
      hide LogBytes, Raws, AllWritten, AllRecords, Encodable, Pictured;
      shots := [Picture(files, wal.file, manif.state)];
      PicturedStart(start, shots[0], format, env, wal.crc);
    }

    method Recover()
      requires this !in mem.Repr && wal !in mem.Repr && manif !in mem.Repr
      requires mem.Valid() && mem.contents == [] && wal.Valid() && !wal.closed
      requires Stored() && format.Valid() && format.blockSize < Sizes.MAX_BLOCK && Reached()
      requires now.job.Idle? && now.disk == DiskNow() && now.appends == wal.appends && tables == []
      requires now.nextSeq == Max(wal.nextSeq, Max(M.MaxFileSeq(manif.state.files), manif.state.logSeq))
      requires !closed && opts.memtableBytes > 0 && opts.compactThreshold > 0 && opts.syncEveryN > 0
      requires wal.policy == LogPolicy(opts)
      modifies this`tables, wal`nextSeq, mem.Repr
      ensures Valid() && fresh(mem.Repr - old(mem.Repr)) && mem.HasNil() == Find(mem.contents, []).Some?
    {
      hide Reached, Stored, Log.Valid, S.SkipList.Valid, Memtable, AllRecords, TableReader.ReaderOf, M.MaxFileSeq;
      hide Find, Load;
      hide S.SkipList.HasNil;
      ContinueNumbers();
      OpenTables();
      ReplayLog();
    }

    /** Sequence numbers go on from the largest in log and manifest. */
    method ContinueNumbers()
      requires wal.Valid()
      modifies wal`nextSeq
      ensures wal.Valid()
      ensures wal.nextSeq == Max(old(wal.nextSeq), Max(M.MaxFileSeq(manif.state.files), manif.state.logSeq))
    {
      var maxSeq := manif.MaxSeqAmongFiles();
      if manif.state.logSeq > maxSeq {
        maxSeq := manif.state.logSeq;
      }
      wal.SetNextSeq(maxSeq);
    }

    method OpenTables()
      requires Core() && tables == []
      modifies this`tables
      ensures Core() && |tables| == |manif.state.files| && Opened(tables, manif.state.files, |tables|)
    {
      hide Linked, Stored, Table.Representable, Table.TableBytes, TableReader.ReaderOf, S.SkipList.Valid, Log.Valid;
      hide Load;
      var open: seq<OpenTable> := [];
      while |open| < |manif.state.files|
        invariant |open| <= |manif.state.files| && Opened(open, manif.state.files, |open|)
      {
        var f := manif.state.files[|open|];
        NamedWritten(f);
        var r := TableReader.OpenTable(files[f.name], env.crc);
        TableReader.OpenWritten(Load(contents, f.name), format, env);
        open := open + [OpenTable(f.name, r.reader)];
      }
      tables := open;
    }

    /** Every file of the manifest is in the directory, whole. */
    lemma NamedWritten(f: M.FileMeta)
      requires Core() && f in manif.state.files
      ensures f.name in contents && contents[f.name] == Load(contents, f.name)
      ensures WrittenIn(files, f.name, Load(contents, f.name), format, env) && Sorted(Load(contents, f.name))
    {
      hide S.SkipList.Valid, Log.Valid, WrittenIn, Recoverable, JobOk, Numbers, WithinPolicy;
      assert FileOk(f, now.disk.files, Bound(now));
    }

    /** The log's records go into the memtable, in order; an empty key comes back as a nil slice. */
    method ReplayLog()
      requires Core() && !wal.closed && mem.contents == []
      modifies mem.Repr
      ensures Core() && fresh(mem.Repr - old(mem.Repr)) && mem.contents == Mem(now.disk)
      ensures mem.HasNil() == Find(mem.contents, []).Some?
    {
      hide Inv, Table.Representable, Table.TableBytes, S.SkipList.Valid, Log.Valid, Memtable, AllRecords, Stored;
      hide Reached;
      var replayed := wal.ReplayContext();
      var records := replayed.records;
      var i := 0;
      assert Memtable(records[..0]) == [] by {
        EmptyMemtable();
      }
      while i < |records|
        invariant 0 <= i <= |records| && Core() && fresh(mem.Repr - old(mem.Repr))
        invariant mem.contents == Memtable(records[..i]) && mem.HasNil() == Find(mem.contents, []).Some?
      {
        var rec := records[i];
        SoundRecord(rec);
        assert records[..i + 1] == records[..i] + [rec];
        MemtableAppend(records[..i], rec);
        EmptyKeyAfter(records[..i], rec);
        if rec.deleted {
          mem.Delete(rec.key, |rec.key| == 0, rec.seqno);
        } else {
          mem.Put(rec.key, |rec.key| == 0, rec.value, rec.seqno);
        }
        i := i + 1;
      }
      assert records[..i] == records;
    }

    lemma SoundRecord(e: Entry)
      requires Linked() && e in AllRecords(wal.frames)
      ensures e == Entry(e.key, if e.deleted then [] else e.value, e.seqno, e.deleted)
    {
      hide Recoverable, JobOk, FilesOk, WithinPolicy;
      Reads.RecordsOf(wal.frames, e);
      var i :| 0 <= i < |wal.frames| && e in Records(wal.frames[i]);
      assert Sound(now.disk.frames[i]);
    }

    // ----- recording steps -----

    ghost method Record(ev: Event)
      requires Reached() && !ev.Crash? && Enabled(now, ev) && Stored() && wal.Valid()
      requires Step(now, ev).disk == DiskNow() && Step(now, ev).nextSeq == wal.nextSeq
        && Step(now, ev).appends == wal.appends
      modifies this`now, this`events, this`shots
      ensures Linked() && now == Step(old(now), ev) && events == old(events) + [ev]
    {
      hide Inv, Enabled, Run, Pictured, LogBytes, Raws, AllWritten, AllRecords, Encodable;
      StepKeeps(now, ev);
      RunAppend(start, events, ev);
      SamePolicy(now, ev);
      PicturedAppend(start, events, shots, format, env, wal.crc, ev, Picture(files, wal.file, manif.state));
      now := Step(now, ev);
      events := events + [ev];
      shots := shots + [Picture(files, wal.file, manif.state)];
    }

    // ----- appends -----

    /** A successful append: the frame, and the sync if one was due. */
    ghost method RecordAppend(f: Frame, before: Disk, traced: seq<Image>)
      requires Reached() && now.job.Idle? && now.disk == before && Enabled(now, Append(f))
      requires wal.frames == before.frames + [f] && manif.state == before.manifest && contents == before.files
      requires wal.nextSeq == now.nextSeq + |Records(f)| && wal.appends == now.appends + 1
      requires wal.synced == if wal.policy.Due(wal.appends) then |wal.frames| else before.synced
      requires wal.trace == traced + [Image(wal.frames, before.synced, wal.file)]
                            + (if wal.policy.Due(wal.appends) then [Image(wal.frames, |wal.frames|, wal.file)] else [])
      requires Stored() && wal.Valid()
      modifies this`now, this`events, this`shots
      ensures Linked() && now.job.Idle? && now.history == old(now).history + [f]
      ensures events == old(events) + AppendEvents(old(now), f)
    {
      hide Inv, Run, Pictured;
      hide Pictured, LogBytes, Raws, AllWritten, AllRecords, Encodable;
      var s, at := Step(now, Append(f)), |traced|;
      ghost var written := Picture(files, wal.trace[at].file, manif.state);
      StepKeeps(now, Append(f));
      RunAppend(start, events, Append(f));
      PicturedAppend(start, events, shots, format, env, wal.crc, Append(f), written);
      if wal.policy.Due(wal.appends) {
        ghost var durable := Picture(files, wal.trace[at + 1].file, manif.state);
        StepKeeps(s, Event.Sync);
        RunAppend(start, events + [Append(f)], Event.Sync);
        PicturedAppend(start, events + [Append(f)], shots + [written], format, env, wal.crc, Event.Sync, durable);
        events := events + [Append(f)] + [Event.Sync];
        shots := shots + [written] + [durable];
        now := Step(s, Event.Sync);
      } else {
        events := events + [Append(f)];
        shots := shots + [written];
        now := s;
      }
    }

    // ----- flush -----

    /** Hands out a file number, as the first step of a flush or a merge. */
    method Allocate(ghost ev: Event) returns (name: Data)
      requires Core() && Enabled(now, ev) && (ev.StartFlush? || ev.StartMerge?)
      modifies manif, this`now, this`events, this`shots
      ensures Core() && now == Step(old(now), ev) && events == old(events) + [ev]
      ensures name == M.FileName(old(manif.state.nextFile))
    {
      hide Inv, Run, Pictured, Stored, Log.Valid, S.SkipList.Valid, Memtable, AllRecords;
      name := manif.AllocFileName();
      Record(ev);
    }

    lemma UnusedName()
      requires Linked() && (now.job.FlushNamed? || now.job.MergeNamed?)
      ensures forall i :: 0 <= i < |manif.state.files| ==> manif.state.files[i].name != M.FileName(now.job.n)
    {
      hide Recoverable, Numbers, JobOk, WithinPolicy, FilesOk, M.FileName;
      FreshName(manif.state, contents, now.job.n);
    }

    /** Writes a table under the number handed out. */
    method WriteTable(ghost ev: Event, name: Data, es: seq<Entry>) returns (meta: TableWriter.Meta)
      requires Core() && Enabled(now, ev) && (ev.WriteFlush? || ev.WriteMerge?)
      requires Sorted(es) && Storable(es) && Step(now, ev).disk.files == contents[name := es]
      modifies this`files, this`contents, this`now, this`events, this`shots
      ensures Core() && now == Step(old(now), ev) && events == old(events) + [ev]
        && contents == old(contents)[name := es]
      ensures meta == TableWriter.MetaOf(es, |Table.TableBytes(es, format, env)|)
    {
      hide Inv, Run, Pictured, Memtable, Log.Valid, S.SkipList.Valid, AllRecords, Table.Representable, Table.TableBytes;
      hide MergeOf, TableWriter.MetaOf, AllWritten;
      SortedWrites(es, false);
      var r := TableWriter.WriteFile(es, S.Nils(es, false), format, env);
      WriteOne(files, contents, name, es, r.file, format, env);
      files := files[name := r.file];
      contents := contents[name := es];
      Record(ev);
      meta := r.meta;
    }

    method TrySnapshot(snap: seq<Entry>, nils: seq<bool>) returns (r: TableWriter.Result)
      requires Core() && snap == mem.contents && nils == S.Nils(snap, mem.HasNil())
      ensures r == if mem.HasNil() then TableWriter.Result.Refused(TableWriter.Invalid)
                   else TableWriter.Written(Table.TableBytes(snap, format, env),
                                            TableWriter.MetaOf(snap, |Table.TableBytes(snap, format, env)|))
    {
      hide Linked, Stored, Log.Valid, Table.TableBytes, TableWriter.MetaOf;
      SortedWrites(snap, mem.HasNil());
      r := TableWriter.WriteFile(snap, nils, format, env);
    }

    /** Writes the memtable's entries; a nil key is refused, and the file begun is removed. */
    method WriteSnapshot(name: Data, snap: seq<Entry>, nils: seq<bool>) returns (meta: Option<TableWriter.Meta>)
      requires Core() && now.job.FlushNamed? && name == M.FileName(now.job.n)
      requires snap == mem.contents == Mem(now.disk) && nils == S.Nils(snap, mem.HasNil()) && Storable(snap)
      modifies this`files, this`contents, this`now, this`events, this`shots
      ensures Core() && (meta.None? <==> mem.HasNil()) && now.history == old(now).history
      ensures now.job == (if meta.None? then Idle else FlushWritten(old(now).job.n))
      ensures events == old(events) + [if meta.None? then AbandonFlush else WriteFlush]
      ensures meta.Some? ==> meta.value == TableWriter.MetaOf(snap, |Table.TableBytes(snap, format, env)|)
      ensures meta.Some? ==> contents == old(contents)[name := snap]
      ensures meta.None? ==> contents == old(contents) - {name}
    {
      hide Inv, Run, Pictured, Memtable, Log.Valid, S.SkipList.Valid, AllRecords, Table.Representable, Table.TableBytes;
      hide TableWriter.MetaOf, AllWritten;
      hide S.Nils, S.SkipList.HasNil;
      var r := TrySnapshot(snap, nils);
      match r
      case Refused(_) =>
        RemoveFile(files, contents, name, format, env);
        files := files - {name};
        contents := contents - {name};
        Record(AbandonFlush);
        return None;
      case Written(file, m) =>
        WriteOne(files, contents, name, snap, file, format, env);
        files := files[name := file];
        contents := contents[name := snap];
        Record(WriteFlush);
        return Some(m);
    }

    /** The numbers and keys the manifest keeps of a table. */
    method Summarize(snap: seq<Entry>) returns (maxSeq: nat, minKey: Option<Data>, maxKey: Option<Data>)
      requires Sorted(snap)
      ensures maxSeq == MaxSeqno(snap) && minKey == (if snap == [] then None else Some(snap[0].key))
      ensures maxKey == TableWriter.LastKey(snap)
    {
      maxSeq, minKey, maxKey := 0, None, None;
      var i := 0;
      while i < |snap|
        invariant 0 <= i <= |snap| && maxSeq == MaxSeqno(snap[..i])
        invariant minKey == (if i == 0 then None else Some(snap[0].key)) && maxKey == TableWriter.LastKey(snap[..i])
      {
        var e := snap[i];
        assert snap[..i + 1] == snap[..i] + [e];
        MaxSeqnoAppend(snap[..i], e);
        if e.seqno > maxSeq {
          maxSeq := e.seqno;
        }
        if i > 0 {
          LessTrichotomy(snap[0].key, e.key);
          LessTrichotomy(snap[i - 1].key, e.key);
        }
        if minKey.None? || Less(e.key, minKey.value) {
          minKey := Some(e.key);
        }
        if maxKey.None? || Less(maxKey.value, e.key) {
          maxKey := Some(e.key);
        }
        i := i + 1;
      }
      assert snap[..i] == snap;
    }

    /** The manifest's record of a table of this store. */
    ghost function Meta(n: nat, level: nat, es: seq<Entry>): M.FileMeta
      requires format.restarts > 0
    {
      MetaFor(n, level, es, |Table.TableBytes(es, format, env)|)
    }

    /** The fields of a record, put together from what the writer reports. */
    lemma RecordOf(n: nat, level: nat, es: seq<Entry>, m: TableWriter.Meta)
      requires format.restarts > 0 && m == TableWriter.MetaOf(es, |Table.TableBytes(es, format, env)|)
      ensures Meta(n, level, es) ==
              M.FileMeta(M.FileName(n), level, KeyOf(m.minKey), KeyOf(m.maxKey), m.maxSeq, m.entries, m.fileSize)
      ensures m.maxKey == TableWriter.LastKey(es) && m.minKey == (if es == [] then None else Some(es[0].key))
      ensures m.maxSeq == MaxSeqno(es) && m.entries == |es|
      ensures Describes(Meta(n, level, es), M.FileName(n), level, es)
    {
      MetaDescribes(n, level, es, m.fileSize);
    }

    /** The steps of a flush of `es`: none for an empty memtable, and no more than a number when a key is nil. */
    ghost function FlushSteps(n: nat, es: seq<Entry>, hasNil: bool): seq<Event>
      requires format.restarts > 0
    {
      if es == [] then [] else if hasNil then [StartFlush, AbandonFlush] else FlushEvents(Meta(n, 0, es))
    }

    /**
     A flush, step by step: number, table, manifest, log. It fails if and only if a key of
     the memtable is a nil slice; then it changes nothing but the file number.
     */
    method FlushLocked() returns (r: Outcome)
      requires Ready() && !wal.closed && |mem.contents| <= Sizes.MAX_ENTRIES
      modifies this`tables, this`files, this`contents, this`now, this`events, this`shots, wal, manif, mem.Repr
      ensures Ready() && fresh(mem.Repr - old(mem.Repr)) && !wal.closed
      ensures r == if old(mem.HasNil()) then Failed(TableRefused) else Done
      ensures events == old(events) + FlushSteps(old(manif.state.nextFile), old(mem.contents), old(mem.HasNil()))
      ensures if r.Done? then mem.contents == [] && !mem.HasNil()
              else mem.contents == old(mem.contents) && mem.HasNil() && tables == old(tables)
      ensures Past(now) == old(Past(now)) && wal.nextSeq == old(wal.nextSeq)
    {
      hide Inv, Run, Pictured, Memtable, Stored, Log.Valid, S.SkipList.Valid, AllRecords, Table.Representable;
      hide Table.TableBytes;
      hide Describes, MaxSeqno, TableWriter.LastKey, M.FileName, M.Without, TableReader.ReaderOf;
      var snap, nils := mem.Snapshot();
      if |snap| == 0 {
        assert events == old(events) + [];
        return Done;
      }
      MemStorable();
      SortedMemtable(now.disk);
      var name := Allocate(StartFlush);
      r := FlushUnder(name, snap, nils);
    }

    /** The rest of a flush once it has a number. */
    method FlushUnder(name: Data, snap: seq<Entry>, nils: seq<bool>) returns (r: Outcome)
      requires Core() && !wal.closed && now.job.FlushNamed? && name == M.FileName(now.job.n)
      requires snap == mem.contents == Mem(now.disk) && nils == S.Nils(snap, mem.HasNil()) && Storable(snap)
      requires |tables| == |manif.state.files| && Opened(tables, manif.state.files, |tables|)
      modifies this`tables, this`files, this`contents, this`now, this`events, this`shots, wal, manif, mem.Repr
      ensures Core() && fresh(mem.Repr - old(mem.Repr)) && !wal.closed && now.job.Idle? && mem.contents == Mem(now.disk)
      ensures |tables| == |manif.state.files| && Opened(tables, manif.state.files, |tables|)
      ensures r == if old(mem.HasNil()) then Failed(TableRefused) else Done
      ensures events == old(events)
                        + if r.Done? then [WriteFlush, PublishFlush(Meta(old(now).job.n, 0, snap)), ResetLog]
                          else [AbandonFlush]
      ensures if r.Done? then mem.contents == [] else mem.contents == snap && mem.HasNil() && tables == old(tables)
      ensures now.history == old(now).history && wal.nextSeq == old(wal.nextSeq)
    {
      hide Inv, Run, Pictured, Memtable, Stored, Log.Valid, S.SkipList.Valid, AllRecords, Table.Representable;
      hide Table.TableBytes;
      hide Describes, MaxSeqno, TableWriter.LastKey, M.FileName, M.Without, TableReader.ReaderOf, S.Nils;
      SortedMemtable(now.disk);
      var maxSeq, minKey, maxKey := Summarize(snap);
      UnusedName();
      var meta := WriteSnapshot(name, snap, nils);
      if meta.None? {
        return Failed(TableRefused);
      }
      var fm := M.FileMeta(name, 0, KeyOf(minKey), KeyOf(maxKey), maxSeq, |snap|, meta.value.fileSize);
      RecordOf(old(now).job.n, 0, snap, meta.value);
      PublishTable(fm, snap);
      TruncateLog(maxSeq);
      return Done;
    }

    lemma MemStorable()
      requires Linked() && format.Valid() && format.blockSize < Sizes.MAX_BLOCK && |Mem(now.disk)| <= Sizes.MAX_ENTRIES
      ensures Storable(Mem(now.disk))
    {
      hide Recoverable, JobOk, FilesOk, WithinPolicy, Memtable, AllRecords, Sizes.Small, Table.Representable;
      var l := AllRecords(now.disk.frames);
      MemtableElems(l);
      forall i | 0 <= i < |Memtable(l)|
        ensures Sizes.Small(Memtable(l)[i])
      {
        assert Memtable(l)[i] in Elems(Memtable(l));
        SmallRecord(now.disk.frames, Memtable(l)[i]);
      }
      Sizes.SmallTables(Memtable(l), format, env);
    }

    /** The manifest takes up the table, and the store opens it. */
    method PublishTable(fm: M.FileMeta, ghost es: seq<Entry>)
      requires Core() && Enabled(now, PublishFlush(fm)) && fm.name in contents && contents[fm.name] == es
      requires |tables| == |manif.state.files| && Opened(tables, manif.state.files, |tables|)
      modifies this`tables, this`now, this`events, this`shots, manif
      ensures Core() && now == Step(old(now), PublishFlush(fm)) && events == old(events) + [PublishFlush(fm)]
      ensures |tables| == |manif.state.files| && Opened(tables, manif.state.files, |tables|)
    {
      hide Linked, Stored, Enabled, Step, TableReader.ReaderOf, Table.TableBytes, Log.Valid, S.SkipList.Valid;
      AddTable(fm);
      var r := ReadTable(fm.name, es);
      tables := tables + [OpenTable(fm.name, r)];
    }

    method AddTable(fm: M.FileMeta)
      requires Core() && Enabled(now, PublishFlush(fm))
      modifies this`now, this`events, this`shots, manif
      ensures Core() && now == Step(old(now), PublishFlush(fm)) && events == old(events) + [PublishFlush(fm)]
      ensures manif.state.files == old(manif.state.files) + [fm]
    {
      hide Inv, Run, Pictured, Memtable, Log.Valid, S.SkipList.Valid, AllRecords, Describes, Stored, M.Without;
      WithoutNone(manif.state.files);
      manif.AddFile(fm, fm.maxSeq);
      Record(PublishFlush(fm));
    }

    /** Opening a table file. */
    method ReadTable(name: Data, ghost es: seq<Entry>) returns (r: TableReader.Reader)
      requires Core() && name in contents && contents[name] == es
      ensures r == TableReader.ReaderOf(es, format, env)
    {
      hide Linked, Log.Valid, S.SkipList.Valid, Table.Representable, Table.TableBytes, TableReader.ReaderOf;
      var o := TableReader.OpenTable(files[name], env.crc);
      TableReader.OpenWritten(es, format, env);
      r := o.reader;
    }

    lemma LogSeqBelow()
      requires Linked()
      ensures manif.state.logSeq <= wal.nextSeq
    {
      hide Recoverable, JobOk, WithinPolicy, FilesOk;
    }

    /** The memtable and the log start over. */
    method TruncateLog(maxSeq: nat)
      requires Core() && now.job.FlushPublished? && !wal.closed && maxSeq <= manif.state.logSeq
      modifies this`now, this`events, this`shots, wal, mem.Repr
      ensures Core() && fresh(mem.Repr - old(mem.Repr)) && now.job.Idle? && now.history == old(now).history
      ensures events == old(events) + [ResetLog] && wal.frames == [] && !wal.closed && wal.nextSeq == old(wal.nextSeq)
      ensures mem.contents == [] == Mem(now.disk)
    {
      hide Inv, Run, Pictured, Stored, Enabled, Step, Log.Valid, S.SkipList.Valid;
      EmptyMemtable();
      mem.Clear();
      EmptyLog(maxSeq);
    }

    method EmptyLog(maxSeq: nat)
      requires Linked() && Stored() && wal.Valid() && now.job.FlushPublished? && !wal.closed
        && maxSeq <= manif.state.logSeq
      modifies this`now, this`events, this`shots, wal
      ensures Linked() && wal.Valid() && now.job.Idle? && now.history == old(now).history
      ensures events == old(events) + [ResetLog] && wal.frames == [] && !wal.closed && wal.nextSeq == old(wal.nextSeq)
    {
      hide Inv, Run, Pictured, Log.Valid;
      LogSeqBelow();
      var ok := wal.Reset();
      Record(ResetLog);
      wal.SetNextSeq(maxSeq);
    }

    // ----- writes -----

    /** The log has taken frame `f`, or refused it and used up its numbers. */
    ghost method Settle(f: Frame, taken: bool, before: Disk, traced: seq<Image>)
      requires Reached() && now.job.Idle? && now.disk == before && manif.state == before.manifest
        && contents == before.files
      requires wal.policy == now.policy && wal.nextSeq == now.nextSeq + |Records(f)|
      requires taken ==> Enabled(now, Append(f)) && wal.frames == before.frames + [f] && wal.appends == now.appends + 1
      requires taken ==> wal.synced == if wal.policy.Due(wal.appends) then |wal.frames| else before.synced
      requires taken ==>
        wal.trace == traced + [Image(wal.frames, before.synced, wal.file)]
                            + (if wal.policy.Due(wal.appends) then [Image(wal.frames, |wal.frames|, wal.file)] else [])
      requires Stored() && wal.Valid()
      requires !taken ==> wal.frames == before.frames && wal.synced == before.synced && wal.appends == now.appends
      modifies this`now, this`events, this`shots
      ensures Linked() && now.job.Idle?
      ensures taken ==> now.history == old(now).history + [f] && events == old(events) + AppendEvents(old(now), f)
      ensures !taken ==> now.history == old(now).history && events == old(events) + [Skip(|Records(f)|)]
    {
      hide Inv, Run, Pictured, Follows, Sound;
      if taken {
        RecordAppend(f, before, traced);
      } else {
        Record(Skip(|Records(f)|));
      }
    }

    /** The frame just logged is one the state machine accepts. */
    lemma Accepted(f: Frame, nextSeq: nat)
      requires wal.Valid() && wal.frames != [] && wal.frames[|wal.frames| - 1] == f && Follows(f, nextSeq)
      requires forall e :: e in Records(f) && e.deleted ==> e.value == []
      ensures Sound(f)
    {
      hide Encodable, LogBytes, Raws, AllRecords, MaxSeqno;
    }

    method LogPut(key: Data, value: Data) returns (r: Appended)
      requires Core() && now.job.Idle? && !wal.closed && wal.nextSeq + 1 < TWO_64 && |key| < TWO_64 && |value| < TWO_64
      modifies wal, this`now, this`events, this`shots
      ensures Core() && now.job.Idle? && !wal.closed && wal.nextSeq == old(wal.nextSeq) + 1
      ensures r == if TakesUp(Single(Entry(key, value, wal.nextSeq, false))) then Seq(wal.nextSeq)
                   else Refused(TooLarge)
      ensures LoggedOr(r.Seq?, Single(Entry(key, value, wal.nextSeq, false)))
    {
      hide Inv, Run, Pictured, Stored, Log.Valid, S.SkipList.Valid, Sound;
      ghost var f := Single(Entry(key, value, wal.nextSeq + 1, false));
      SingleRecord(f.entry);
      r := wal.AppendPut(key, value);
      if r.Seq? {
        Accepted(f, now.nextSeq);
      }
      Settle(f, r.Seq?, now.disk, old(wal.trace));
    }

    method LogDelete(key: Data) returns (r: Appended)
      requires Core() && now.job.Idle? && !wal.closed && wal.nextSeq + 1 < TWO_64 && |key| < TWO_64
      modifies wal, this`now, this`events, this`shots
      ensures Core() && now.job.Idle? && !wal.closed && wal.nextSeq == old(wal.nextSeq) + 1
      ensures r == if TakesUp(Single(Entry(key, [], wal.nextSeq, true))) then Seq(wal.nextSeq) else Refused(TooLarge)
      ensures LoggedOr(r.Seq?, Single(Entry(key, [], wal.nextSeq, true)))
    {
      hide Inv, Run, Pictured, Stored, Log.Valid, S.SkipList.Valid, Sound;
      ghost var f := Single(Entry(key, [], wal.nextSeq + 1, true));
      SingleRecord(f.entry);
      r := wal.AppendDelete(key);
      if r.Seq? {
        Accepted(f, now.nextSeq);
      }
      Settle(f, r.Seq?, now.disk, old(wal.trace));
    }

    method LogBatch(items: seq<Item>) returns (r: Appended)
      requires Core() && now.job.Idle? && !wal.closed && wal.nextSeq + |items| < TWO_64 && ItemsFit(items)
        && Plain(items) && items != []
      modifies wal, this`now, this`events, this`shots
      ensures Core() && now.job.Idle? && !wal.closed && wal.nextSeq == old(wal.nextSeq) + |items|
      ensures r == if TakesUp(Batch(Numbered(items, old(wal.nextSeq)))) then Seq(wal.nextSeq) else Refused(TooLarge)
      ensures LoggedOr(r.Seq?, Batch(Numbered(items, old(wal.nextSeq))))
    {
      hide Inv, Run, Pictured, Stored, Log.Valid, S.SkipList.Valid, Sound;
      ghost var f := Batch(Numbered(items, wal.nextSeq));
      BatchFollows(items, wal.nextSeq);
      r := wal.AppendBatch(items);
      if r.Seq? {
        Accepted(f, now.nextSeq);
      }
      Settle(f, r.Seq?, now.disk, old(wal.trace));
    }

    /** The frame is in log and history with the steps of an append, or only its numbers are used up. */
    twostate predicate LoggedOr(taken: bool, f: Frame)
      reads this, wal
    {
      if taken then
        wal.frames == old(wal.frames) + [f] && now.history == old(now).history + [f]
        && events == old(events) + AppendEvents(old(now), f)
      else
        wal.frames == old(wal.frames) && now.history == old(now).history && events == old(events) + [Skip(|Records(f)|)]
    }

    /** What follows a write that leaves the memtable with `es`. */
    ghost function FlushIfFull(n: nat, es: seq<Entry>, hasNil: bool): seq<Event>
      requires format.restarts > 0
    {
      if Full(es) then FlushSteps(n, es, hasNil) else []
    }

    predicate Full(es: seq<Entry>) {
      S.TotalBytes(es) >= opts.memtableBytes
    }

    /** How a write that reached the log ends: with an error if the flush it causes meets a nil key. */
    function Ended(es: seq<Entry>, hasNil: bool): Outcome {
      if Full(es) && hasNil then Failed(TableRefused) else Done
    }

    /** What is then in memory, and that without a flush the manifest, files and tables are the given ones of before. */
    ghost predicate Left(es: seq<Entry>, hasNil: bool, before: M.State, dir: map<Data, Data>, ts: seq<OpenTable>)
      reads this, mem, mem.Repr, manif
      requires mem.Valid()
    {
      && (if Full(es) && !hasNil then mem.contents == [] && !mem.HasNil()
          else mem.contents == es && mem.HasNil() == hasNil)
      && (!Full(es) ==> manif.state == before && files == dir && tables == ts)
    }

    /** After a write: the memtable is flushed once it has reached its size. */
    method FlushWhenFull() returns (r: Outcome)
      requires Ready() && !wal.closed && |mem.contents| <= Sizes.MAX_ENTRIES
      modifies this`tables, this`files, this`contents, this`now, this`events, this`shots, wal, manif, mem.Repr
      ensures Ready() && fresh(mem.Repr - old(mem.Repr)) && !wal.closed
      ensures r == Ended(old(mem.contents), old(mem.HasNil()))
      ensures Left(old(mem.contents), old(mem.HasNil()), old(manif.state), old(files), old(tables))
      ensures events == old(events) + FlushIfFull(old(manif.state.nextFile), old(mem.contents), old(mem.HasNil()))
      ensures Past(now) == old(Past(now)) && wal.nextSeq == old(wal.nextSeq)
    {
      hide Linked, Stored, S.SkipList.Valid, Log.Valid, FlushSteps, Memtable, AllRecords, TableReader.ReaderOf;
      hide S.TotalBytes;
      var full := MemtableFull();
      if full {
        r := FlushLocked();
        return;
      }
      assert events == old(events) + [];
      return Done;
    }

    method MemtableFull() returns (full: bool)
      requires Core()
      ensures full == Full(mem.contents)
    {
      full := mem.bytes >= opts.memtableBytes;
    }

    /** Nothing has changed. */
    twostate predicate Same()
      reads this, wal, manif, mem
    {
      && now == old(now) && events == old(events) && mem.contents == old(mem.contents) && tables == old(tables)
      && files == old(files) && wal.frames == old(wal.frames) && manif.state == old(manif.state)
      && wal.nextSeq == old(wal.nextSeq)
    }

    /** When the flush threshold is reached, in bytes of keys and values and sixteen for each entry. */
    lemma FullWhen(es: seq<Entry>)
      ensures Full(es) <==> S.KeyBytes(es) + S.ValueBytes(es) + 16 * |es| >= opts.memtableBytes
    {
      S.TotalBytesSums(es);
    }

    /** A value as large as the threshold reaches it alone. */
    lemma LargeValue(e: Entry)
      requires Valid() && wal.nextSeq < e.seqno && |e.value| >= opts.memtableBytes
      ensures Full(Upsert(mem.contents, e))
    {
      hide Core, Opened, Memtable, Upsert, S.KeyBytes, S.ValueBytes;
      NewestInMemtable(e);
      FullWhen(Upsert(mem.contents, e));
      S.TotalBytesSums(Upsert(mem.contents, e));
    }

    /** A record numbered above all others takes the place of its key's version in the memtable. */
    lemma NewestInMemtable(e: Entry)
      requires Valid() && wal.nextSeq < e.seqno
      ensures e in Upsert(mem.contents, e)
    {
      hide Recoverable, FilesOk, JobOk, WithinPolicy, Log.Valid, Run, Pictured, AllRecords, Memtable, Opened, Upsert;
      var l := AllRecords(now.disk.frames);
      MemtableTop(l, e.key);
      Reads.LogNumbers(now);
      FindUpsert(Memtable(l), e, e.key);
    }

    /** How a write that reached the log ends, the memtable being `m` after it: with a flush, or without. */
    ghost predicate Settled(m: seq<Entry>, hasNil: bool, r: Outcome, before: M.State, dir: map<Data, Data>,
                            ts: seq<OpenTable>)
      reads this, mem, manif
    {
      if S.KeyBytes(m) + S.ValueBytes(m) + 16 * |m| < opts.memtableBytes then
        && r == Done && mem.contents == m && mem.HasNil() == hasNil
        && manif.state == before && files == dir && tables == ts
      else if hasNil then r == Failed(TableRefused) && mem.contents == m && mem.HasNil()
      else r == Done && mem.contents == [] && !mem.HasNil()
    }

    lemma Concluded(m: seq<Entry>, hasNil: bool, r: Outcome, before: M.State, dir: map<Data, Data>, ts: seq<OpenTable>)
      requires Valid() && r == Ended(m, hasNil) && Left(m, hasNil, before, dir, ts)
      ensures Settled(m, hasNil, r, before, dir, ts) && r != Failed(LogRefused(TooLarge))
      ensures Full(m) ==> if hasNil then r == Failed(TableRefused) else r == Done && mem.contents == []
      ensures opts.durability.SyncFull? ==> now.disk.synced == |now.disk.frames|
    {
      FullWhen(m);
      Durable();
    }

    method Put(key: Data, value: Data) returns (r: Outcome)
      requires Valid() && wal.nextSeq + 1 < TWO_64 && |key| < TWO_64 && |value| < TWO_64
      requires |mem.contents| < Sizes.MAX_ENTRIES
      modifies this`tables, this`files, this`contents, this`now, this`events, this`shots, wal, manif, mem.Repr
      ensures Valid() && fresh(mem.Repr - old(mem.Repr)) && closed == old(closed)
      ensures key == [] ==> r == Failed(Invalid) && Same()
      ensures key != [] && old(closed) ==> r == Failed(Error.Closed) && Same()
      ensures key != [] && !old(closed) && opts.readOnly ==> r == Failed(ReadOnly) && Same()
      ensures key != [] && !old(closed) && !opts.readOnly ==>
        var e := Entry(key, value, old(wal.nextSeq) + 1, false);
        var m := Upsert(old(mem.contents), e);
        if !TakesUp(Single(e)) then
          r == Failed(LogRefused(TooLarge)) && View() == old(View()) && events == old(events) + [Skip(1)]
        else
          && View() == old(View())[key := value] && Past(now) == old(Past(now)) + [e]
          && events == old(events) + AppendEvents(old(now), Single(e))
             + FlushIfFull(old(manif.state.nextFile), m, old(mem.HasNil()))
          && Settled(m, old(mem.HasNil()), r, old(manif.state), old(files), old(tables))
      ensures opts.durability.SyncFull? ==> now.disk.synced == |now.disk.frames|
      ensures key != [] && !old(closed) && !opts.readOnly ==>
        && (|key| + |value| + 30 <= 0x1000_0000 ==>
              r != Failed(LogRefused(TooLarge)) && View() == old(View())[key := value])
        && (|key| + |value| > 0x1000_0000 ==> r == Failed(LogRefused(TooLarge)) && View() == old(View()))
        && (opts.memtableBytes <= |value| && |key| + |value| + 30 <= 0x1000_0000 ==>
              if old(mem.HasNil()) then r == Failed(TableRefused) else r == Done && mem.contents == [])
    {
      hide Inv, Run, Pictured, Reached, Stored, Log.Valid, S.SkipList.Valid, Memtable, AllRecords, FlushIfFull, MapOf;
      hide S.TotalBytes, Upsert, TakesUp;
      hide TableReader.ReaderOf, S.SkipList.HasNil;
      hide Settled, Left, Ended, Full, Opened, AppendEvents, S.KeyBytes, S.ValueBytes, LogPolicy;
      ghost var e := Entry(key, value, wal.nextSeq + 1, false);
      SingleSize(e);
      Durable();
      if |key| == 0 {
        return Failed(Invalid);
      }
      if closed {
        return Failed(Error.Closed);
      }
      if opts.readOnly {
        return Failed(ReadOnly);
      }
      if |value| >= opts.memtableBytes {
        LargeValue(e);
      }
      var a := LogPut(key, value);
      if a.Refused? {
        Durable();
        return Failed(LogRefused(a.error));
      }
      OneMore(old(wal.frames), old(now).history, e);
      UpsertLength(mem.contents, e);
      mem.Put(key, false, value, a.last);
      r := FlushWhenFull();
      Concluded(Upsert(old(mem.contents), e), old(mem.HasNil()), r, old(manif.state), old(files), old(tables));
    }

    method Delete(key: Data) returns (r: Outcome)
      requires Valid() && wal.nextSeq + 1 < TWO_64 && |key| < TWO_64
      requires |mem.contents| < Sizes.MAX_ENTRIES
      modifies this`tables, this`files, this`contents, this`now, this`events, this`shots, wal, manif, mem.Repr
      ensures Valid() && fresh(mem.Repr - old(mem.Repr)) && closed == old(closed)
      ensures key == [] ==> r == Failed(Invalid) && Same()
      ensures key != [] && old(closed) ==> r == Failed(Error.Closed) && Same()
      ensures key != [] && !old(closed) && opts.readOnly ==> r == Failed(ReadOnly) && Same()
      ensures key != [] && !old(closed) && !opts.readOnly ==>
        var e := Entry(key, [], old(wal.nextSeq) + 1, true);
        var m := Upsert(old(mem.contents), e);
        if !TakesUp(Single(e)) then
          r == Failed(LogRefused(TooLarge)) && View() == old(View()) && events == old(events) + [Skip(1)]
        else
          && View() == old(View()) - {key} && Past(now) == old(Past(now)) + [e]
          && events == old(events) + AppendEvents(old(now), Single(e))
             + FlushIfFull(old(manif.state.nextFile), m, old(mem.HasNil()))
          && Settled(m, old(mem.HasNil()), r, old(manif.state), old(files), old(tables))
      ensures opts.durability.SyncFull? ==> now.disk.synced == |now.disk.frames|
      ensures key != [] && !old(closed) && !opts.readOnly ==>
        && (|key| + 30 <= 0x1000_0000 ==> r != Failed(LogRefused(TooLarge)) && View() == old(View()) - {key})
        && (|key| > 0x1000_0000 ==> r == Failed(LogRefused(TooLarge)) && View() == old(View()))
    {
      hide Inv, Run, Pictured, Reached, Stored, Log.Valid, S.SkipList.Valid, Memtable, AllRecords, FlushIfFull, MapOf;
      hide S.TotalBytes, Upsert, TakesUp;
      hide TableReader.ReaderOf, S.SkipList.HasNil;
      hide Settled, Left, Ended, Full, Opened, AppendEvents, S.KeyBytes, S.ValueBytes, LogPolicy;
      ghost var e := Entry(key, [], wal.nextSeq + 1, true);
      SingleSize(e);
      Durable();
      if |key| == 0 {
        return Failed(Invalid);
      }
      if closed {
        return Failed(Error.Closed);
      }
      if opts.readOnly {
        return Failed(ReadOnly);
      }
      var a := LogDelete(key);
      if a.Refused? {
        Durable();
        return Failed(LogRefused(a.error));
      }
      OneMore(old(wal.frames), old(now).history, e);
      UpsertLength(mem.contents, e);
      mem.Delete(key, false, a.last);
      r := FlushWhenFull();
      Concluded(Upsert(old(mem.contents), e), old(mem.HasNil()), r, old(manif.state), old(files), old(tables));
    }

    /** Write: the numbers of the entries are worked out from the log's counter. */
    method Write(batch: WriteBatch?) returns (r: Outcome)
      requires Valid()
      requires batch != null ==>
        batch.Valid() && ItemsFit(batch.entries) && wal.nextSeq + |batch.entries| < TWO_64
      requires batch != null ==> |mem.contents| + |batch.entries| <= Sizes.MAX_ENTRIES
      modifies this`tables, this`files, this`contents, this`now, this`events, this`shots, wal, manif, mem.Repr
      ensures Valid() && fresh(mem.Repr - old(mem.Repr)) && closed == old(closed)
      ensures batch == null || old(batch.entries) == [] ==> r == Done && Same()
      ensures batch != null && old(batch.entries) != [] && old(closed) ==> r == Failed(Error.Closed) && Same()
      ensures batch != null && old(batch.entries) != [] && !old(closed) && opts.readOnly ==>
        r == Failed(ReadOnly) && Same()
      ensures batch != null && old(batch.entries) != [] && !old(closed) && !opts.readOnly ==>
        var es := Numbered(old(batch.entries), old(wal.nextSeq));
        var m, hasNil := UpsertAll(old(mem.contents), es),
          NilAfterAll(old(mem.contents), old(mem.HasNil()), old(batch.entries));
        if !TakesUp(Batch(es)) then
          && r == Failed(LogRefused(TooLarge)) && View() == old(View())
          && events == old(events) + [Skip(|old(batch.entries)|)]
        else
          && View() == ApplyItems(old(View()), old(batch.entries)) && Past(now) == old(Past(now)) + es
          && events == old(events) + AppendEvents(old(now), Batch(es))
             + FlushIfFull(old(manif.state.nextFile), m, hasNil)
          && Settled(m, hasNil, r, old(manif.state), old(files), old(tables))
      ensures batch != null && old(batch.entries) != [] && !old(closed) && !opts.readOnly ==>
        var items := old(batch.entries);
        && (ItemBytes(items) + 31 * |items| + 10 <= 0x1000_0000 ==>
              r != Failed(LogRefused(TooLarge)) && View() == ApplyItems(old(View()), items))
        && (ItemBytes(items) > 0x1000_0000 ==> r == Failed(LogRefused(TooLarge)) && View() == old(View()))
      ensures opts.durability.SyncFull? ==> now.disk.synced == |now.disk.frames|
    {
      hide Inv, Run, Pictured, Reached, Stored, Log.Valid, S.SkipList.Valid, Memtable, AllRecords, FlushIfFull, MapOf;
      hide Numbered;
      hide S.TotalBytes, TakesUp, TableReader.ReaderOf, S.SkipList.HasNil, UpsertAll, NilAfterAll, ApplyItems;
      hide Settled, Left, Ended, Full, Opened, AppendEvents, S.KeyBytes, S.ValueBytes, LogPolicy;
      Durable();
      if batch == null || |batch.entries| == 0 {
        return Done;
      }
      if closed {
        return Failed(Error.Closed);
      }
      if opts.readOnly {
        return Failed(ReadOnly);
      }
      var items := batch.entries;
      BatchSize(items, wal.nextSeq);
      var a := LogBatch(items);
      if a.Refused? {
        Durable();
        return Failed(LogRefused(a.error));
      }
      MoreRecords(old(wal.frames), old(now).history, items, old(wal.nextSeq));
      var next := wal.NextSeq();
      ApplyBatch(items, next - 1 - |items| + 1);
      r := FlushWhenFull();
      Concluded(UpsertAll(old(mem.contents), Numbered(items, old(wal.nextSeq))),
                NilAfterAll(old(mem.contents), old(mem.HasNil()), items), r,
                old(manif.state), old(files), old(tables));
    }

    /** The entries of a batch go into the memtable under numbers from `first` on. */
    method ApplyBatch(items: seq<Item>, first: nat)
      requires Core() && Plain(items) && first > 0
      modifies mem.Repr
      ensures Core() && fresh(mem.Repr - old(mem.Repr))
        && mem.contents == UpsertAll(old(mem.contents), Numbered(items, first - 1))
      ensures |mem.contents| <= |old(mem.contents)| + |items|
      ensures mem.HasNil() == NilAfterAll(old(mem.contents), old(mem.HasNil()), items)
    {
      hide Core, Upsert, S.SkipList.HasNil, FirstEmpty, NilAfterAll, Find;
      var i := 0;
      ghost var es := Numbered(items, first - 1);
      NoneEmpty(items, mem.contents, mem.HasNil());
      while i < |items|
        invariant 0 <= i <= |items| && Core() && fresh(mem.Repr - old(mem.Repr))
        invariant mem.contents == UpsertAll(old(mem.contents), es[..i]) && |mem.contents| <= |old(mem.contents)| + i
        invariant mem.HasNil() == NilAfterAll(old(mem.contents), old(mem.HasNil()), items[..i])
        invariant HasEmpty(mem.contents) == HasEmptyAfter(old(mem.contents), items[..i])
      {
        assert es[..i + 1][..i] == es[..i] && es[..i + 1][i] == es[i];
        NextEmpty(items, i, old(mem.contents), old(mem.HasNil()), mem.contents);
        ApplyItem(items[i], first + i);
        i := i + 1;
      }
      assert es[..i] == es && items[..i] == items;
    }

    method ApplyItem(e: Item, seqno: nat)
      requires Core() && (e.deleted ==> e.value == [])
      modifies mem.Repr
      ensures Core() && fresh(mem.Repr - old(mem.Repr))
      ensures mem.contents == Upsert(old(mem.contents), Entry(e.key, e.value, seqno, e.deleted))
      ensures |mem.contents| <= |old(mem.contents)| + 1
      ensures mem.HasNil() == S.NilAfter(old(mem.contents), old(mem.HasNil()), e.key, e.isNil)
      ensures HasEmpty(mem.contents) <==> e.key == [] || HasEmpty(old(mem.contents))
    {
      hide Linked, Stored, Log.Valid, S.SkipList.Valid, Upsert, S.SkipList.HasNil, S.NilAfter;
      ListAfter(mem, Entry(e.key, e.value, seqno, e.deleted));
      if e.deleted {
        mem.Delete(e.key, e.isNil, seqno);
      } else {
        mem.Put(e.key, e.isNil, e.value, seqno);
      }
    }

    lemma ListAfter(list: S.SkipList, e: Entry)
      requires list.Valid()
      ensures |Upsert(list.contents, e)| <= |list.contents| + 1
      ensures HasEmpty(Upsert(list.contents, e)) <==> e.key == [] || HasEmpty(list.contents)
    {
      UpsertLength(list.contents, e);
      FindUpsert(list.contents, e, []);
    }

    method Sync() returns (r: Outcome)
      requires Valid()
      modifies this`now, this`events, this`shots, wal
      ensures Valid() && closed == old(closed) && View() == old(View())
      ensures if closed then r == Failed(Error.Closed) && events == old(events)
              else r == Done && events == old(events) + [Event.Sync] && now.disk.synced == |now.disk.frames|
    {
      hide Inv, Run, Pictured, Stored, Log.Valid, S.SkipList.Valid, Memtable, AllRecords;
      if closed {
        return Failed(Error.Closed);
      }
      var ok := wal.Sync();
      Record(Event.Sync);
      return Done;
    }

    /** Succeeds, and then leaves the memtable empty, if and only if no key in it is a nil slice. */
    method Flush() returns (r: Outcome)
      requires Valid() && |mem.contents| <= Sizes.MAX_ENTRIES
      modifies this`tables, this`files, this`contents, this`now, this`events, this`shots, wal, manif, mem.Repr
      ensures Valid() && fresh(mem.Repr - old(mem.Repr)) && closed == old(closed) && View() == old(View())
      ensures old(closed) ==> r == Failed(Error.Closed) && Same()
      ensures !old(closed) && opts.readOnly ==> r == Failed(ReadOnly) && Same()
      ensures !old(closed) && !opts.readOnly ==>
        && r == (if old(mem.HasNil()) then Failed(TableRefused) else Done)
        && mem.contents == (if old(mem.HasNil()) then old(mem.contents) else []) && mem.HasNil() == old(mem.HasNil())
        && events == old(events) + FlushSteps(old(manif.state.nextFile), old(mem.contents), old(mem.HasNil()))
    {
      hide Linked, Stored, S.SkipList.Valid, Log.Valid, FlushSteps, AllRecords, Memtable, MapOf, TableReader.ReaderOf;
      if closed {
        return Failed(Error.Closed);
      }
      if opts.readOnly {
        return Failed(ReadOnly);
      }
      r := FlushLocked();
    }

    /** Flushes what is in memory, unless opened for reading only, then closes the log and the tables. */
    method Close() returns (r: Outcome)
      requires Valid() && |mem.contents| <= Sizes.MAX_ENTRIES
      modifies this`closed, this`tables, this`files, this`contents, this`now, this`events, this`shots, wal, manif,
        mem.Repr
      ensures Valid() && fresh(mem.Repr - old(mem.Repr)) && closed && View() == old(View())
      ensures old(closed) ==> r == Done && Same()
      ensures !old(closed) ==>
        var flushes := !opts.readOnly && old(mem.contents) != [];
        && r == (if flushes && old(mem.HasNil()) then Failed(TableRefused) else Done)
        && now.disk.synced == |now.disk.frames|
        && mem.contents == (if flushes && !old(mem.HasNil()) then [] else old(mem.contents))
        && events == old(events)
           + (if flushes then FlushSteps(old(manif.state.nextFile), old(mem.contents), old(mem.HasNil())) else [])
                     + [Event.Sync]
    {
      hide Opened, S.SkipList.HasNil, Linked, Stored, S.SkipList.Valid, Log.Valid, FlushSteps, Memtable, AllRecords;
      hide MapOf, TableReader.ReaderOf;
      r := Done;
      if closed {
        return;
      }
      closed := true;
      var size := MemtableSize();
      if !opts.readOnly && size > 0 {
        r := FlushLocked();
      } else {
        assert events == old(events) + [];
      }
      CloseLog();
      CloseTables();
    }

    method CloseTables()
      modifies this`tables
      ensures |tables| == |old(tables)| && forall i :: 0 <= i < |tables| ==> tables[i].reader.file.None?
    {
      var shut: seq<OpenTable> := [];
      while |shut| < |tables|
        invariant tables == old(tables) && |shut| <= |tables|
        invariant forall i :: 0 <= i < |shut| ==> shut[i].reader.file.None?
      {
        var t := tables[|shut|];
        var c := TableReader.CloseReader(t.reader);
        shut := shut + [OpenTable(t.name, c)];
      }
      tables := shut;
    }

    method CloseLog()
      requires Core() && now.job.Idle? && !wal.closed
      modifies this`now, this`events, this`shots, wal
      ensures Core() && now == Step(old(now), Event.Sync) && events == old(events) + [Event.Sync]
        && manif.state == old(manif.state)
    {
      hide Inv, Run, Pictured, Stored, Log.Valid, S.SkipList.Valid;
      wal.Close();
      Record(Event.Sync);
    }

    method MemtableSize() returns (n: nat)
      requires Core()
      ensures n == |mem.contents|
    {
      n := mem.size;
    }

    // ----- reads -----

    /** The newest version among the tables, newest table first. */
    method SearchTables(key: Data) returns (best: Option<Entry>)
      requires Core() && |tables| == |manif.state.files| && Opened(tables, manif.state.files, |tables|)
      ensures best == BestFrom(Tables(now.disk), 0, key)
    {
      hide Inv, Run, Pictured, Stored, Log.Valid, S.SkipList.Valid, Table.Representable, Table.TableBytes;
      hide TableReader.ReaderOf, Load;
      best := None;
      var i := |tables|;
      while i > 0
        invariant 0 <= i <= |tables| && best == BestFrom(Tables(now.disk), i, key)
      {
        i := i - 1;
        ghost var f := manif.state.files[i];
        NamedWritten(f);
        WrittenStorable(f);
        var found := TableReader.Get(tables[i].reader, key, env, Load(contents, f.name), format);
        if found.Found? && (best.None? || found.entry.seqno > best.value.seqno) {
          best := Some(found.entry);
        }
      }
    }

    lemma WrittenStorable(f: M.FileMeta)
      requires WrittenIn(files, f.name, Load(contents, f.name), format, env)
      ensures Table.Representable(Load(contents, f.name), format, env)
    {
    }

    /** Point reads stay right as long as the log is synced on every append, or each flush finds it safe. */
    lemma PointReads()
      requires Linked() && Reads.Dominated(start) && (Reads.Full(wal.policy) || Reads.SafeRun(start, events))
      ensures Reads.GetsRight(now)
    {
      hide Inv, Run, Pictured, Reads.Dominated, Reads.SafeRun, Reads.GetsRight, Reads.Full;
      assert Reads.Full(wal.policy) ==> Reads.FullRun(start.policy, events);
      Reads.GetRefinesMap(start, events, []);
    }

    /**
     Point reads of a store opened with a log as it should be show the plain map as long as
     the log is synced on every append, or each flush finds it harmless.
     */
    lemma PointReadsShow()
      requires Linked() && Answers.Truthful(start)
      requires Reads.Full(wal.policy) || Answers.HarmlessRun(start, events)
      ensures Answers.ShowsRight(now)
    {
      hide Inv, Run, Pictured, Answers.Truthful, Answers.HarmlessRun, Answers.ShowsRight, Reads.Full;
      if Reads.Full(wal.policy) {
        Answers.FullRunHarmless(start, events);
      }
      Answers.RunShowsMap(start, events);
    }

    /**
     A crash after any of the steps recorded since the store was opened, in the middle of an
     operation or not: what survives is a prefix of the history, within the limit of the
     sync policy, and a scan after reopening shows the plain map of that prefix.
     */
    lemma CrashAtAnyStep(i: nat, p: nat, dir: map<Data, seq<Entry>>, policy: SyncPolicy)
      requires Linked() && i <= |events|
      ensures Run(start, events[..i]).Some?
      ensures var s := Run(start, events[..i]).value;
              Inv(s) && (Enabled(s, Crash(p, dir, policy)) ==>
                var t := Step(s, Crash(p, dir, policy));
                && t.history <= s.history
                && (Limit(s.policy).Some? ==>
                      |s.history| - |t.history| <= Limit(s.policy).value + (if s.job.Syncing? then 1 else 0))
                && forall k :: Scanned(t, k) == Lookup(MapOf(AllRecords(t.history)), k))
    {
      hide Inv, Run, Pictured, Enabled, Step, Scanned, MapOf;
      RunPrefix(start, events, i);
      RunKeeps(start, events[..i]);
      if Enabled(Run(start, events[..i]).value, Crash(p, dir, policy)) {
        CrashRefinement(start, events[..i], p, dir, policy);
      }
    }

    /** What Get shows; it is the plain map's value whenever point reads are right. */
    method Get(key: Data) returns (r: Read)
      requires Valid()
      ensures closed ==> r == NoValue(Error.Closed)
      ensures !closed ==> r == ReadOf(Got(now, key))
      ensures !closed && Answers.ShowsRight(now) ==>
        r == if key in View() then Value(View()[key]) else NoValue(NotFound)
      ensures !closed && Answers.Truthful(start) && (Reads.Full(wal.policy) || Answers.HarmlessRun(start, events)) ==>
        r == if key in View() then Value(View()[key]) else NoValue(NotFound)
    {
      hide Inv, Run, Pictured, Stored, Log.Valid, S.SkipList.Valid, Memtable, AllRecords, TableReader.ReaderOf, MapOf;
      if closed {
        return NoValue(Error.Closed);
      }
      hide Reads.Full, Answers.Truthful, Answers.HarmlessRun;
      if Answers.Truthful(start) && (Reads.Full(wal.policy) || Answers.HarmlessRun(start, events)) {
        PointReadsShow();
      }
      var e := mem.Get(key);
      if e.Some? {
        if e.value.deleted {
          return NoValue(NotFound);
        }
        return Value(e.value.value);
      }
      var best := SearchTables(key);
      if best.None? || best.value.deleted {
        return NoValue(NotFound);
      }
      return Value(best.value.value);
    }

    method Has(key: Data) returns (r: Option<bool>)
      requires Valid()
      ensures r == if closed then None else Some(Got(now, key).Some?)
    {
      hide Core, Got;
      var v := Get(key);
      match v
      case Value(_) => return Some(true);
      case NoValue(e) => return if e == NotFound then Some(false) else None;
    }

    /** No table would add to what a scan of the memtable alone shows. */
    ghost predicate TablesAddNothing()
      reads this`now, mem
    {
      forall k ::
        var m, v := Find(mem.contents, k), BestFrom(Tables(now.disk), 0, k);
        v.Some? && (m.None? || m.value.seqno < v.value.seqno) ==> Shown(v) == Shown(m)
    }

    /**
     An iterator over the merged view: in key order, and exactly the plain map. It does not
     look whether the store is closed; after Close the tables yield nothing, without an
     error, and what is left is the memtable alone.
     */
    method NewIterator() returns (it: Scan.Iterator)
      requires Valid()
      ensures fresh(it) && it.Placed() && !it.Valid() && Sorted(it.items)
      ensures forall i :: 0 <= i < |it.items| ==> !it.items[i].deleted
      ensures !closed ==> ShowsMap(it.items) && (AgreesWithGet(it.items) <==> MemoryShowsMap())
      ensures closed ==> it.items == Merge.Kept(mem.contents, true) && (ShowsMap(it.items) <==> TablesAddNothing())
    {
      hide Linked, Stored, Log.Valid, S.SkipList.Valid, Memtable, AllRecords, TableReader.ReaderOf;
      hide MapOf, ScanOf, TablesAddNothing, ShowsMap, AgreesWithGet, MemoryShowsMap;
      var snap, nils := mem.Snapshot();
      var lists := ScanTables();
      SortedMemtable(now.disk);
      SortedTables();
      var items := Scan.CollectMerged(snap, lists);
      ScanSorted(lists, snap);
      if closed {
        EmptyTables(lists, snap);
        MemtableAlone();
      } else {
        WholeView();
        AgreesWhen(items);
      }
      it := new Scan.Iterator(items);
    }

    /** The items are the plain map. */
    ghost predicate ShowsMap(items: seq<Entry>)
      reads this`now
    {
      forall k :: Shown(Find(items, k)) == Lookup(View(), k)
    }

    /** The items are what Get shows. */
    ghost predicate AgreesWithGet(items: seq<Entry>)
      reads this`now
    {
      forall k :: Shown(Find(items, k)) == Got(now, k)
    }

    /** No key of the memtable shows anything but the plain map. */
    ghost predicate MemoryShowsMap()
      reads this`now, mem
    {
      forall k :: Find(mem.contents, k).Some? ==> Shown(Find(mem.contents, k)) == Lookup(View(), k)
    }

    /** Get and a scan agree on every key exactly when every key of the memtable shows the plain map. */
    lemma AgreesWhen(items: seq<Entry>)
      requires Linked() && mem.contents == Mem(now.disk) && ShowsMap(items)
      ensures AgreesWithGet(items) <==> MemoryShowsMap()
    {
      hide Inv, Run, Pictured, MapOf, BestFrom, Memtable, AllRecords, Latest, Tables;
      forall k
        ensures Got(now, k) == if Find(mem.contents, k).Some? then Shown(Find(mem.contents, k)) else Lookup(View(), k)
      {
        Answers.WithoutMemtable(now, k);
        MapOfLatest(Past(now), k);
      }
      if AgreesWithGet(items) {
        forall k | Find(mem.contents, k).Some?
          ensures Shown(Find(mem.contents, k)) == Lookup(View(), k)
        {
          assert Shown(Find(items, k)) == Lookup(View(), k);
          assert Shown(Find(items, k)) == Got(now, k);
        }
      }
    }

    lemma WholeView()
      requires Linked()
      ensures ShowsMap(ScanOf(Tables(now.disk), Mem(now.disk)))
    {
      hide Inv, Run, Pictured, MapOf, ScanOf;
      forall k
        ensures Shown(Find(ScanOf(Tables(now.disk), Mem(now.disk)), k)) == Lookup(View(), k)
      {
        ScanRefinesMap(now, k);
      }
    }

    /** The memtable alone shows the plain map exactly when the tables add nothing to it. */
    lemma MemtableAlone()
      requires Linked() && mem.contents == Mem(now.disk)
      ensures ShowsMap(Merge.Kept(mem.contents, true)) <==> TablesAddNothing()
    {
      hide Inv, Run, Pictured, MapOf, BestFrom, Tables, Memtable, AllRecords;
      SortedMemtable(now.disk);
      forall k
        ensures Shown(Find(Merge.Kept(mem.contents, true), k)) == Shown(Find(mem.contents, k))
        ensures Lookup(View(), k) == Shown(Newer(Find(mem.contents, k), BestFrom(Tables(now.disk), 0, k)))
      {
        Merge.FindKept(mem.contents, true, k);
        NewestSeen(k);
      }
      if ShowsMap(Merge.Kept(mem.contents, true)) {
        forall k
          ensures var m, v := Find(mem.contents, k), BestFrom(Tables(now.disk), 0, k);
                  v.Some? && (m.None? || m.value.seqno < v.value.seqno) ==> Shown(v) == Shown(m)
        {
          assert Shown(Find(Merge.Kept(mem.contents, true), k)) == Lookup(View(), k);
        }
      }
    }

    /** The newest version over memtable and tables is what the plain map shows. */
    lemma NewestSeen(k: Data)
      requires Linked()
      ensures Lookup(View(), k) == Shown(Newer(Find(Mem(now.disk), k), BestFrom(Tables(now.disk), 0, k)))
    {
      hide Represents, Memtable, AllRecords, MapOf, Held, BestFrom, Latest, Named;
      LiveSurvives(now);
      SortedTables();
      var l, ts := AllRecords(now.disk.frames), Tables(now.disk);
      var v := Newer(Find(Memtable(l), k), BestFrom(ts, 0, k));
      MemtableTop(l, k);
      BestTop(ts, 0, k);
      assert ts[0..] == ts;
      MemtableElems(l);
      assert Top(v, k, Held(ts) + Elems(l));
      Resolve(Held(ts), l, Past(now), k, v);
      MapOfLatest(Past(now), k);
    }

    /** What iterating over the open tables yields, or over the closed ones: nothing. */
    method ScanTables() returns (lists: seq<seq<Entry>>)
      requires Valid()
      ensures if closed then forall i :: 0 <= i < |lists| ==> lists[i] == [] else lists == Tables(now.disk)
    {
      hide Core, Opened, Load;
      lists := [];
      while |lists| < |tables|
        invariant |lists| <= |tables|
        invariant forall i :: 0 <= i < |lists| ==>
          lists[i] == if closed then [] else Load(contents, manif.state.files[i].name)
      {
        var es := ScanTable(|lists|);
        lists := lists + [es];
      }
      TablesNow(lists);
    }

    method ScanTable(i: nat) returns (es: seq<Entry>)
      requires Valid() && i < |tables|
      ensures i < |manif.state.files| && es == if closed then [] else Load(contents, manif.state.files[i].name)
    {
      hide Linked, Stored, Log.Valid, S.SkipList.Valid, Table.Representable, Table.TableBytes, TableReader.ReaderOf;
      hide Load, WrittenIn;
      ghost var f := manif.state.files[i];
      NamedWritten(f);
      WrittenStorable(f);
      ReaderOpen(Load(contents, f.name));
      es := TableIter.ReadAll(tables[i].reader, env, Load(contents, f.name), format);
    }

    lemma TablesNow(lists: seq<seq<Entry>>)
      requires Valid() && |lists| == |tables|
      requires forall i :: 0 <= i < |lists| ==>
        lists[i] == if closed then [] else Load(contents, manif.state.files[i].name)
      ensures !closed ==> lists == Tables(now.disk)
    {
      hide Inv, Run, Pictured, Stored, Log.Valid, S.SkipList.Valid, Opened, Load;
    }

    lemma ReaderOpen(es: seq<Entry>)
      requires format.Valid()
      ensures TableReader.ReaderOf(es, format, env).file.Some?
    {
    }

    lemma SortedTables()
      requires Linked()
      ensures Merge.AllSorted(Tables(now.disk))
    {
      hide Recoverable, Numbers, JobOk, WithinPolicy;
      TablesSorted(now.disk.manifest.files, now.disk.files, Bound(now));
    }

    /** Reads every entry of the tables named. */
    method ReadTables(metas: seq<M.FileMeta>) returns (lists: seq<seq<Entry>>)
      requires Core() && forall f :: f in metas ==> f in manif.state.files
      ensures lists == Contents(metas, contents)
    {
      hide Inv, Run, Pictured, Stored, Log.Valid, S.SkipList.Valid, Table.Representable, Table.TableBytes;
      hide TableReader.ReaderOf, Load, WrittenIn;
      lists := [];
      while |lists| < |metas|
        invariant |lists| <= |metas| && forall i :: 0 <= i < |lists| ==> lists[i] == Load(contents, metas[i].name)
      {
        var f := metas[|lists|];
        NamedWritten(f);
        WrittenStorable(f);
        var r := ReadTable(f.name, Load(contents, f.name));
        ReaderOpen(Load(contents, f.name));
        var es := TableIter.ReadAll(r, env, Load(contents, f.name), format);
        lists := lists + [es];
      }
    }

    // ----- compaction -----

    /** The names of the tables the plan picks. */
    ghost function Inputs(): set<Data>
      reads manif
    {
      NamesOf(Compaction.Pick(manif.state.files))
    }

    /** What the manifest knows of the open tables, found by name. */
    method TableRefs() returns (refs: seq<M.FileMeta>)
      requires format.Valid() && Distinct(manif.state.files)
      requires |tables| == |manif.state.files| && Opened(tables, manif.state.files, |tables|)
      ensures refs == manif.state.files
    {
      hide Load, TableReader.ReaderOf;
      var fs := manif.state.files;
      var byName: map<Data, M.FileMeta> := map[];
      var i := 0;
      while i < |fs|
        invariant 0 <= i <= |fs|
        invariant forall j :: 0 <= j < i ==> fs[j].name in byName && byName[fs[j].name] == fs[j]
      {
        byName := byName[fs[i].name := fs[i]];
        i := i + 1;
      }
      refs := [];
      i := 0;
      while i < |tables|
        invariant 0 <= i <= |tables| && refs == fs[..i]
      {
        refs := refs + [byName[tables[i].name]];
        i := i + 1;
      }
    }

    /** Sorts the open tables into those kept and the names of those removed. */
    method SplitTables(remove: set<Data>) returns (kept: seq<OpenTable>, removeNames: seq<Data>)
      requires format.Valid() && remove <= NamesOf(manif.state.files)
      requires |tables| == |manif.state.files| && Opened(tables, manif.state.files, |tables|)
      ensures var metas := M.Without(manif.state.files, remove);
              |kept| == |metas| && Opened(kept, metas, |kept|)
      ensures M.Names(removeNames) == remove
    {
      hide Load, TableReader.ReaderOf, NamesOf, M.Names, M.Without;
      ghost var fs := manif.state.files;
      kept, removeNames := [], [];
      var i := 0;
      NothingSplit(fs, remove);
      while i < |tables|
        invariant 0 <= i <= |tables|
        invariant |kept| == |M.Without(fs[..i], remove)| && Opened(kept, M.Without(fs[..i], remove), |kept|)
        invariant M.Names(removeNames) == remove * NamesOf(fs[..i])
      {
        var t := tables[i];
        SplitStep(fs, i, remove, removeNames);
        if t.name in remove {
          removeNames := removeNames + [t.name];
        } else {
          kept := kept + [t];
        }
        i := i + 1;
      }
      assert fs[..i] == fs && remove * NamesOf(fs) == remove;
    }

    /** The merge itself: reads the inputs, merges, and writes the output table. */
    method MergeInputs(inputs: seq<M.FileMeta>, name: Data) returns (meta: TableWriter.Meta)
      requires Core() && now.job.MergeNamed? && Enabled(now, WriteMerge) && name == M.FileName(now.job.n)
      requires inputs == Only(manif.state.files, now.job.inputs) && Storable(MergeOf(now.disk, now.job.inputs))
      modifies this`files, this`contents, this`now, this`events, this`shots
      ensures Core() && now == Step(old(now), WriteMerge) && events == old(events) + [WriteMerge]
      ensures contents == old(contents)[name := MergeOf(old(now).disk, old(now).job.inputs)]
      ensures var out := MergeOf(old(now).disk, old(now).job.inputs);
              meta == TableWriter.MetaOf(out, |Table.TableBytes(out, format, env)|)
    {
      hide Inv, Run, Pictured, Stored, Log.Valid, S.SkipList.Valid, Table.Representable, Table.TableBytes;
      hide Merge.Merged, Contents, Only, TableWriter.MetaOf;
      OnlyMembers(manif.state.files, now.job.inputs);
      var lists := ReadTables(inputs);
      SortedInputs(inputs);
      var out, keptTomb, dropped := Merge.MergeEntries(lists, false);
      Merge.MergedFinds(lists, false, []);
      meta := WriteTable(WriteMerge, name, out);
    }

    lemma SortedInputs(inputs: seq<M.FileMeta>)
      requires Linked() && forall f :: f in inputs ==> f in manif.state.files
      ensures Merge.AllSorted(Contents(inputs, contents))
    {
      hide Recoverable, Numbers, JobOk, WithinPolicy, FileOk, Contents;
      TablesSorted(inputs, contents, Bound(now));
    }

    /** The manifest names the output instead of the inputs, and every Get is as it was. */
    ghost predicate Published(s: Store, fm: M.FileMeta)
      reads this`now, manif
    {
      && s.job.MergeWritten? && now.job == Removing(s.job.inputs)
      && now.history == s.history && now.disk.frames == s.disk.frames && now.disk.files == s.disk.files
      && manif.state.files == M.Without(s.disk.manifest.files, s.job.inputs) + [fm]
      && SameReads(s, now)
    }

    /** The manifest takes the output for the inputs. */
    method ReplaceTables(removeNames: seq<Data>, fm: M.FileMeta)
      requires Core() && now.job.MergeWritten? && M.Names(removeNames) == now.job.inputs
        && Enabled(now, PublishMerge(fm))
      modifies this`now, this`events, this`shots, manif
      ensures Core() && Published(old(now), fm) && events == old(events) + [PublishMerge(fm)]
    {
      hide Inv, Run, Pictured, Stored, Log.Valid, S.SkipList.Valid, Memtable, AllRecords, Describes, MergeOf, M.Without;
      forall k
        ensures Got(Step(now, PublishMerge(fm)), k) == Got(now, k)
      {
        Compaction.CompactionKeepsGet(now, fm, Mem(now.disk), k);
      }
      manif.Replace(removeNames, [fm], fm.maxSeq);
      Record(PublishMerge(fm));
    }

    /** The merged files go, in any order. */
    method RemoveFiles(remove: set<Data>)
      requires Core() && now.job == Removing(remove) && remove != {}
      modifies this`files, this`contents, this`now, this`events, this`shots
      ensures Core() && now.job.Idle? && now.history == old(now).history
        && now.disk == old(now).disk.(files := old(now).disk.files - remove)
      ensures Tables(now.disk) == old(Tables(now.disk))
      ensures |events| >= |old(events)| && events[..|old(events)|] == old(events)
      ensures forall i :: |old(events)| <= i < |events| ==> events[i].Remove?
    {
      hide Inv, Run, Pictured, Stored, Log.Valid, S.SkipList.Valid, Tables;
      var rest := remove;
      while rest != {}
        invariant Core() && now.job == if rest == {} then Idle else Removing(rest)
        invariant rest <= remove && now.history == old(now).history
        invariant now.disk == old(now).disk.(files := old(now).disk.files - (remove - rest))
        invariant Tables(now.disk) == old(Tables(now.disk))
        invariant |events| >= |old(events)| && events[..|old(events)|] == old(events)
        invariant forall i :: |old(events)| <= i < |events| ==> events[i].Remove?
      {
        var p :| p in rest;
        RemoveKeepsTables(now, p);
        assert contents - {p} == old(now).disk.files - (remove - (rest - {p}));
        RemoveOne(p);
        rest := rest - {p};
      }
    }

    method RemoveOne(p: Data)
      requires Core() && Enabled(now, Remove(p))
      modifies this`files, this`contents, this`now, this`events, this`shots
      ensures Core() && now == Step(old(now), Remove(p)) && events == old(events) + [Remove(p)]
    {
      hide Inv, Run, Pictured, Log.Valid, S.SkipList.Valid, AllWritten;
      RemoveFile(files, contents, p, format, env);
      files := files - {p};
      contents := contents - {p};
      Record(Remove(p));
    }

    method NameSet(inputs: seq<M.FileMeta>) returns (names: set<Data>)
      ensures names == NamesOf(inputs)
    {
      names := {};
      var i := 0;
      while i < |inputs|
        invariant 0 <= i <= |inputs| && names == NamesOf(inputs[..i])
      {
        NamesAppend(inputs, i);
        names := names + {inputs[i].name};
        i := i + 1;
      }
      assert inputs[..i] == inputs;
    }

    /** The output of a merge is the table just written. */
    lemma MergeOutput()
      requires Linked() && now.job.MergeWritten?
      ensures M.FileName(now.job.n) in contents && contents[M.FileName(now.job.n)] == MergeOf(now.disk, now.job.inputs)
    {
      hide Recoverable, Numbers, FilesOk, WithinPolicy, MergeOf;
    }

    lemma OpenedSame(ts: seq<OpenTable>, before: map<Data, seq<Entry>>)
      requires format.Valid() && |ts| == |manif.state.files|
        && Contents(manif.state.files, contents) == Contents(manif.state.files, before)
      requires forall i :: 0 <= i < |ts| ==>
        && ts[i].name == manif.state.files[i].name
        && ts[i].reader == TableReader.ReaderOf(Load(before, manif.state.files[i].name), format, env)
      ensures Opened(ts, manif.state.files, |ts|)
    {
      hide TableReader.ReaderOf, Load;
      forall i | 0 <= i < |ts|
        ensures Load(contents, manif.state.files[i].name) == Load(before, manif.state.files[i].name)
      {
        assert Contents(manif.state.files, contents)[i] == Contents(manif.state.files, before)[i];
      }
    }

    /** An effective compaction, step by step: number, table, manifest, old files. */
    method MergeAndReplace(inputs: seq<M.FileMeta>)
      requires Valid() && !closed && inputs == Compaction.Pick(manif.state.files) && |manif.state.files| >= 2
      requires |MergeOf(now.disk, Inputs())| <= Sizes.MAX_ENTRIES
      modifies this`tables, this`files, this`contents, this`now, this`events, this`shots, manif
      ensures Valid() && |tables| < |old(tables)| && Compacted()
    {
      hide Opened, Reached, Inv, Run, Pictured, Stored, Log.Valid, S.SkipList.Valid, Memtable, AllRecords, MergeOf;
      hide Table.Representable, Table.TableBytes;
      hide Compaction.Pick, TableReader.ReaderOf, M.Without, Contents, NamesOf, M.FileName, Meta, Got, SameReads;
      hide Enabled, Only;
      Compaction.PickShrinks(manif.state.files, Meta(manif.state.nextFile, 1, MergeOf(now.disk, Inputs()))) by {
        DistinctFiles();
      }
      var remove := NameSet(inputs);
      MergeStorable(remove);
      var fm := MergeTables(inputs, remove);
      ghost var merged := now;
      var kept := FinishMerge(remove, fm);
      tables := kept;
      SameGets(old(now), merged);
      ReadsChain(old(now), merged, now);
    }

    /** From the written output to the removal of the last input. */
    method FinishMerge(remove: set<Data>, fm: M.FileMeta) returns (kept: seq<OpenTable>)
      requires Core() && now.job.MergeWritten? && now.job.inputs == remove && remove != {}
        && Enabled(now, PublishMerge(fm))
      requires remove <= NamesOf(manif.state.files) && fm.name in contents
      requires |tables| == |manif.state.files| && Opened(tables, manif.state.files, |tables|)
      modifies this`files, this`contents, this`now, this`events, this`shots, manif
      ensures Core() && now.job.Idle? && now.history == old(now).history && now.disk.frames == old(now).disk.frames
      ensures manif.state.files == M.Without(old(manif.state.files), remove) + [fm]
        && contents == old(contents) - remove
      ensures |kept| == |manif.state.files| && Opened(kept, manif.state.files, |kept|)
      ensures |events| > |old(events)| && events[..|old(events)| + 1] == old(events) + [PublishMerge(fm)]
      ensures forall i :: |old(events)| < i < |events| ==> events[i].Remove?
      ensures SameReads(old(now), now)
    {
      hide Inv, Run, Pictured, Stored, Log.Valid, S.SkipList.Valid, Memtable, AllRecords, Enabled;
      hide TableReader.ReaderOf, M.Without, Contents, NamesOf, Got, SameReads;
      kept := AdoptOutput(remove, fm);
      ghost var published, before := now, contents;
      RemoveFiles(remove);
      OpenedSame(kept, before);
      SameGets(published, now);
      ReadsChain(old(now), published, now);
    }

    lemma MergeStorable(names: set<Data>)
      requires Linked() && format.Valid() && format.blockSize < Sizes.MAX_BLOCK
        && |MergeOf(now.disk, names)| <= Sizes.MAX_ENTRIES
      ensures Storable(MergeOf(now.disk, names))
    {
      hide Recoverable, JobOk, FilesOk, WithinPolicy, AllRecords, Sizes.Small, Table.Representable, MergeOf, Held;
      hide Tables;
      var out := MergeOf(now.disk, names);
      MergeWithin(now, names);
      forall i | 0 <= i < |out|
        ensures Sizes.Small(out[i])
      {
        assert out[i] in Elems(out) && out[i] in Elems(Past(now));
        SmallRecord(now.history, out[i]);
      }
      Sizes.SmallTables(out, format, env);
    }

    /** Writes the merged table under a new number. */
    method MergeTables(inputs: seq<M.FileMeta>, remove: set<Data>) returns (fm: M.FileMeta)
      requires Core() && now.job.Idle? && |tables| == |manif.state.files| && Opened(tables, manif.state.files, |tables|)
      requires remove != {} && remove <= NamesOf(manif.state.files) && inputs == Only(manif.state.files, remove)
      requires Storable(MergeOf(now.disk, remove))
      modifies this`files, this`contents, this`now, this`events, this`shots, manif
      ensures Core() && now.job.MergeWritten? && now.job.inputs == remove && Enabled(now, PublishMerge(fm))
      ensures manif.state.files == old(manif.state.files) && Opened(tables, manif.state.files, |tables|)
      ensures fm == Meta(old(manif.state.nextFile), 1, MergeOf(old(now).disk, remove))
      ensures contents == old(contents)[fm.name := MergeOf(old(now).disk, remove)] && now.history == old(now).history
      ensures wal.frames == now.disk.frames == old(now).disk.frames
        && events == old(events) + [StartMerge(remove), WriteMerge]
      ensures Tables(now.disk) == Tables(old(now).disk)
    {
      hide Inv, Run, Pictured, Stored, Log.Valid, S.SkipList.Valid, Memtable, AllRecords, Merge.Merged;
      hide Table.Representable, Table.TableBytes;
      hide TableReader.ReaderOf, Contents, Only, MaxSeqno, M.FileName, TableWriter.LastKey, Describes;
      ghost var out := MergeOf(now.disk, remove);
      var name := Allocate(StartMerge(remove));
      UnusedName();
      var meta := MergeInputs(inputs, name);
      MergeOutput();
      SameContents(manif.state.files, old(contents), contents, name);
      fm := M.FileMeta(name, 1, KeyOf(meta.minKey), KeyOf(meta.maxKey), meta.maxSeq, meta.entries, meta.fileSize);
      RecordOf(now.job.n, 1, out, meta);
    }

    /** Opens the merged table in the place of its inputs and publishes the change. */
    method AdoptOutput(remove: set<Data>, fm: M.FileMeta) returns (kept: seq<OpenTable>)
      requires Core() && now.job.MergeWritten? && now.job.inputs == remove && Enabled(now, PublishMerge(fm))
      requires remove <= NamesOf(manif.state.files) && fm.name in contents
      requires |tables| == |manif.state.files| && Opened(tables, manif.state.files, |tables|)
      modifies this`now, this`events, this`shots, manif
      ensures Core() && Published(old(now), fm) && events == old(events) + [PublishMerge(fm)]
      ensures |kept| == |manif.state.files| && Opened(kept, manif.state.files, |kept|)
    {
      hide Inv, Run, Pictured, Stored, Log.Valid, S.SkipList.Valid, Memtable, AllRecords, MergeOf, TableReader.ReaderOf;
      hide M.Without, NamesOf, Describes, Got;
      var removeNames;
      kept, removeNames := SplitTables(remove);
      var reader := ReadTable(fm.name, contents[fm.name]);
      kept := kept + [OpenTable(fm.name, reader)];
      ReplaceTables(removeNames, fm);
    }

    /** What an effective compaction leaves: fewer tables, the same reads, and the steps in this order. */
    twostate predicate Compacted()
      reads this, wal, manif, mem
      requires format.restarts > 0
    {
      var fs, names, before := old(manif.state.files), old(Inputs()), |old(events)|;
      var out := MergeOf(old(now).disk, names);
      var fm := Merged(old(manif.state.nextFile), old(now).disk, names);
      && |manif.state.files| < |fs| && manif.state.files == M.Without(fs, names) + [fm]
      && contents == old(contents)[fm.name := out] - names
      && now.history == old(now).history && wal.frames == old(wal.frames)
      && |events| >= before + 3
      && events[..before + 3] == old(events) + [StartMerge(names), WriteMerge, PublishMerge(fm)]
      && (forall i :: before + 3 <= i < |events| ==> events[i].Remove?)
      && SameReads(old(now), now)
    }

    method Compact() returns (r: Outcome)
      requires Valid() && (|manif.state.files| >= 2 ==> |MergeOf(now.disk, Inputs())| <= Sizes.MAX_ENTRIES)
      modifies this`tables, this`files, this`contents, this`now, this`events, this`shots, manif
      ensures Valid() && closed == old(closed) && mem.contents == old(mem.contents) && View() == old(View())
      ensures closed ==> r == Failed(Error.Closed) && Same()
      ensures !closed && opts.readOnly ==> r == Failed(ReadOnly) && Same()
      ensures !closed && !opts.readOnly ==> r == Done
      ensures !closed && !opts.readOnly ==>
        if |old(tables)| < opts.compactThreshold || |old(tables)| < 2 then Same()
        else |tables| < |old(tables)| && Compacted()
      ensures !closed && !opts.readOnly && |old(tables)| >= opts.compactThreshold && |old(tables)| >= 2 ==>
        var n := |Compaction.ZeroPlaces(old(manif.state.files))|;
        if n >= 2 then |tables| == |old(tables)| - n + 1 && Compaction.ZeroPlaces(manif.state.files) == {}
        else |tables| == |old(tables)| - 1
    {
      hide Linked, Stored, Log.Valid, S.SkipList.Valid, Memtable, AllRecords, MapOf, MergeOf;
      hide Compaction.Pick, Meta, TableReader.ReaderOf;
      if closed {
        return Failed(Error.Closed);
      }
      if opts.readOnly {
        return Failed(ReadOnly);
      }
      if |tables| < opts.compactThreshold {
        return Done;
      }
      DistinctFiles();
      var refs := TableRefs();
      var inputs := Compaction.PlanInputs(refs);
      Compaction.PickShrinks(manif.state.files, M.FileMeta([], 0, [], [], 0, 0, 0));
      if |inputs| == 0 {
        return Done;
      }
      MergeAndReplace(inputs);
      Compaction.PickLeaves(old(manif.state.files), Merged(old(manif.state.nextFile), old(now).disk, old(Inputs())));
      return Done;
    }

    /** The record of the table a merge writes. */
    ghost function Merged(n: nat, d: Disk, names: set<Data>): (fm: M.FileMeta)
      requires format.restarts > 0
      ensures fm.level == 1
    {
      Meta(n, 1, MergeOf(d, names))
    }

    lemma DistinctFiles()
      requires Linked()
      ensures Distinct(manif.state.files)
    {
      hide Recoverable, Numbers, JobOk, WithinPolicy;
    }
  }

  // ---------- a crash at any step, in bytes ----------

  /** A directory that agrees with a picture on the files its manifest names holds these files whole. */
  lemma NamedInPicture(s: Store, pic: Picture, dir: map<Data, Data>, f: M.FileMeta, o: Table.Options, env: Table.Env,
                       crc: Data -> U32)
    requires Inv(s) && PictureOf(pic, s.disk, o, env, crc) && f in s.disk.manifest.files
    requires f.name in pic.files ==> f.name in dir && dir[f.name] == pic.files[f.name]
    ensures WrittenIn(dir, f.name, Load(s.disk.files, f.name), o, env)
  {
    hide Recoverable, JobOk, Numbers, WithinPolicy, LogBytes, Table.Representable, Table.TableBytes;
    assert FileOk(f, s.disk.files, Bound(s));
  }

  /**
   The crash theorem in bytes. Whatever step of whatever operation the store was at, take
   the bytes then on disk: the files the manifest names, any others, and the log cut
   anywhere behind its synced frames. Opening them works, and gives a prefix of the history
   within the limit of the sync policy; point reads of it are right if the flushes so far
   found the log harmless.
   */
  method ReopenAfterCrash(db: DB, ghost i: nat, ghost n: nat, o: Option<Options>, dir: map<Data, Data>, logFile: Data,
                          manifest: M.State)
    returns (again: DB)
    requires db.Reached() && i <= |db.events| && db.format.Valid() && db.format.blockSize < Sizes.MAX_BLOCK
    requires n <= |db.shots[i].log| && logFile == db.shots[i].log[..n] && manifest == db.shots[i].manifest
    requires forall f :: f in manifest.files && f.name in db.shots[i].files ==>
      f.name in dir && dir[f.name] == db.shots[i].files[f.name]
    requires BehindSynced(db.At(i), n, db.wal.crc)
    ensures again.Valid() && !again.closed && fresh(again)
    ensures again.now.history <= db.At(i).history
    ensures n == |db.shots[i].log| ==> again.now.history == db.At(i).history
    ensures Limit(db.wal.policy).Some? ==>
      |db.At(i).history| - |again.now.history|
      <= Limit(db.wal.policy).value + (if db.At(i).job.Syncing? then 1 else 0)
    ensures Answers.Truthful(db.start) && Answers.HarmlessRun(db.start, db.events) ==> Answers.ShowsRight(again.now)
  {
    hide *;
    ghost var s := db.At(i);
    db.CanOpen(i, n, dir, logFile);
    again := new DB(o, db.format, db.env, dir, logFile, db.wal.crc, Some(manifest), s, n);
    db.AfterCrash(i, n, again.contents, LogPolicy(Normalize(o)));
  }

  lemma StaysReadable(s: Store, ev: Event)
    requires Enabled(s, ev) && ev.Crash?
    ensures Reads.Dominated(s) ==> Reads.Dominated(Step(s, ev))
    ensures Answers.Truthful(s) ==> Answers.Truthful(Step(s, ev))
  {
    hide Enabled, Step, Reads.Dominated, Answers.Truthful;
    if Reads.Dominated(s) {
      Reads.CutDominates(s, ev);
    }
    if Answers.Truthful(s) {
      Answers.CutTruthful(s, ev);
    }
  }

  lemma {:induction false} RunPolicy(s: Store, evs: seq<Event>)
    requires Run(s, evs).Some? && forall i :: 0 <= i < |evs| ==> !evs[i].Crash?
    ensures Run(s, evs).value.policy == s.policy
  {
    hide Enabled, Step;
    if evs != [] {
      var n := |evs| - 1;
      RunPolicy(s, evs[..n]);
      SamePolicy(Run(s, evs[..n]).value, evs[n]);
    }
  }

  /** A log that is not cut keeps all its frames. */
  lemma WholeLog(fs: seq<Frame>, synced: nat, n: nat, crc: Data -> U32)
    requires n == |LogBytes(Raws(fs), crc)| && synced <= |fs|
    ensures Whole(Raws(fs), |fs|, n, crc) == |fs| && |LogTo(Raws(fs), synced, crc)| <= n
    ensures LogBytes(Raws(fs), crc) == LogBytes(Raws(fs), crc)[..n]
  {
    LogGrows(Raws(fs), synced, |fs|, crc);
  }

  lemma RightThere(s: Store, evs: seq<Event>, i: nat, ev: Event)
    requires Answers.RightAnywhere(s, evs) && i <= |evs| && ev.Crash? && Run(s, evs[..i]).Some?
    requires Enabled(Run(s, evs[..i]).value, ev)
    ensures Answers.ShowsRight(Step(Run(s, evs[..i]).value, ev))
  {
    hide Run, Enabled, Step, Answers.ShowsRight;
    assert Answers.RightAfterCrash(Run(s, evs[..i]).value);
    assert ev == Crash(ev.p, ev.files, ev.policy);
  }

  lemma SamePolicy(s: Store, ev: Event)
    requires Enabled(s, ev) && !ev.Crash?
    ensures Step(s, ev).policy == s.policy
  {
  }

  /** The directory holds the file that encodes a list of entries. */
  ghost predicate WrittenIn(dir: map<Data, Data>, name: Data, es: seq<Entry>, o: Table.Options, env: Table.Env) {
    name in dir && Table.Representable(es, o, env) && o.restarts > 0 && dir[name] == Table.TableBytes(es, o, env)
  }

  /** The files a manifest names, without the rest of the directory. */
  ghost function Restrict(d: Disk): map<Data, seq<Entry>> {
    map name | name in NamesOf(d.manifest.files) :: Load(d.files, name)
  }

  /** A log cut behind its synced frames, and a directory reduced to the named files, are a crash. */
  lemma OpenStep(s: Store, n: nat, crc: Data -> U32, policy: SyncPolicy)
    requires Inv(s) && n <= |LogBytes(Raws(s.disk.frames), crc)|
    requires s.disk.synced <= |s.disk.frames| && |LogTo(Raws(s.disk.frames), s.disk.synced, crc)| <= n
    ensures forall i :: 0 <= i < |s.disk.frames| ==> Encodable(s.disk.frames[i])
    ensures var p := Whole(Raws(s.disk.frames), |s.disk.frames|, n, crc);
            var ev := Crash(p, Restrict(s.disk), policy);
            Enabled(s, ev) && Inv(Step(s, ev))
  {
    hide Inv, Encodable, LogTo;
    var p := Whole(Raws(s.disk.frames), |s.disk.frames|, n, crc);
    if p < s.disk.synced {
      LogGrows(Raws(s.disk.frames), p + 1, s.disk.synced, crc);
    }
    SoundFrames(s);
    RestrictNamed(s);
    StepKeeps(s, Crash(p, Restrict(s.disk), policy));
  }

  lemma SoundFrames(s: Store)
    requires Inv(s)
    ensures forall i :: 0 <= i < |s.disk.frames| ==> Encodable(s.disk.frames[i])
  {
    hide Recoverable, JobOk, FilesOk, WithinPolicy, Encodable;
    forall i | 0 <= i < |s.disk.frames|
      ensures Encodable(s.disk.frames[i])
    {
      assert Sound(s.disk.frames[i]);
    }
  }

  lemma RestrictNamed(s: Store)
    requires Inv(s)
    ensures SameNamed(s.disk.manifest, s.disk.files, Restrict(s.disk))
  {
    var fs := s.disk.manifest.files;
    forall i | 0 <= i < |fs|
      ensures fs[i].name in NamesOf(fs)
    {
      assert fs[i] in fs;
    }
  }

  lemma RestrictWritten(d: Disk, dir: map<Data, Data>, o: Table.Options, env: Table.Env)
    requires forall f :: f in d.manifest.files ==> WrittenIn(dir, f.name, Load(d.files, f.name), o, env)
    ensures forall n :: n in Restrict(d) ==> WrittenIn(dir, n, Restrict(d)[n], o, env)
  {
    hide WrittenIn;
  }

  lemma EmptyMemtable()
    ensures Memtable([]) == []
  {
  }

  /** A strictly sorted list passes the writer's checks unless it holds a nil key. */
  lemma SortedWrites(es: seq<Entry>, hasNil: bool)
    requires Sorted(es) && (hasNil ==> Find(es, []).Some?)
    ensures TableWriter.WriteError(es, S.Nils(es, hasNil), |es|) == if hasNil then Some(TableWriter.Invalid) else None
  {
    var nils := S.Nils(es, hasNil);
    assert es[..|es|] == es;
    if hasNil {
      FindByPosition(es, []);
      LowestKey(es);
      TableWriter.NilFirst(es, nils, |es|);
    } else {
      forall i | 1 <= i < |es|
        ensures !Less(es[i].key, es[i - 1].key)
      {
        LessTrichotomy(es[i - 1].key, es[i].key);
      }
      TableWriter.WrittenWhen(es, nils, |es|);
    }
  }

  /** No key is below the empty one. */
  lemma LowestKey(es: seq<Entry>)
    ensures LowerBound(es, []) == 0
  {
  }

  lemma SortedMemtable(d: Disk)
    ensures Sorted(Mem(d))
  {
    MemtableTop(AllRecords(d.frames), []);
  }

  lemma SingleRecord(e: Entry)
    requires e.seqno > 0
    ensures Records(Single(e)) == [e] && Follows(Single(e), e.seqno - 1)
  {
  }

  lemma BatchFollows(items: seq<Item>, after: nat)
    requires items != [] && Plain(items)
    ensures Follows(Batch(Numbered(items, after)), after) && |Records(Batch(Numbered(items, after)))| == |items|
    ensures forall e :: e in Records(Batch(Numbered(items, after))) && e.deleted ==> e.value == []
  {
  }

  /** One more record in log and history: memtable, past and map. */
  lemma OneMore(frames: seq<Frame>, history: seq<Frame>, e: Entry)
    ensures Memtable(AllRecords(frames + [Single(e)])) == Upsert(Memtable(AllRecords(frames)), e)
    ensures AllRecords(history + [Single(e)]) == AllRecords(history) + [e]
    ensures MapOf(AllRecords(history) + [e]) ==
            var m := MapOf(AllRecords(history)); if e.deleted then m - {e.key} else m[e.key := e.value]
  {
    AllRecordsAppend(frames, Single(e));
    AllRecordsAppend(history, Single(e));
    assert Records(Single(e)) == [e];
    MemtableAppend(AllRecords(frames), e);
    assert (AllRecords(history) + [e])[..|AllRecords(history)|] == AllRecords(history);
  }

  function ReadOf(v: Option<Data>): Read {
    match v case Some(x) => Value(x) case None => NoValue(NotFound)
  }

  /** A memtable after a list of writes. */
  function UpsertAll(s: seq<Entry>, es: seq<Entry>): seq<Entry> {
    if es == [] then s else Upsert(UpsertAll(s, es[..|es| - 1]), es[|es| - 1])
  }

  /** The plain map after a batch. */
  function ApplyItems(m: map<Data, Data>, items: seq<Item>): map<Data, Data> {
    if items == [] then m
    else
      var n, x := ApplyItems(m, items[..|items| - 1]), items[|items| - 1];
      if x.deleted then n - {x.key} else n[x.key := x.value]
  }

  lemma {:induction false} MemtableConcat(r: seq<Entry>, es: seq<Entry>)
    ensures Memtable(r + es) == UpsertAll(Memtable(r), es)
    decreases |es|
  {
    hide Upsert;
    if es == [] {
      assert r + es == r;
    } else {
      var n := |es| - 1;
      MemtableConcat(r, es[..n]);
      assert r + es == r + es[..n] + [es[n]];
      MemtableAppend(r + es[..n], es[n]);
    }
  }

  lemma {:induction false} MapOfBatch(r: seq<Entry>, items: seq<Item>, after: nat)
    ensures MapOf(r + Numbered(items, after)) == ApplyItems(MapOf(r), items)
    decreases |items|
  {
    var es := Numbered(items, after);
    if items == [] {
      assert r + es == r;
    } else {
      var n := |items| - 1;
      MapOfBatch(r, items[..n], after);
      assert Numbered(items[..n], after) == es[..n];
      assert (r + es)[..|r + es| - 1] == r + es[..n];
    }
  }

  /** A batch in log and history: memtable, past and map. */
  lemma MoreRecords(frames: seq<Frame>, history: seq<Frame>, items: seq<Item>, after: nat)
    ensures var es := Numbered(items, after);
            && Memtable(AllRecords(frames + [Batch(es)])) == UpsertAll(Memtable(AllRecords(frames)), es)
            && AllRecords(history + [Batch(es)]) == AllRecords(history) + es
            && MapOf(AllRecords(history) + es) == ApplyItems(MapOf(AllRecords(history)), items)
  {
    var f := Batch(Numbered(items, after));
    AllRecordsAppend(frames, f);
    AllRecordsAppend(history, f);
    assert Records(f) == Numbered(items, after);
    MemtableConcat(AllRecords(frames), Records(f));
    MapOfBatch(AllRecords(history), items, after);
  }

  lemma ScanSorted(tables: seq<seq<Entry>>, mem: seq<Entry>)
    requires Merge.AllSorted(tables) && Sorted(mem)
    ensures Sorted(ScanOf(tables, mem))
    ensures forall i :: 0 <= i < |ScanOf(tables, mem)| ==> !ScanOf(tables, mem)[i].deleted
  {
    var inputs := [mem] + tables;
    Merge.MergedFinds(inputs, true, []);
    Merge.KeptMembers(Merge.MergedTo(inputs, |inputs|), true);
  }

  lemma NamesAppend(fs: seq<M.FileMeta>, i: nat)
    requires i < |fs|
    ensures NamesOf(fs[..i + 1]) == NamesOf(fs[..i]) + {fs[i].name}
  {
    assert fs[..i + 1] == fs[..i] + [fs[i]];
  }

  /** Removing a file the manifest does not name leaves the tables. */
  lemma RemoveKeepsTables(s: Store, name: Data)
    requires Inv(s) && Enabled(s, Remove(name))
    ensures Tables(Step(s, Remove(name)).disk) == Tables(s.disk)
  {
    hide Recoverable, Numbers, WithinPolicy, FilesOk;
    NamedRemain(s.disk.manifest, s.disk.files, name, Bound(s));
    FilesSame(s.disk.manifest, s.disk.files, s.disk.files - {name}, Bound(s), Bound(s));
  }

  lemma NothingSplit(fs: seq<M.FileMeta>, remove: set<Data>)
    ensures M.Without(fs[..0], remove) == [] && M.Names([]) == remove * NamesOf(fs[..0])
  {
  }

  lemma SplitStep(fs: seq<M.FileMeta>, i: nat, remove: set<Data>, names: seq<Data>)
    requires i < |fs| && M.Names(names) == remove * NamesOf(fs[..i])
    ensures M.Without(fs[..i + 1], remove)
      == M.Without(fs[..i], remove) + (if fs[i].name in remove then [] else [fs[i]])
    ensures M.Names(if fs[i].name in remove then names + [fs[i].name] else names) == remove * NamesOf(fs[..i + 1])
  {
    assert fs[..i + 1][..i] == fs[..i];
    NamesAppend(fs, i);
    assert (names + [fs[i].name])[..|names|] == names;
  }

  lemma SameContents(fs: seq<M.FileMeta>, files: map<Data, seq<Entry>>, files': map<Data, seq<Entry>>, name: Data)
    requires forall i :: 0 <= i < |fs| ==> fs[i].name != name
    requires forall n :: n != name ==> Load(files', n) == Load(files, n)
    ensures Contents(fs, files') == Contents(fs, files)
  {
    hide Load;
  }

  /** Get answers alike in both stores, for every key. */
  ghost predicate SameReads(s: Store, t: Store) {
    forall k :: Got(s, k) == Got(t, k)
  }

  lemma SameGets(s: Store, t: Store)
    requires Tables(s.disk) == Tables(t.disk) && s.disk.frames == t.disk.frames
    ensures SameReads(s, t)
  {
  }

  lemma ReadsChain(s: Store, t: Store, u: Store)
    requires SameReads(s, t) && SameReads(t, u)
    ensures SameReads(s, u)
  {
    hide Got;
    forall k
      ensures Got(s, k) == Got(u, k)
    {
      assert Got(s, k) == Got(t, k);
    }
  }

  /** An entry of accepted frames is small enough for a table. */
  lemma SmallRecord(fs: seq<Frame>, e: Entry)
    requires e in AllRecords(fs) && forall i :: 0 <= i < |fs| ==> Sound(fs[i])
    ensures Sizes.Small(e)
  {
    hide AllRecords, Encodable, Sizes.Small;
    Reads.RecordsOf(fs, e);
    var i :| 0 <= i < |fs| && e in Records(fs[i]);
    Sizes.FrameSmall(fs[i]);
    assert Sound(fs[i]);
    var j :| 0 <= j < |Records(fs[i])| && Records(fs[i])[j] == e;
  }

  /** A merge of tables holds nothing the history does not. */
  lemma MergeWithin(s: Store, names: set<Data>)
    requires Inv(s)
    ensures Elems(MergeOf(s.disk, names)) <= Elems(Past(s))
  {
    hide Represents, Held, AllRecords, Named, Only, Merge.Merged;
    LiveSurvives(s);
    WithinHistory(Held(Tables(s.disk)), AllRecords(s.disk.frames), Past(s));
    var fs := s.disk.manifest.files;
    OnlyMembers(fs, names);
    TablesSorted(Only(fs, names), s.disk.files, Bound(s));
    Compaction.MergedWithin(Contents(Only(fs, names), s.disk.files), false);
    HeldParts(fs, s.disk.files, names);
  }

  lemma UpsertLength(s: seq<Entry>, e: Entry)
    ensures |Upsert(s, e)| <= |s| + 1
  {
  }

  /** Whether the memtable holds the empty key after one more record. */
  lemma EmptyKeyAfter(r: seq<Entry>, e: Entry)
    ensures Find(Upsert(Memtable(r), e), []).Some? <==> e.key == [] || Find(Memtable(r), []).Some?
  {
    MemtableTop(r, []);
    FindUpsert(Memtable(r), e, []);
  }

  /** The slice the first empty key of a batch comes with. */
  function FirstEmpty(items: seq<Item>): Option<bool> {
    if items == [] then None
    else if FirstEmpty(items[..|items| - 1]).Some? then FirstEmpty(items[..|items| - 1])
    else if items[|items| - 1].key == [] then Some(items[|items| - 1].isNil)
    else None
  }

  /** Whether the memtable holds a nil key after a batch: its first empty key decides, unless one was there. */
  predicate NilAfterAll(s: seq<Entry>, hasNil: bool, items: seq<Item>) {
    if Find(s, []).None? && FirstEmpty(items).Some? then FirstEmpty(items).value else hasNil
  }

  /** The first item of a batch with an empty key decides, if the memtable had none. */
  lemma FirstDecides(s: seq<Entry>, hasNil: bool, items: seq<Item>, i: nat)
    requires i < |items| && items[i].key == [] && forall j :: 0 <= j < i ==> items[j].key != []
    ensures NilAfterAll(s, hasNil, items) == if Find(s, []).Some? then hasNil else items[i].isNil
  {
    FirstEmptyAt(items, |items|, i);
    assert items[..|items|] == items;
  }

  lemma {:induction false} FirstEmptyAt(items: seq<Item>, n: nat, i: nat)
    requires i < n <= |items| && items[i].key == [] && forall j :: 0 <= j < i ==> items[j].key != []
    ensures FirstEmpty(items[..n]) == Some(items[i].isNil)
  {
    assert items[..n][..n - 1] == items[..n - 1];
    if i < n - 1 {
      FirstEmptyAt(items, n - 1, i);
    } else {
      NoEmptyKey(items, i);
    }
  }

  lemma {:induction false} NoEmptyKey(items: seq<Item>, n: nat)
    requires n <= |items| && forall j :: 0 <= j < n ==> items[j].key != []
    ensures FirstEmpty(items[..n]) == None
  {
    if n != 0 {
      NoEmptyKey(items, n - 1);
      assert items[..n][..n - 1] == items[..n - 1];
    }
  }

  /** Whether a list holds the empty key, now and after a batch. */
  predicate HasEmpty(s: seq<Entry>) {
    Find(s, []).Some?
  }

  predicate HasEmptyAfter(s: seq<Entry>, items: seq<Item>) {
    HasEmpty(s) || FirstEmpty(items).Some?
  }

  lemma NoneEmpty(items: seq<Item>, s: seq<Entry>, hasNil: bool)
    ensures NilAfterAll(s, hasNil, items[..0]) == hasNil && HasEmptyAfter(s, items[..0]) == HasEmpty(s)
  {
  }

  /** One more item of a batch: the first empty key brings its slice. */
  lemma NextEmpty(items: seq<Item>, i: nat, s: seq<Entry>, hasNil: bool, t: seq<Entry>)
    requires i < |items| && HasEmpty(t) == HasEmptyAfter(s, items[..i])
    ensures S.NilAfter(t, NilAfterAll(s, hasNil, items[..i]), items[i].key, items[i].isNil)
      == NilAfterAll(s, hasNil, items[..i + 1])
    ensures HasEmptyAfter(s, items[..i + 1]) == (items[i].key == [] || HasEmpty(t))
  {
    assert items[..i + 1][..i] == items[..i];
  }

  /** Tables that yield nothing leave a scan with the memtable's live entries. */
  lemma EmptyTables(lists: seq<seq<Entry>>, mem: seq<Entry>)
    requires forall i :: 0 <= i < |lists| ==> lists[i] == []
    ensures ScanOf(lists, mem) == Merge.Kept(mem, true)
  {
    hide Merge.Kept;
    EmptyInputs([mem] + lists, |lists| + 1);
  }

  lemma {:induction false} EmptyInputs(inputs: seq<seq<Entry>>, n: nat)
    requires 0 < n <= |inputs| && forall i :: 1 <= i < |inputs| ==> inputs[i] == []
    ensures Merge.MergedTo(inputs, n) == inputs[0]
  {
    if n > 1 {
      EmptyInputs(inputs, n - 1);
    } else {
      assert Merge.MergedTo(inputs, 0) == [];
    }
  }

  /** Every file that counts encodes what it should. */
  ghost predicate AllWritten(dir: map<Data, Data>, contents: map<Data, seq<Entry>>, o: Table.Options, env: Table.Env) {
    forall n :: n in contents ==> WrittenIn(dir, n, contents[n], o, env)
  }

  lemma WriteOne(dir: map<Data, Data>, contents: map<Data, seq<Entry>>, name: Data, es: seq<Entry>, file: Data,
                 o: Table.Options, env: Table.Env)
    requires AllWritten(dir, contents, o, env) && Table.Representable(es, o, env) && o.Valid()
      && file == Table.TableBytes(es, o, env)
    ensures AllWritten(dir[name := file], contents[name := es], o, env)
  {
    hide Table.Representable, Table.TableBytes;
  }

  lemma RemoveFile(dir: map<Data, Data>, contents: map<Data, seq<Entry>>, name: Data, o: Table.Options, env: Table.Env)
    requires AllWritten(dir, contents, o, env)
    ensures AllWritten(dir - {name}, contents - {name}, o, env)
  {
    hide Table.Representable, Table.TableBytes;
  }
}
