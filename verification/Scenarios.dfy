/**
 Short programs against the open store whose outcome a caller may not expect.
 */
module Scenarios {
  import opened Bytes
  import opened Entries
  import opened Wal
  import opened WalLog
  import opened History
  import opened Engine
  import opened Recovery
  import opened Runs
  import opened Database
  import S = SkipList
  import Table
  import Varint

  const K: Data := [107]

  /** A store in a new directory, with the default options. */
  method OpenFresh(env: Table.Env, logCrc: Data -> U32) returns (db: DB)
    ensures db.Valid() && !db.closed && fresh(db) && fresh(db.mem) && fresh(db.mem.Repr) && fresh(db.wal)
      && fresh(db.manif)
    ensures db.opts == Normalize(None) && db.mem.contents == [] && !db.mem.HasNil() && db.wal.nextSeq == 0
    ensures db.View() == map[] && db.manif.state.files == [] && db.wal.crc == logCrc
  {
    hide Inv, LogBytes, LogTo, Raws, DB.Valid, Step, Enabled, Memtable, MapOf;
    FreshInv(LogPolicy(Normalize(None)));
    NothingLogged(logCrc);
    db := new DB(None, Table.Normalize(0, 0), env, map[], [], logCrc, None, Fresh(LogPolicy(Normalize(None))), 0);
    db.Parts();
    FreshReopened(LogPolicy(Normalize(None)), db.now);
  }

  lemma NothingLogged(crc: Data -> U32)
    ensures LogBytes(Raws([]), crc) == [] && LogTo(Raws([]), 0, crc) == []
  {
  }

  lemma FreshReopened(policy: SyncPolicy, s: Store)
    requires exists p, files, next ::
      Enabled(Fresh(policy), Crash(p, files, next)) && s == Step(Fresh(policy), Crash(p, files, next))
    ensures Mem(s.disk) == [] && s.nextSeq == 0 && MapOf(Past(s)) == map[] && s.disk.manifest.files == []
  {
  }

  /** A small put under default options: it is logged, and no flush follows. */
  lemma SmallPut(o: Options, e: Entry)
    requires o == Normalize(None) && |e.key| == 1 && |e.value| == 1 && e.seqno < 128
    ensures TakesUp(Single(e)) && S.KeyBytes([e]) + S.ValueBytes([e]) + 16 < o.memtableBytes && Upsert([], e) == [e]
  {
    OneEntry(e);
  }

  lemma OneEntry(e: Entry)
    ensures S.KeyBytes([e]) == |e.key| && S.ValueBytes([e]) == |e.value|
  {
    assert [e][..0] == [];
    assert S.KeyBytes([e]) == S.KeyBytes([]) + |e.key| && S.ValueBytes([e]) == S.ValueBytes([]) + |e.value|;
  }

  /** Puts one key into a new store. */
  method PutOne(env: Table.Env, logCrc: Data -> U32) returns (db: DB)
    ensures db.Valid() && !db.closed && fresh(db) && fresh(db.mem) && fresh(db.mem.Repr) && fresh(db.wal)
      && fresh(db.manif)
    ensures db.opts == Normalize(None) && db.mem.contents == [Entry(K, [1], 1, false)] && !db.mem.HasNil()
    ensures db.View() == map[K := [1]]
  {
    hide DB.Valid, MapOf, S.KeyBytes, S.ValueBytes, TakesUp, Upsert, AllRecords, S.SkipList.HasNil, S.SkipList.Valid;
    hide AppendEvents, DB.FlushIfFull, DB.FlushSteps;
    db := OpenFresh(env, logCrc);
    SmallPut(db.opts, Entry(K, [1], 1, false));
    var r := db.Put(K, [1]);
  }

  /** Closes a store opened for writing, whose memtable has no nil key: the memtable is empty then. */
  method CloseFlushed(db: DB)
    requires db.Valid() && !db.closed && !db.opts.readOnly && !db.mem.HasNil() && |db.mem.contents| <= 1
    modifies db, db.wal, db.manif, db.mem.Repr
    ensures db.Valid() && db.closed && db.mem.contents == [] && db.View() == old(db.View())
  {
    hide DB.Valid, DB.FlushSteps, MapOf, S.SkipList.HasNil;
    var r := db.Close();
  }

  /**
   Put, Close, and a scan. The store holds the key, and its table has it; but the scan of
   the closed store shows nothing at all and reports no error.
   */
  method PutThenClose(env: Table.Env, logCrc: Data -> U32) returns (db: DB, items: seq<Entry>)
    ensures db.Valid() && db.closed && db.View() == map[K := [1]]
    ensures items == []
  {
    hide DB.Valid, MapOf, DB.TablesAddNothing, DB.ShowsMap;
    db := PutOne(env, logCrc);
    CloseFlushed(db);
    var it := db.NewIterator();
    items := it.items;
  }

  /** Writes one batch into a new store: the empty key, given as a nil slice or not. */
  method WriteEmptyKey(env: Table.Env, logCrc: Data -> U32, isNil: bool) returns (db: DB, written: Outcome)
    ensures db.Valid() && !db.closed && fresh(db) && fresh(db.mem) && fresh(db.mem.Repr) && fresh(db.wal)
      && fresh(db.manif)
    ensures db.opts == Normalize(None) && db.mem.contents == [Entry([], [1], 1, false)] && db.mem.HasNil() == isNil
    ensures written == Done && db.View() == map[[] := [1]] && db.manif.state.files == [] && db.wal.crc == logCrc
  {
    hide DB.Valid, MapOf, S.KeyBytes, S.ValueBytes, TakesUp, Numbered, UpsertAll, NilAfterAll;
    hide AppendEvents, DB.FlushIfFull, DB.FlushSteps;
    db := OpenFresh(env, logCrc);
    var batch := new WriteBatch();
    batch.Put([], isNil, [1]);
    SmallBatch(db.opts, batch.entries);
    written := db.Write(batch);
    db.Parts();
  }

  /**
   A batch whose key is a nil slice: the write succeeds and the key can be read, but no
   flush does from then on.
   */
  method NilKeyFlush(env: Table.Env, logCrc: Data -> U32) returns (written: Outcome, seen: Read, flushed: Outcome)
    ensures written == Done && seen == Value([1]) && flushed == Failed(TableRefused)
  {
    hide DB.Valid, DB.FlushSteps, MapOf;
    var db: DB;
    db, written := WriteEmptyKey(env, logCrc, true);
    db.Parts();
    seen := db.Get([]);
    flushed := db.Flush();
  }

  /** A batch of one small item under default options. */
  lemma SmallBatch(o: Options, items: seq<Item>)
    requires o == Normalize(None) && |items| == 1 && items[0].key == [] && |items[0].value| == 1
    ensures var es := Numbered(items, 0);
            && es == [Entry([], items[0].value, 1, items[0].deleted)]
            && TakesUp(Batch(es)) && S.KeyBytes(es) + S.ValueBytes(es) + 16 < o.memtableBytes
            && UpsertAll([], es) == es
            && NilAfterAll([], false, items) == items[0].isNil
  {
    var e, es := Entry([], items[0].value, 1, items[0].deleted), Numbered(items, 0);
    assert es[..0] == [] && items[..0] == [];
    assert EncodeItems(es, 1) == EncodeItems(es, 0) + EncodeItem(e);
    assert |Varint.Encode(1)| == |Varint.Encode(0)| == 1;
    OneEntry(e);
    assert FirstEmpty(items[..0]) == None;
    assert UpsertAll([], es[..0]) == [];
  }

  /** Opens again, from its whole log, a store that has no tables. */
  method Reopen(db0: DB, env: Table.Env, logCrc: Data -> U32) returns (db: DB)
    requires db0.Valid() && db0.manif.state.files == [] && db0.wal.crc == logCrc
    ensures db.Valid() && !db.closed && fresh(db) && fresh(db.mem) && fresh(db.mem.Repr) && fresh(db.wal)
      && fresh(db.manif)
    ensures db.opts == Normalize(None) && db.mem.contents == db0.mem.contents
    ensures db.mem.HasNil() == Find(db.mem.contents, []).Some?
  {
    hide DB.Valid, LogBytes, Raws, Inv, Memtable, Find, LogTo, Whole, Table.Representable, Table.TableBytes;
    db0.Parts();
    var n: nat := |db0.wal.file|;
    ghost var s, frames := db0.now, db0.now.disk.frames;
    WholeLog(frames, s.disk.synced, n, logCrc);
    db := new DB(None, Table.Normalize(0, 0), env, db0.files, db0.wal.file, logCrc, Some(db0.manif.state), s, n);
    db.Parts();
    assert frames[..|frames|] == frames;
  }

  /**
   The same with an empty key that is not nil, and the store opened again from its log
   before the first flush: the key comes back as nil, and the flush fails. Without the
   reopening it succeeds.
   */
  method ReopenedEmptyKey(env: Table.Env, logCrc: Data -> U32, reopen: bool) returns (flushed: Outcome)
    ensures flushed == if reopen then Failed(TableRefused) else Done
  {
    hide DB.Valid, DB.FlushSteps, MapOf;
    var db, written := WriteEmptyKey(env, logCrc, false);
    if reopen {
      db := Reopen(db, env, logCrc);
    }
    flushed := db.Flush();
  }
}
