/**
 The SSTable writer (`internal/sstable/writer.go`): entries are appended to a block
 buffer, full blocks are flushed to the file, and Finish adds filter, index and footer.
 */
module TableWriter {
  import opened Bytes
  import opened Entries
  import opened Varint
  import opened Block
  import opened Table
  import Bloom

  datatype Error = Closed | Invalid | OutOfOrder

  /** What Finish reports about the file. */
  datatype Meta = Meta(minKey: Option<Data>, maxKey: Option<Data>, maxSeq: nat, entries: nat, fileSize: nat)

  function MetaOf(es: seq<Entry>, size: nat): Meta {
    Meta(if es == [] then None else Some(es[0].key), LastKey(es), MaxSeqno(es), |es|, size)
  }

  function LastKey(es: seq<Entry>): Option<Data> {
    if es == [] then None else Some(es[|es| - 1].key)
  }

  /** The order Add enforces: equal neighbours pass. */
  predicate NonDescending(es: seq<Entry>) {
    forall i :: 1 <= i < |es| ==> !Less(es[i].key, es[i - 1].key)
  }

  /** The first error that adding `n` entries in turn meets; `nils` marks the nil keys. */
  function WriteError(es: seq<Entry>, nils: seq<bool>, n: nat): Option<Error>
    requires n <= |es| == |nils|
  {
    if n == 0 then None
    else if WriteError(es, nils, n - 1).Some? then WriteError(es, nils, n - 1)
    else if nils[n - 1] then Some(Invalid)
    else if n > 1 && Less(es[n - 1].key, es[n - 2].key) then Some(OutOfOrder)
    else None
  }

  /** A list is written exactly when no key is nil and none is below its predecessor. */
  lemma {:induction false} WrittenWhen(es: seq<Entry>, nils: seq<bool>, n: nat)
    requires n <= |es| == |nils|
    ensures WriteError(es, nils, n) == None <==>
            (forall i :: 0 <= i < n ==> !nils[i]) && NonDescending(es[..n])
  {
    if n != 0 {
      WrittenWhen(es, nils, n - 1);
      assert es[..n] == es[..n - 1] + [es[n - 1]];
      assert NonDescending(es[..n]) <==>
             NonDescending(es[..n - 1]) && (n > 1 ==> !Less(es[n - 1].key, es[n - 2].key)) by {
        LastStep(es[..n - 1], es[n - 1]);
      }
    }
  }

  /** The refusal is that of the first entry that has one: a nil key before a descending one. */
  lemma {:induction false} RefusedWhen(es: seq<Entry>, nils: seq<bool>, n: nat, i: nat)
    requires i < n <= |es| == |nils|
    requires WriteError(es, nils, i) == None && (nils[i] || (i > 0 && Less(es[i].key, es[i - 1].key)))
    ensures WriteError(es, nils, n) == Some(if nils[i] then Invalid else OutOfOrder)
  {
    if i < n - 1 {
      RefusedWhen(es, nils, n - 1, i);
    }
  }

  lemma LastStep(es: seq<Entry>, e: Entry)
    ensures NonDescending(es + [e]) <==> NonDescending(es) && (es != [] ==> !Less(e.key, es[|es| - 1].key))
  {
    var fs := es + [e];
    if NonDescending(fs) {
      forall i | 1 <= i < |es|
        ensures !Less(es[i].key, es[i - 1].key)
      {
        assert fs[i] == es[i] && fs[i - 1] == es[i - 1];
      }
      assert es != [] ==> !Less(fs[|es|].key, fs[|es| - 1].key);
    }
  }

  /** A nil key that comes first is the error met, whatever follows. */
  lemma {:induction false} NilFirst(es: seq<Entry>, nils: seq<bool>, n: nat)
    requires 0 < n <= |es| == |nils| && nils[0]
    ensures WriteError(es, nils, n) == Some(Invalid)
  {
    if n > 1 {
      NilFirst(es, nils, n - 1);
    }
  }

  lemma {:induction false} SplitPrefix(es: seq<Entry>, fs: seq<Entry>, n: nat, o: Options)
    requires o.restarts > 0 && n <= |es| && n <= |fs| && forall i :: 0 <= i < n ==> es[i] == fs[i]
    ensures Split(es, n, o) == Split(fs, n, o)
  {
    hide Cut;
    if n != 0 {
      SplitPrefix(es, fs, n - 1, o);
    }
  }

  lemma SplitAppend(es: seq<Entry>, e: Entry, o: Options)
    requires o.restarts > 0
    ensures Split(es + [e], |es| + 1, o) == Cut(Split(es, |es|, o), e, o)
  {
    SplitPrefix(es + [e], es, |es|, o);
  }

  lemma FirstRestarts(r: nat)
    requires r > 0
    ensures IsRestart(0, r)
  {
  }

  lemma EmptyBlock(es: seq<Entry>, r: nat)
    requires r > 0
    ensures |DataTo(es, r, |es|)| == 0 <==> es == []
    ensures DataTo([], r, 0) == [] && OffsetsTo([], r, 0) == []
  {
    DataToGrows(es, r, 0, |es|);
  }

  class Writer {
    const o: Options
    const env: Env
    var file: Data
    var buf: Data
    var restarts: seq<nat>
    var entryCount: nat
    var blockEntries: nat
    var lastKey: Option<Data>
    var index: seq<IndexRec>
    var bloomKeys: seq<Data>
    var minKey: Option<Data>
    var maxKey: Option<Data>
    var maxSeq: nat
    var closed: bool

    ghost var es: seq<Entry>     // the entries added
    ghost var parts: Parts       // how they have been cut so far

    /** The full blocks are in the file and the index. */
    ghost predicate Flushed()
      reads this
    {
      && o.Valid()
      && (forall i :: 0 <= i < |parts.done| ==> parts.done[i] != [])
      && file == BytesTo(parts.done, |parts.done|, o, env.crc)
      && index == Index(parts.done, o, env.crc)
    }

    /** The open block is in the buffer. */
    ghost predicate Buffered()
      reads this
    {
      && o.Valid()
      && buf == DataTo(parts.cur, o.restarts, |parts.cur|)
      && restarts == OffsetsTo(parts.cur, o.restarts, |parts.cur|)
      && blockEntries == |parts.cur|
    }

    /** The summary fields describe `es`. */
    ghost predicate Summed()
      reads this
    {
      && entryCount == |es| && bloomKeys == Keys(es)
      && minKey == (if es == [] then None else Some(es[0].key))
      && maxKey == lastKey == LastKey(es)
      && maxSeq == MaxSeqno(es)
    }

    ghost predicate Valid()
      reads this
    {
      && Flushed() && Buffered() && Summed() && parts == Split(es, |es|, o)
      && (parts.cur != [] ==> LastKey(parts.cur) == lastKey)
    }

    constructor (o: Options, env: Env)
      requires o.Valid()
      ensures Valid() && es == [] && !closed && this.o == o && this.env == env
    {
      this.o := o;
      this.env := env;
      file, buf, restarts, entryCount, blockEntries := [], [], [], 0, 0;
      lastKey, index, bloomKeys, minKey, maxKey, maxSeq := None, [], [], None, None, 0;
      closed := false;
      es, parts := [], Parts([], []);
    }

    /** `isNil` tells whether the key is a nil slice, which is refused; any other empty key is not. */
    method Add(e: Entry, isNil: bool) returns (r: Option<Error>)
      requires Valid()
      modifies this
      ensures Valid() && closed == old(closed)
      ensures r == (if old(closed) then Some(Closed)
                    else if isNil then Some(Invalid)
                    else if old(es) != [] && Less(e.key, old(es)[|old(es)| - 1].key) then Some(OutOfOrder)
                    else None)
      ensures es == old(es) + (if r.None? then [e] else [])
    {
      if closed {
        return Some(Closed);
      }
      if isNil {
        return Some(Invalid);
      }
      if lastKey.Some? && Less(e.key, lastKey.value) {
        return Some(OutOfOrder);
      }
      Append(e);
      return None;
    }

    method Append(e: Entry)
      requires Valid()
      modifies this
      ensures Valid() && es == old(es) + [e] && closed == old(closed)
    {
      hide DataTo, OffsetsTo, BytesTo, Index, Keys, Split, Blocks, MaxSeqno;
      SplitAppend(es, e, o);
      AddEntry(e);
      Summarize(e);
      lastKey := Some(e.key);
      if |buf| >= o.blockSize {
        FlushBlock();
      }
    }

    method Summarize(e: Entry)
      requires Summed()
      modifies this`minKey, this`maxKey, this`maxSeq, this`bloomKeys, this`es, this`entryCount
      ensures es == old(es) + [e] && entryCount == |es| && bloomKeys == Keys(es)
      ensures minKey == Some(es[0].key) && maxKey == LastKey(es) && maxSeq == MaxSeqno(es)
    {
      if minKey.None? {
        minKey := Some(e.key);
      }
      maxKey := Some(e.key);
      MaxSeqnoAppend(es, e);
      maxSeq := Max(maxSeq, e.seqno);
      bloomKeys := bloomKeys + [e.key];
      es := es + [e];
      entryCount := entryCount + 1;
    }

    /** Appends the encoding of `e` to the block buffer. */
    method AddEntry(e: Entry)
      requires Buffered() && (parts.cur != [] ==> LastKey(parts.cur) == lastKey)
      modifies this`buf, this`restarts, this`blockEntries, this`parts
      ensures Buffered() && parts == Parts(old(parts.done), old(parts.cur) + [e])
    {
      hide DataTo, OffsetsTo, EncodeEntry, IsRestart;
      DataToAppend(parts.cur, e, o.restarts);
      FirstRestarts(o.restarts);
      var shared := 0;
      if !IsRestart(blockEntries, o.restarts) && lastKey.Some? {
        shared := SharedPrefixLen(lastKey.value, e.key);
      } else {
        restarts := restarts + [|buf|];
      }
      assert shared == SharedAt(parts.cur + [e], o.restarts, |parts.cur|);
      var enc := EncodedEntry(e, shared);
      buf := buf + enc;
      blockEntries := blockEntries + 1;
      parts := Parts(parts.done, parts.cur + [e]);
    }

    /** Writes the buffered entries as a block with trailer and checksum. */
    method FlushBlock()
      requires Flushed() && Buffered() && (parts.cur != [] ==> LastKey(parts.cur) == lastKey)
      modifies this`file, this`buf, this`restarts, this`blockEntries, this`index, this`parts
      ensures Flushed() && Buffered() && parts == Parts(Finished(old(parts)), [])
    {
      hide DataTo, OffsetsTo, Index, BytesTo;
      EmptyBlock(parts.cur, o.restarts);
      if |buf| == 0 {
        return;
      }
      var block := Trailed(buf, restarts, env.crc);
      BytesAppend(parts.done, parts.cur, o, env.crc);
      IndexAppend(parts.done, parts.cur, o, env.crc);
      file := file + block;
      index := index + [IndexRec(lastKey.value, |file| - |block|, |block|)];
      buf, restarts, blockEntries := [], [], 0;
      parts := Parts(Finished(parts), []);
    }

    /** Flushes the open block and appends filter, index and footer. */
    method Finish() returns (r: Result)
      requires Valid()
      modifies this
      ensures closed
      ensures old(closed) ==> r == Refused(Closed) && file == old(file)
      ensures !old(closed) ==> r == Written(file, MetaOf(old(es), |file|)) && file == TableBytes(old(es), o, env)
    {
      hide Writer.Valid, TableBytes, MetaOf;
      if closed {
        return Refused(Closed);
      }
      Seal();
      closed := true;
      return Written(file, Meta(minKey, maxKey, maxSeq, entryCount, |file|));
    }

    method Seal()
      requires Valid()
      modifies this`file, this`buf, this`restarts, this`blockEntries, this`index, this`parts
      ensures file == TableBytes(es, o, env)
      ensures Meta(minKey, maxKey, maxSeq, entryCount, |file|) == MetaOf(es, |file|)
    {
      hide DataTo, OffsetsTo, BytesTo, Index, Split, MaxSeqno, Assemble, TableBytes, Finished, FilterTo, Keys,
        Bloom.Marshal, Checked, EncodeIndex;
      TableParts(es, parts, o, env);
      FlushBlock();
      file := Sealed(file, bloomKeys, index, maxSeq, entryCount, env);
    }
  }

  datatype Result = Written(file: Data, meta: Meta) | Refused(error: Error)

  lemma TableParts(es: seq<Entry>, p: Parts, o: Options, env: Env)
    requires o.Valid() && p == Split(es, |es|, o)
    ensures var bs := Finished(p);
            && (forall i :: 0 <= i < |bs| ==> bs[i] != [])
            && |Keys(es)| == |es|
            && TableBytes(es, o, env) ==
               Assemble(BytesTo(bs, |bs|, o, env.crc),
                        Bloom.Marshal(FilterTo(Keys(es), |Keys(es)|, env.hashing)),
                        Checked(EncodeIndex(Index(bs, o, env.crc)), env.crc),
                        MaxSeqno(es), |es|)
  {
    BlocksKeep(es, o);
  }

  /** Writes a whole table; a nil key or one below its predecessor aborts. */
  method WriteFile(es: seq<Entry>, nils: seq<bool>, o: Options, env: Env) returns (r: Result)
    requires o.Valid() && |nils| == |es|
    ensures r == match WriteError(es, nils, |es|)
                 case None => Written(TableBytes(es, o, env), MetaOf(es, |TableBytes(es, o, env)|))
                 case Some(e) => Refused(e)
  {
    hide Writer.Valid, TableBytes, MetaOf;
    var w := new Writer(o, env);
    var i := 0;
    while i < |es|
      invariant 0 <= i <= |es|
      invariant w.Valid() && !w.closed && w.es == es[..i] && WriteError(es, nils, i) == None
    {
      var failed := w.Add(es[i], nils[i]);
      assert es[..i + 1] == es[..i] + [es[i]];
      if failed.Some? {
        ErrorStays(es, nils, i + 1, |es|);
        return Refused(failed.value);
      }
      i := i + 1;
    }
    assert es[..i] == es;
    r := w.Finish();
  }

  lemma {:induction false} ErrorStays(es: seq<Entry>, nils: seq<bool>, m: nat, n: nat)
    requires m <= n <= |es| == |nils| && WriteError(es, nils, m).Some?
    ensures WriteError(es, nils, n) == WriteError(es, nils, m)
  {
    if m < n {
      ErrorStays(es, nils, m, n - 1);
    }
  }

  /** Filter, index and footer behind the data blocks. */
  method Sealed(data: Data, keys: seq<Data>, index: seq<IndexRec>, maxSeq: nat, entries: nat, env: Env)
    returns (file: Data)
    ensures file == Assemble(data, Bloom.Marshal(FilterTo(keys, |keys|, env.hashing)),
                             Checked(EncodeIndex(index), env.crc), maxSeq, entries)
  {
    hide Assemble, Bloom.Marshal, FilterTo, Checked, EncodeIndex;
    var bdata := BuildFilter(keys, env.hashing);
    var indexBuf := EncodedIndex(index, env.crc);
    file := Assembled(data, bdata, indexBuf, maxSeq, entries);
  }

  method BuildFilter(keys: seq<Data>, hashing: Bloom.Hashing) returns (b: Data)
    ensures b == Bloom.Marshal(FilterTo(keys, |keys|, hashing))
  {
    var f := new Bloom.Filter(|keys|, hashing);
    var i := 0;
    while i < |keys|
      invariant 0 <= i <= |keys|
      invariant f.Valid() && f.hash == hashing.pair && fresh(f.bits)
      invariant f.View() == FilterTo(keys, i, hashing)
    {
      f.Add(keys[i]);
      i := i + 1;
    }
    b := Bloom.Marshal(Bloom.Image(f.bits[..], f.m, f.k, f.added));
  }

  method EncodedIndex(index: seq<IndexRec>, crc: Data -> U32) returns (b: Data)
    ensures b == Checked(EncodeIndex(index), crc)
  {
    b := EncodeUint64([], |index|);
    var i := 0;
    while i < |index|
      invariant 0 <= i <= |index|
      invariant b + EncodeRecs(index[i..]) == EncodeIndex(index)
    {
      var rec := index[i];
      RecAppends(b, rec, index[i..]);
      b := EncodeUint64(b, |rec.lastKey|);
      b := b + rec.lastKey;
      b := EncodeUint64(b, rec.offset);
      b := EncodeUint64(b, rec.length);
      assert index[i..][1..] == index[i + 1..];
      i := i + 1;
    }
    assert b == b + EncodeRecs(index[i..]);
    b := b + LE(crc(b), 4);
  }

  lemma RecAppends(b: Data, rec: IndexRec, recs: seq<IndexRec>)
    requires recs != [] && recs[0] == rec
    ensures b + Encode(|rec.lastKey|) + rec.lastKey + Encode(rec.offset) + Encode(rec.length) + EncodeRecs(recs[1..])
            == b + EncodeRecs(recs)
  {
    Regroup(b, Encode(|rec.lastKey|), rec.lastKey, Encode(rec.offset), Encode(rec.length), [], EncodeRecs(recs[1..]));
    Rejoin(Encode(|rec.lastKey|), rec.lastKey, Encode(rec.offset), Encode(rec.length), EncodeRecs(recs[1..]));
  }

  lemma Rejoin(a: Data, b: Data, c: Data, d: Data, e: Data)
    ensures (a + (b + (c + d))) + e == a + (b + (c + (d + ([] + e))))
  {
  }

  /** The parts of the file one after the other, each at the offset the footer records. */
  method Assembled(data: Data, bloom: Data, index: Data, maxSeq: nat, entries: nat) returns (file: Data)
    ensures file == Assemble(data, bloom, index, maxSeq, entries)
  {
    var bloomOff := |data|;
    file := data + bloom;
    var indexOff := |file|;
    file := file + index;
    var footer := Footer(indexOff, |index|, bloomOff, |bloom|, maxSeq, entries);
    file := file + footer;
    assert file == data + (bloom + (index + footer));
  }

  method EncodedEntry(e: Entry, shared: nat) returns (enc: Data)
    requires shared <= |e.key|
    ensures enc == EncodeEntry(e, shared)
  {
    enc := EncodeUint64([], shared);
    enc := EncodeUint64(enc, |e.key| - shared);
    enc := EncodeUint64(enc, |e.value|);
    enc := EncodeUint64(enc, e.seqno);
    var flag := FLAG_VALUE;
    if e.deleted {
      flag := FLAG_DELETE;
    }
    enc := enc + [flag];
    enc := enc + e.key[shared..];
    enc := enc + e.value;
    Appends(e, shared);
  }

  /** The buffer with its trailer: restart offsets, their count, and the checksum of it all. */
  method Trailed(buf: Data, restarts: seq<nat>, crc: Data -> U32) returns (block: Data)
    ensures block == Checked(buf + EncodeOffsets(restarts) + LE(|restarts|, 4), crc)
  {
    block := buf;
    var i := 0;
    while i < |restarts|
      invariant 0 <= i <= |restarts|
      invariant block == buf + EncodeOffsets(restarts[..i])
    {
      assert restarts[..i + 1][..i] == restarts[..i];
      block := block + LE(restarts[i], 4);
      i := i + 1;
    }
    assert restarts[..i] == restarts;
    block := block + LE(|restarts|, 4);
    block := block + LE(crc(block), 4);
  }

  lemma Appends(e: Entry, shared: nat)
    requires shared <= |e.key|
    ensures [] + Encode(shared) + Encode(|e.key| - shared) + Encode(|e.value|) + Encode(e.seqno)
            + [Flag(e)] + e.key[shared..] + e.value == EncodeEntry(e, shared)
  {
    assert [] + Encode(shared) == Encode(shared);
    Regroup(Encode(shared), Encode(|e.key| - shared), Encode(|e.value|), Encode(e.seqno), [Flag(e)], e.key[shared..],
      e.value);
  }

  lemma Regroup(a: Data, b: Data, c: Data, d: Data, f: Data, k: Data, v: Data)
    ensures a + b + c + d + f + k + v == a + (b + (c + (d + (f + (k + v)))))
  {
  }
}
