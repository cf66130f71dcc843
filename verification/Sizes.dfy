/**
 Sizes for which a table can be stored: entries within the limit the log puts on a payload,
 blocks of less than 2^31 bytes, and no more than 2^30 entries make every offset, length
 and count of the format fit its width.
 */
module Sizes {
  import opened Bytes
  import opened Entries
  import opened Varint
  import opened Block
  import opened Table
  import opened TableReader
  import Bloom
  import Wal

  const MAX_ENTRIES: nat := 0x4000_0000
  const ENTRY_BYTES: nat := 0x2000_0000
  const MAX_BLOCK: nat := 0x8000_0000

  /** An entry that a log frame can hold. */
  predicate Small(e: Entry) {
    e.seqno < TWO_64 && |e.key| + |e.value| <= Wal.MAX_PAYLOAD
  }

  predicate AllSmall(es: seq<Entry>) {
    forall i :: 0 <= i < |es| ==> Small(es[i])
  }

  lemma VarintSize(x: U64)
    ensures |Encode(x)| <= MAX_UINT64_LEN
  {
    RoundTrip(x, []);
  }

  lemma EntrySize(e: Entry, shared: nat)
    requires Small(e) && shared <= |e.key|
    ensures |EncodeEntry(e, shared)| <= ENTRY_BYTES
  {
    hide Encode;
    VarintSize(shared);
    VarintSize(|e.key| - shared);
    VarintSize(|e.value|);
    VarintSize(e.seqno);
  }

  lemma {:induction false} DataSize(es: seq<Entry>, r: nat, n: nat)
    requires r > 0 && n <= |es| && AllSmall(es)
    ensures |DataTo(es, r, n)| <= n * ENTRY_BYTES && |OffsetsTo(es, r, n)| <= n
  {
    hide EncodeEntry, SharedAt;
    if n != 0 {
      DataSize(es, r, n - 1);
      EntrySize(es[n - 1], SharedAt(es, r, n - 1));
    }
  }

  lemma {:induction false} OffsetsSize(s: seq<nat>)
    ensures |EncodeOffsets(s)| == 4 * |s|
  {
  }

  /** No closed block is longer than a full block and one entry more. */
  lemma {:induction false} SplitSizes(es: seq<Entry>, n: nat, o: Options)
    requires o.Valid() && n <= |es| && AllSmall(es)
    ensures var p := Split(es, n, o);
            && AllSmall(p.cur) && |DataTo(p.cur, o.restarts, |p.cur|)| < o.blockSize
            && forall i :: 0 <= i < |p.done| ==>
                 AllSmall(p.done[i]) && |DataTo(p.done[i], o.restarts, |p.done[i]|)| < o.blockSize + ENTRY_BYTES
  {
    hide DataTo;
    if n == 0 {
      NoData(o.restarts);
    } else {
      SplitSizes(es, n - 1, o);
      var p := Split(es, n - 1, o);
      CutSize(p.cur, es[n - 1], o);
      NoData(o.restarts);
    }
  }

  lemma NoData(r: nat)
    requires r > 0
    ensures DataTo([], r, 0) == []
  {
  }

  lemma CutSize(cur: seq<Entry>, e: Entry, o: Options)
    requires o.Valid() && AllSmall(cur) && Small(e) && |DataTo(cur, o.restarts, |cur|)| < o.blockSize
    ensures AllSmall(cur + [e]) && |DataTo(cur + [e], o.restarts, |cur| + 1)| < o.blockSize + ENTRY_BYTES
  {
    hide EncodeEntry, SharedAt;
    var es := cur + [e];
    DataToPrefix(es, cur, o.restarts, |cur|);
    EntrySize(e, SharedAt(es, o.restarts, |cur|));
  }

  lemma BlocksFit(es: seq<Entry>, o: Options, i: nat)
    requires o.Valid() && o.blockSize < MAX_BLOCK && |es| <= MAX_ENTRIES && AllSmall(es) && i < |Blocks(es, o)|
    ensures AllSmall(Blocks(es, o)[i]) && Fits(Blocks(es, o)[i], o.restarts)
  {
    hide DataTo, Split, FlattenTo;
    var bs := Blocks(es, o);
    SplitSizes(es, |es|, o);
    BlocksKeep(es, o);
    BlockSlice(bs, i, |bs|);
  }

  lemma BlockSize(b: seq<Entry>, o: Options, crc: Data -> U32)
    requires o.Valid() && b != [] && AllSmall(b)
    ensures |BlockBytes(b, o, crc)| <= 2 * ENTRY_BYTES * |b|
  {
    hide DataTo, OffsetsTo, EncodeOffsets, LE;
    DataSize(b, o.restarts, |b|);
    OffsetsSize(OffsetsTo(b, o.restarts, |b|));
  }

  lemma {:induction false} BytesSize(bs: seq<seq<Entry>>, n: nat, o: Options, crc: Data -> U32)
    requires o.Valid() && n <= |bs| && forall i :: 0 <= i < |bs| ==> bs[i] != [] && AllSmall(bs[i])
    ensures |BytesTo(bs, n, o, crc)| <= 2 * ENTRY_BYTES * |FlattenTo(bs, n)|
  {
    hide BlockBytes, AllSmall;
    if n != 0 {
      BytesSize(bs, n - 1, o, crc);
      BlockSize(bs[n - 1], o, crc);
    }
  }

  lemma RecSize(rec: IndexRec)
    requires |rec.lastKey| <= Wal.MAX_PAYLOAD && rec.offset < TWO_64 && rec.length < TWO_64
    ensures |EncodeRec(rec)| <= ENTRY_BYTES
  {
    hide Encode;
    VarintSize(|rec.lastKey|);
    VarintSize(rec.offset);
    VarintSize(rec.length);
  }

  lemma {:induction false} RecsSize(recs: seq<IndexRec>)
    requires forall i :: 0 <= i < |recs| ==>
      |recs[i].lastKey| <= Wal.MAX_PAYLOAD && recs[i].offset < TWO_64 && recs[i].length < TWO_64
    ensures |EncodeRecs(recs)| <= ENTRY_BYTES * |recs|
  {
    hide EncodeRec;
    if recs != [] {
      RecSize(recs[0]);
      RecsSize(recs[1..]);
    }
  }

  lemma FilterSize(keys: seq<Data>, n: nat, hashing: Bloom.Hashing)
    requires n <= |keys|
    ensures |Bloom.Marshal(FilterTo(keys, n, hashing))| <= 25 + 0x2000_0000_0000_0000
  {
    var f := FilterTo(keys, n, hashing);
    assert f.Valid();
  }

  lemma LastKeySmall(b: seq<Entry>)
    requires b != [] && AllSmall(b)
    ensures |b[|b| - 1].key| <= Wal.MAX_PAYLOAD
  {
  }

  /** The index of a table of small entries. */
  lemma IndexSize(es: seq<Entry>, o: Options, crc: Data -> U32)
    requires o.Valid() && o.blockSize < MAX_BLOCK && |es| <= MAX_ENTRIES && AllSmall(es)
    ensures var bs := Blocks(es, o);
            && |BytesTo(bs, |bs|, o, crc)| <= 2 * ENTRY_BYTES * |es|
            && (forall i :: 0 <= i < |bs| ==> bs[i] != [])
            && |Checked(EncodeIndex(Index(bs, o, crc)), crc)| <= 14 + ENTRY_BYTES * |es|
  {
    hide Blocks, FlattenTo, BytesTo, Encode, EncodeRecs, DataTo, LE, Fits, Small;
    var bs := Blocks(es, o);
    BlocksKeep(es, o);
    forall i: nat | i < |bs|
      ensures AllSmall(bs[i])
    {
      BlocksFit(es, o, i);
    }
    BytesSize(bs, |bs|, o, crc);
    SmallWidths(es);
    IndexWidths(es, bs, o, crc);
    forall i | 0 <= i < |bs|
      ensures |Index(bs, o, crc)[i].lastKey| <= Wal.MAX_PAYLOAD
    {
      LastKeySmall(bs[i]);
    }
    RecsSize(Index(bs, o, crc));
    VarintSize(|bs|);
  }

  lemma SmallWidths(es: seq<Entry>)
    requires AllSmall(es)
    ensures Widths64(es)
  {
  }

  /** Small entries, not too many and in blocks of ordinary size, can be stored as a table. */
  lemma SmallTables(es: seq<Entry>, o: Options, env: Env)
    requires o.Valid() && o.blockSize < MAX_BLOCK && |es| <= MAX_ENTRIES && AllSmall(es)
    ensures Representable(es, o, env)
  {
    hide Blocks, BytesTo, Bloom.Marshal, FilterTo, Checked, EncodeIndex, Index, Fits, AllSmall, Footer;
    SmallWidths(es);
    forall i: nat | i < |Blocks(es, o)|
      ensures Fits(Blocks(es, o)[i], o.restarts)
    {
      BlocksFit(es, o, i);
    }
    BlocksKeep(es, o);
    IndexSize(es, o, env.crc);
    FilterSize(Keys(es), |es|, env.hashing);
  }

  /** A frame the log accepts holds small entries only. */
  lemma FrameSmall(f: Wal.Frame)
    requires Wal.Encodable(f)
    ensures AllSmall(Wal.Records(f))
  {
    hide Wal.EncodeItem, Encode;
    match f
    case Single(e) =>
      assert Wal.Records(f) == [e] && Wal.Records(f)[0] == e;
    case Batch(es) =>
      forall i | 0 <= i < |es|
        ensures Small(es[i])
      {
        assert Wal.Records(f)[i] == es[i];
        Wal.ItemsGrow(es, i + 1, |es|);
        ItemSize(es[i]);
      }
  }

  lemma ItemSize(e: Entry)
    ensures |Wal.EncodeItem(e)| >= |e.key| + |e.value|
  {
  }
}
