/**
 The stored forms, byte by byte: where each field of a log frame, a block, a table, a filter
 and a manifest lies, how wide it is and which way round, and the constants between them.
 Numbers of variable length are read with `Field`, those of fixed width are written `LE`.
 */
module Formats {
  import opened Bytes
  import opened Entries
  import opened Varint
  import opened Wal
  import opened Block
  import opened Table
  import opened TableReader
  import Bloom
  import M = Manifest

  // ---------- the log ----------

  /** Length, type, checksum of type and payload, payload. */
  lemma FrameForm(f: RawFrame, crc: Data -> U32)
    ensures var b := FrameBytes(f, crc);
            && |b| == 9 + |f.payload| && b[0..4] == LE(|f.payload|, 4) && b[4] == f.typ
            && b[5..9] == LE(crc([f.typ] + f.payload), 4) && b[9..] == f.payload
  {
    var b := FrameBytes(f, crc);
    assert b[0..] == (LE(|f.payload|, 4) + ([f.typ] + (LE(crc([f.typ] + f.payload), 4) + f.payload))) + [];
    FrameFields(b, 0, LE(|f.payload|, 4), f.typ, LE(crc([f.typ] + f.payload), 4), f.payload, []);
  }

  /** Puts, deletions and batches are of type 1, 2 and 3. */
  lemma FrameTypes(e: Entry, es: seq<Entry>)
    ensures Raw(Single(e)) == RawFrame(if e.deleted then 2 else 1, EncodeKV(e))
    ensures Raw(Batch(es)).typ == 3
  {
  }

  /** The payload of one record: number, key and value, the latter two behind their lengths. */
  lemma RecordForm(e: Entry) returns (a: nat, k: nat, v: nat)
    requires e.seqno < TWO_64 && |e.key| < TWO_64 && |e.value| < TWO_64
    ensures var p := EncodeKV(e);
            && Field(p, 0) == Some((e.seqno, a)) && Field(p, a) == Some((|e.key|, k))
            && k + |e.key| <= |p| && p[k..k + |e.key|] == e.key
            && Field(p, k + |e.key|) == Some((|e.value|, v)) && p[v..] == e.value
  {
    hide Encode, Field;
    var p, y := EncodeKV(e), Encode(|e.key|) + (e.key + (Encode(|e.value|) + e.value));
    assert p[0..] == (Encode(e.seqno) + y) + [];
    a := FieldAt(p, 0, e.seqno, y, []);
    k, v := PairForm(p, a, e);
  }

  lemma PairForm(p: Data, a: nat, e: Entry) returns (k: nat, v: nat)
    requires a <= |p| && p[a..] == (Encode(|e.key|) + (e.key + (Encode(|e.value|) + e.value))) + []
    requires |e.key| < TWO_64 && |e.value| < TWO_64
    ensures Field(p, a) == Some((|e.key|, k)) && k + |e.key| <= |p| && p[k..k + |e.key|] == e.key
    ensures Field(p, k + |e.key|) == Some((|e.value|, v)) && p[v..] == e.value
  {
    hide Encode, Field;
    k := FieldAt(p, a, |e.key|, e.key + (Encode(|e.value|) + e.value), []);
    Peel(p, k, e.key, Encode(|e.value|) + e.value, []);
    v := FieldAt(p, k + |e.key|, |e.value|, e.value, []);
    assert e.value + [] == e.value;
  }

  /** One entry of a batch: the same with the type, 1 or 2, behind the number. */
  lemma ItemForm(e: Entry) returns (a: nat, k: nat, v: nat)
    requires e.seqno < TWO_64 && |e.key| < TWO_64 && |e.value| < TWO_64
    ensures var p := EncodeItem(e);
            && Field(p, 0) == Some((e.seqno, a)) && a < |p| && p[a] == (if e.deleted then 2 else 1)
            && Field(p, a + 1) == Some((|e.key|, k))
            && k + |e.key| <= |p| && p[k..k + |e.key|] == e.key
            && Field(p, k + |e.key|) == Some((|e.value|, v)) && p[v..] == e.value
  {
    hide Encode, Field;
    var p, y := EncodeItem(e), Encode(|e.key|) + (e.key + (Encode(|e.value|) + e.value));
    assert p[0..] == (Encode(e.seqno) + ([TypeOf(e)] + y)) + [];
    a := FieldAt(p, 0, e.seqno, [TypeOf(e)] + y, []);
    Peel(p, a, [TypeOf(e)], y, []);
    assert p[a] == p[a..a + 1][0];
    k, v := PairForm(p, a + 1, e);
  }

  /** The payload of a batch: the number of entries, then the entries in order, each from `starts[i]` on. */
  lemma BatchForm(es: seq<Entry>) returns (starts: seq<nat>)
    requires |es| < TWO_64
    ensures var p := Raw(Batch(es)).payload;
            && |starts| == |es| + 1 && Field(p, 0) == Some((|es|, starts[0])) && starts[|es|] == |p|
            && forall i: nat :: i < |es| ==> ItemIn(p, starts, i, es[i])
  {
    hide Encode, Field, EncodeItem, EncodeItems, ItemIn;
    var p, all := Raw(Batch(es)).payload, EncodeItems(es, |es|);
    assert p[0..] == (Encode(|es|) + all) + [];
    var at := FieldAt(p, 0, |es|, all, []);
    assert all + [] == all;
    starts := seq(|es| + 1, i requires 0 <= i <= |es| => at + |EncodeItems(es, i)|);
    NoItems(es);
    forall i: nat | i < |es|
      ensures ItemIn(p, starts, i, es[i])
    {
      ItemPlace(p, at, es, i, starts);
    }
  }

  ghost predicate ItemIn(p: Data, starts: seq<nat>, i: nat, e: Entry) {
    i + 1 < |starts| && starts[i] <= starts[i + 1] <= |p| && p[starts[i]..starts[i + 1]] == EncodeItem(e)
  }

  lemma NoItems(es: seq<Entry>)
    ensures EncodeItems(es, 0) == []
  {
  }

  lemma ItemPlace(p: Data, at: nat, es: seq<Entry>, i: nat, starts: seq<nat>)
    requires i < |es| && at <= |p| && p[at..] == EncodeItems(es, |es|) && |starts| == |es| + 1
    requires starts[i] == at + |EncodeItems(es, i)| && starts[i + 1] == at + |EncodeItems(es, i + 1)|
    ensures ItemIn(p, starts, i, es[i])
  {
    hide EncodeItem;
    ItemsGrow(es, i + 1, |es|);
    MiddlePart(p, at, EncodeItems(es, |es|), EncodeItems(es, i), EncodeItem(es[i]));
  }

  lemma MiddlePart(p: Data, at: nat, all: Data, a: Data, x: Data)
    requires at <= |p| && p[at..] == all && |a + x| <= |all| && all[..|a + x|] == a + x
    ensures p[at + |a|..at + |a + x|] == x
  {
    assert p[at + |a|..at + |a + x|] == p[at..][|a|..|a + x|];
    assert all[|a|..|a + x|] == all[..|a + x|][|a|..];
  }

  // ---------- blocks ----------

  /**
   An entry of a block: how much of the key before is shared, the lengths of the rest of the
   key and of the value, the number, 1 for a deletion and 0 otherwise, then the bytes.
   */
  lemma EntryForm(e: Entry, shared: nat) returns (a: nat, b: nat, c: nat, d: nat)
    requires shared <= |e.key| && e.seqno < TWO_64 && |e.key| < TWO_64 && |e.value| < TWO_64
    ensures var p := EncodeEntry(e, shared);
            && Field(p, 0) == Some((shared, a)) && Field(p, a) == Some((|e.key| - shared, b))
            && Field(p, b) == Some((|e.value|, c)) && Field(p, c) == Some((e.seqno, d))
            && d < |p| && p[d] == (if e.deleted then 1 else 0) && p[d + 1..] == e.key[shared..] + e.value
  {
    hide Encode, Field;
    var p := EncodeEntry(e, shared);
    var y4 := [Flag(e)] + (e.key[shared..] + e.value);
    var y3 := Encode(e.seqno) + y4;
    var y2 := Encode(|e.value|) + y3;
    var y1 := Encode(|e.key| - shared) + y2;
    assert p[0..] == (Encode(shared) + y1) + [];
    a := FieldAt(p, 0, shared, y1, []);
    b := FieldAt(p, a, |e.key| - shared, y2, []);
    c := FieldAt(p, b, |e.value|, y3, []);
    d := FieldAt(p, c, e.seqno, y4, []);
    FlagForm(p, d, Flag(e), e.key[shared..] + e.value);
  }

  lemma FlagForm(p: Data, d: nat, flag: Byte, x: Data)
    requires d <= |p| && p[d..] == ([flag] + x) + []
    ensures d < |p| && p[d] == flag && p[d + 1..] == x
  {
    Peel(p, d, [flag], x, []);
    assert p[d] == p[d..d + 1][0];
    assert x + [] == x;
  }

  /** Every `r`-th key is stored whole; any other leaves out exactly what it has in common with the key before. */
  lemma SharedForm(es: seq<Entry>, r: nat, i: nat)
    requires r > 0 && i < |es|
    ensures i % r == 0 ==> SharedAt(es, r, i) == 0
    ensures i % r != 0 ==>
      var n, p, k := SharedAt(es, r, i), es[i - 1].key, es[i].key;
      && n <= |p| && n <= |k| && p[..n] == k[..n] && (n == |p| || n == |k| || p[n] != k[n])
  {
  }

  /** The restart points are entries 0, r, 2r, and so on. */
  lemma {:induction false} RestartsExact(r: nat, n: nat)
    requires r > 0
    ensures var s := RestartsTo(r, n);
            |s| == (n + r - 1) / r && forall j :: 0 <= j < |s| ==> s[j] == j * r
  {
    hide *;
    if n == 0 {
      NoRestarts(r);
    } else {
      RestartsExact(r, n - 1);
      LastRestart(r, n);
      Ceiling(n - 1, r);
      Ceiling(n, r);
    }
  }

  lemma NoRestarts(r: nat)
    requires r > 0
    ensures RestartsTo(r, 0) == [] && (r - 1) / r == 0
  {
    DivModUnique(r - 1, r, 0, r - 1);
  }

  lemma LastRestart(r: nat, n: nat)
    requires r > 0 && n > 0
    ensures RestartsTo(r, n) == RestartsTo(r, n - 1) + (if (n - 1) % r == 0 then [n - 1] else [])
  {
  }

  lemma Ceiling(n: nat, r: nat)
    requires r > 0
    ensures (n + r - 1) / r == n / r + (if n % r == 0 then 0 else 1)
    ensures n > 0 ==> (n + r - 1) / r == (n - 1) / r + 1
    ensures n % r == 0 ==> n == (n / r) * r
  {
    if n % r == 0 {
      CeilingWhole(n, r, n / r);
    } else {
      CeilingPart(n, r, n / r, n % r);
    }
  }

  lemma CeilingWhole(n: nat, r: nat, q: nat)
    requires r > 0 && n == r * q
    ensures (n + r - 1) / r == q && (n > 0 ==> (n - 1) / r == q - 1)
  {
    DivModUnique(n + r - 1, r, q, r - 1);
    if n > 0 {
      assert r * (q - 1) == r * q - r;
      DivModUnique(n - 1, r, q - 1, r - 1);
    }
  }

  lemma CeilingPart(n: nat, r: nat, q: nat, m: nat)
    requires 0 < m < r && n == r * q + m
    ensures (n + r - 1) / r == q + 1 && (n - 1) / r == q
  {
    assert r * (q + 1) == r * q + r;
    DivModUnique(n + r - 1, r, q + 1, m - 1);
    DivModUnique(n - 1, r, q, m - 1);
  }

  lemma {:induction false} OffsetsForm(s: seq<nat>, j: nat)
    requires j < |s|
    ensures 4 * j + 4 <= |EncodeOffsets(s)| && EncodeOffsets(s)[4 * j..4 * j + 4] == LE(s[j], 4)
  {
    hide LE;
    var n := |s| - 1;
    if j < n {
      OffsetsForm(s[..n], j);
      SliceOfFirst(EncodeOffsets(s[..n]), LE(s[n], 4), 4 * j, 4 * j + 4);
    }
  }

  /**
   A block: the entries, four bytes for the place of each restart point, four bytes for
   their number, and four bytes of checksum over all that.
   */
  lemma BlockForm(es: seq<Entry>, o: Options, crc: Data -> U32)
    requires o.restarts > 0
    ensures var b, n, d := BlockBytes(es, o, crc), (|es| + o.restarts - 1) / o.restarts, |DataTo(es, o.restarts, |es|)|;
            && |b| == d + 4 * n + 8 && b[..d] == DataTo(es, o.restarts, |es|)
            && (forall j :: 0 <= j < n ==>
                  && d + 4 * j + 4 <= |b| && j * o.restarts <= |es|
                  && b[d + 4 * j..d + 4 * j + 4] == LE(|DataTo(es, o.restarts, j * o.restarts)|, 4))
            && b[d + 4 * n..d + 4 * n + 4] == LE(n, 4) && b[d + 4 * n + 4..] == LE(crc(b[..d + 4 * n + 4]), 4)
  {
    hide LE, DataTo, OffsetsTo, RestartsTo, EncodeOffsets;
    var r, data, s := o.restarts, DataTo(es, o.restarts, |es|), OffsetsTo(es, o.restarts, |es|);
    RestartsExact(r, |es|);
    OffsetsShape(es, r, |es|);
    BlockParts(data, EncodeOffsets(s), LE(|s|, 4), LE(crc(Body(es, r)), 4), BlockBytes(es, o, crc));
    forall j | 0 <= j < |s|
      ensures RestartsTo(r, |es|)[j] == j * r && j * r <= |es| && s[j] == |DataTo(es, r, j * r)|
      ensures BlockBytes(es, o, crc)[|data| + 4 * j..|data| + 4 * j + 4] == LE(s[j], 4)
    {
      OffsetsForm(s, j);
      assert BlockBytes(es, o, crc)[|data| + 4 * j..|data| + 4 * j + 4]
             == BlockBytes(es, o, crc)[|data|..|data| + 4 * |s|][4 * j..4 * j + 4];
    }
  }

  lemma BlockParts(data: Data, offs: Data, count: Data, sum: Data, b: Data)
    requires b == (data + offs + count) + sum
    ensures |b| == |data| + |offs| + |count| + |sum| && b[..|data|] == data
    ensures b[|data|..|data| + |offs|] == offs && b[|data| + |offs|..|data| + |offs| + |count|] == count
    ensures b[..|data| + |offs| + |count|] == data + offs + count && b[|data| + |offs| + |count|..] == sum
  {
  }

  /** Without options blocks are of 4096 bytes, and every sixteenth key is stored whole. */
  lemma FormatDefaults(blockSize: int, restarts: int)
    ensures var o := Normalize(blockSize, restarts);
            && o.blockSize == (if blockSize >= 1 then blockSize else 4096)
            && o.restarts == (if restarts >= 1 then restarts else 16)
  {
  }

  /** Blocks are cut where they first reach the block size; only the last may stay below it. */
  lemma BlocksFull(es: seq<Entry>, o: Options, i: nat, j: nat)
    requires o.Valid() && i < |Blocks(es, o)| && j < |Blocks(es, o)[i]|
    ensures var b := Blocks(es, o)[i];
            && |DataTo(b, o.restarts, j)| < o.blockSize
            && (i + 1 < |Blocks(es, o)| ==> |DataTo(b, o.restarts, |b|)| >= o.blockSize)
  {
    hide DataTo, Split;
    SplitFull(es, |es|, o);
    var p := Split(es, |es|, o);
    assert FullBlock(p.done + [p.cur], o, i) || i < |p.done|;
  }

  /** Block `i` is below the block size without its last entry. */
  ghost predicate FullBlock(bs: seq<seq<Entry>>, o: Options, i: nat)
    requires o.restarts > 0 && i < |bs|
  {
    forall j: nat :: j < |bs[i]| ==> |DataTo(bs[i], o.restarts, j)| < o.blockSize
  }

  lemma {:induction false} SplitFull(es: seq<Entry>, n: nat, o: Options)
    requires o.Valid() && n <= |es|
    ensures var p := Split(es, n, o);
            && (forall i :: 0 <= i < |p.done| ==>
                  FullBlock(p.done, o, i) && |DataTo(p.done[i], o.restarts, |p.done[i]|)| >= o.blockSize)
            && (forall j: nat :: j <= |p.cur| ==> |DataTo(p.cur, o.restarts, j)| < o.blockSize)
            && FullBlock(p.done + [p.cur], o, |p.done|)
  {
    hide DataTo;
    if n == 0 {
      Nothing(o.restarts);
    } else {
      SplitFull(es, n - 1, o);
      var p, e := Split(es, n - 1, o), es[n - 1];
      var cur := p.cur + [e];
      Nothing(o.restarts);
      forall j: nat | j < |cur|
        ensures |DataTo(cur, o.restarts, j)| < o.blockSize
      {
        DataToPrefix(cur, p.cur, o.restarts, j);
      }
      forall i | 0 <= i < |p.done|
        ensures FullBlock(p.done + [cur], o, i)
      {
        assert FullBlock(p.done, o, i);
      }
    }
  }

  lemma Nothing(r: nat)
    requires r > 0
    ensures |DataTo([], r, 0)| == 0
  {
  }

  // ---------- tables ----------

  /** An index record: the last key of a block behind its length, and the block's place and length. */
  lemma IndexForm(rec: IndexRec) returns (k: nat, a: nat, b: nat)
    requires |rec.lastKey| < TWO_64 && rec.offset < TWO_64 && rec.length < TWO_64
    ensures var p := EncodeRec(rec);
            && Field(p, 0) == Some((|rec.lastKey|, k)) && k + |rec.lastKey| <= |p|
            && p[k..k + |rec.lastKey|] == rec.lastKey
            && Field(p, k + |rec.lastKey|) == Some((rec.offset, a)) && Field(p, a) == Some((rec.length, b)) && b == |p|
  {
    hide Encode, Field;
    var p, y := EncodeRec(rec), Encode(rec.offset) + Encode(rec.length);
    assert p[0..] == (Encode(|rec.lastKey|) + (rec.lastKey + y)) + [];
    k := FieldAt(p, 0, |rec.lastKey|, rec.lastKey + y, []);
    Peel(p, k, rec.lastKey, y, []);
    a := FieldAt(p, k + |rec.lastKey|, rec.offset, Encode(rec.length), []);
    assert Encode(rec.length) + [] == (Encode(rec.length) + []) + [];
    b := FieldAt(p, a, rec.length, [], []);
    assert p[b..] == [];
  }

  /** The index: the number of blocks, one record for each, and a checksum over all that. */
  lemma IndexSection(recs: seq<IndexRec>, crc: Data -> U32) returns (at: nat)
    requires |recs| < TWO_64
    ensures var p := Checked(EncodeIndex(recs), crc);
            && |p| >= 4 && p[|p| - 4..] == LE(crc(p[..|p| - 4]), 4)
            && Field(p[..|p| - 4], 0) == Some((|recs|, at)) && at <= |p| - 4
            && p[at..|p| - 4] == EncodeRecs(recs)
  {
    hide Encode, Field, EncodeRecs, LE;
    var body := EncodeIndex(recs);
    TrailerAt(body, LE(crc(body), 4));
    assert body[0..] == (Encode(|recs|) + EncodeRecs(recs)) + [];
    at := FieldAt(body, 0, |recs|, EncodeRecs(recs), []);
    assert EncodeRecs(recs) + [] == EncodeRecs(recs);
    SliceOfFirst(body, LE(crc(body), 4), at, |body|);
  }

  /** The footer: 56 bytes, between two copies of the magic number six numbers of eight bytes. */
  lemma FooterForm(indexOff: nat, indexLen: nat, bloomOff: nat, bloomLen: nat, maxSeq: nat, entries: nat)
    ensures var f := Footer(indexOff, indexLen, bloomOff, bloomLen, maxSeq, entries);
            && |f| == 56 && f[0..4] == f[52..56] == LE(0x53535442, 4)
            && f[4..12] == LE(indexOff, 8) && f[12..20] == LE(indexLen, 8) && f[20..28] == LE(bloomOff, 8)
            && f[28..36] == LE(bloomLen, 8) && f[36..44] == LE(maxSeq, 8) && f[44..52] == LE(entries, 8)
  {
    hide LE;
    FooterFields(LE(MAGIC, 4), LE(indexOff, 8), LE(indexLen, 8), LE(bloomOff, 8), LE(bloomLen, 8), LE(maxSeq, 8),
                 LE(entries, 8), LE(MAGIC, 4));
  }

  /** A table file: blocks, filter, index, and the footer that says where they are. */
  lemma TableForm(es: seq<Entry>, o: Options, env: Env)
    requires o.restarts > 0
    ensures var file, bs := TableBytes(es, o, env), Blocks(es, o);
            FlattenTo(bs, |bs|) == es && (forall i :: 0 <= i < |bs| ==> bs[i] != []) &&
            var data := BytesTo(bs, |bs|, o, env.crc);
            var filter := Bloom.Marshal(FilterTo(Keys(es), |es|, env.hashing));
            var index := Checked(EncodeIndex(Index(bs, o, env.crc)), env.crc);
            var d, f, x := |data|, |filter|, |index|;
            && |file| == d + f + x + 56 && file[..d] == data && file[d..d + f] == filter
            && file[d + f..d + f + x] == index && file[d + f + x..] == Footer(d + f, x, d, f, MaxSeqno(es), |es|)
  {
    hide BytesTo, Blocks, FilterTo, Bloom.Marshal, Checked, EncodeIndex, Index, Footer;
    BlocksKeep(es, o);
    var bs := Blocks(es, o);
    var data := BytesTo(bs, |bs|, o, env.crc);
    var filter := Bloom.Marshal(FilterTo(Keys(es), |es|, env.hashing));
    var index := Checked(EncodeIndex(Index(bs, o, env.crc)), env.crc);
    FourParts(data, filter, index, Footer(|data| + |filter|, |index|, |data|, |filter|, MaxSeqno(es), |es|));
  }

  lemma FourParts(a: Data, b: Data, c: Data, d: Data)
    ensures var x := a + (b + (c + d));
            && |x| == |a| + |b| + |c| + |d| && x[..|a|] == a && x[|a|..|a| + |b|] == b
            && x[|a| + |b|..|a| + |b| + |c|] == c && x[|a| + |b| + |c|..] == d
  {
  }

  // ---------- filters ----------

  /** A stored filter: magic number, version, bit count, number of hash functions, number of keys, bits. */
  lemma FilterForm(f: Bloom.Image)
    ensures var b := Bloom.Marshal(f);
            && |b| == 25 + |f.bits| && b[..4] == LE(0xB100F11E, 4) && b[4] == 1 && b[5..13] == LE(f.m, 8)
            && b[13..17] == LE(f.k, 4) && b[17..25] == LE(f.added, 8) && b[25..] == f.bits
  {
    hide LE;
    var b := Bloom.Marshal(f);
    assert b == b + [];
    Bloom.HeaderFields(b, LE(Bloom.MAGIC, 4), LE(f.m, 8), LE(f.k, 4), LE(f.added, 8), f.bits, []);
  }

  /** All keys of a table, added one by one. */
  function AllAdded(keys: seq<Data>, n: nat): Bloom.Build
    requires n <= |keys|
  {
    if n == 0 then Bloom.Start(|keys|) else Bloom.Add(AllAdded(keys, n - 1), keys[n - 1])
  }

  /** The filter of a table is the one built from its keys, and from nothing else. */
  lemma {:induction false} FilterBuilt(keys: seq<Data>, n: nat, hashing: Bloom.Hashing)
    requires n <= |keys|
    ensures FilterTo(keys, n, hashing) == Bloom.Result(AllAdded(keys, n), hashing)
    ensures Bloom.Keys(AllAdded(keys, n), hashing) == set i | 0 <= i < n :: keys[i]
    ensures var f := FilterTo(keys, n, hashing);
            (f.m, f.k) == hashing.size(if |keys| == 0 then 1 else |keys|) && f.added == n % TWO_64
  {
    hide Bloom.MarkAll;
    if n != 0 {
      FilterBuilt(keys, n - 1, hashing);
      OneMoreKey(n - 1);
    }
  }

  lemma OneMoreKey(n: nat)
    ensures (n % TWO_64 + 1) % TWO_64 == (n + 1) % TWO_64
  {
    var q, m := n / TWO_64, n % TWO_64;
    if m + 1 < TWO_64 {
      DivModUnique(n + 1, TWO_64, q, m + 1);
    } else {
      DivModUnique(n + 1, TWO_64, q + 1, 0);
    }
  }

  // ---------- the manifest ----------

  /** The head of a manifest: magic number, version, next file number, log number, number of tables. */
  lemma ManifestForm(st: M.State, crc: Data -> U32)
    ensures var b := M.Encode(st, crc);
            && |b| >= 32 && b[..4] == LE(0x4D4E4653, 4) && b[4..8] == LE(st.version, 4)
            && b[8..16] == LE(st.nextFile, 8) && b[16..24] == LE(st.logSeq, 8) && b[24..28] == LE(|st.files|, 4)
            && b[28..|b| - 4] == M.EncodeFiles(st.files) && b[|b| - 4..] == LE(crc(b[..|b| - 4]), 4)
  {
    hide LE, M.EncodeFiles;
    HeadParts(LE(M.MAGIC, 4), LE(st.version, 4), LE(st.nextFile, 8), LE(st.logSeq, 8), LE(|st.files|, 4),
              M.EncodeFiles(st.files), LE(crc(M.Header(st) + M.EncodeFiles(st.files)), 4));
  }

  lemma HeadParts(a: Data, b: Data, c: Data, d: Data, e: Data, f: Data, sum: Data)
    requires |a| == |b| == |e| == |sum| == 4 && |c| == |d| == 8
    ensures var head := a + (b + (c + (d + e)));
            var x := (head + f) + sum;
            && |x| == 32 + |f| && x[..4] == a && x[4..8] == b && x[8..16] == c && x[16..24] == d && x[24..28] == e
            && x[28..|x| - 4] == f && x[..|x| - 4] == head + f && x[|x| - 4..] == sum
  {
    var head := a + (b + (c + (d + e)));
    var x := (head + f) + sum;
    assert head[0..] == (a + (b + (c + (d + e)))) + [];
    Peel(head, 0, a, b + (c + (d + e)), []);
    Peel(head, 4, b, c + (d + e), []);
    Peel(head, 8, c, d + e, []);
    Peel(head, 16, d, e, []);
    assert head[24..28] == e;
    assert x[..28] == head;
    forall i: nat, j: nat | i <= j <= 28
      ensures x[i..j] == head[i..j]
    {
      assert x[i..j] == x[..28][i..j];
    }
  }

  /** A table in it: name, level, numbers, and the least and greatest key; texts behind two bytes of length. */
  lemma FileForm(f: M.FileMeta)
    ensures var b, a := M.EncodeFile(f), 2 + |f.name|;
            && |b| == a + 28 + 2 + |f.minKey| + 2 + |f.maxKey|
            && b[..2] == LE(|f.name|, 2) && b[2..a] == f.name && b[a..a + 4] == LE(f.level, 4)
            && b[a + 4..a + 12] == LE(f.maxSeq, 8) && b[a + 12..a + 20] == LE(f.entries, 8)
            && b[a + 20..a + 28] == LE(f.fileSize, 8)
            && b[a + 28..a + 30] == LE(|f.minKey|, 2) && b[a + 30..a + 30 + |f.minKey|] == f.minKey
            && b[a + 30 + |f.minKey|..a + 32 + |f.minKey|] == LE(|f.maxKey|, 2) && b[a + 32 + |f.minKey|..] == f.maxKey
  {
    hide LE;
    var b, a := M.EncodeFile(f), 2 + |f.name|;
    var z := LE(|f.maxKey|, 2) + f.maxKey;
    var y := LE(|f.minKey|, 2) + (f.minKey + z);
    var w := LE(f.level, 4) + (LE(f.maxSeq, 8) + (LE(f.entries, 8) + (LE(f.fileSize, 8) + y)));
    assert b[0..] == (LE(|f.name|, 2) + (f.name + w)) + [];
    Peel(b, 0, LE(|f.name|, 2), f.name + w, []);
    Peel(b, 2, f.name, w, []);
    Peel(b, a, LE(f.level, 4), LE(f.maxSeq, 8) + (LE(f.entries, 8) + (LE(f.fileSize, 8) + y)), []);
    Peel(b, a + 4, LE(f.maxSeq, 8), LE(f.entries, 8) + (LE(f.fileSize, 8) + y), []);
    Peel(b, a + 12, LE(f.entries, 8), LE(f.fileSize, 8) + y, []);
    Peel(b, a + 20, LE(f.fileSize, 8), y, []);
    Peel(b, a + 28, LE(|f.minKey|, 2), f.minKey + z, []);
    Peel(b, a + 30, f.minKey, z, []);
    Peel(b, a + 30 + |f.minKey|, LE(|f.maxKey|, 2), f.maxKey, []);
    assert f.maxKey + [] == f.maxKey;
  }

  /** A file name: the number in decimal digits, six of them at least, and ".sst". */
  lemma FileNameForm(n: nat)
    ensures var name := M.FileName(n);
            var d := |name| - 4;
            && d >= 6 && name[d..] == [46, 115, 115, 116] && (n < 1_000_000 ==> d == 6)
            && (forall i :: 0 <= i < d ==> 48 <= name[i] <= 57) && (d > 6 ==> name[0] != 48)
            && M.DigitsValue(name[..d]) == n
    ensures M.FileName(1) == [48, 48, 48, 48, 48, 49, 46, 115, 115, 116]
  {
    M.DigitsInverse(n);
    M.PadInverse(M.Digits(n));
    DigitsForm(n);
    PadForm(M.Digits(n));
    var d := M.Pad(M.Digits(n));
    assert (d + M.SUFFIX)[..|d|] == d && (d + M.SUFFIX)[|d|..] == M.SUFFIX;
    FirstName();
  }

  lemma FirstName()
    ensures M.FileName(1) == [48, 48, 48, 48, 48, 49, 46, 115, 115, 116]
  {
    assert M.Digits(1) == [49];
    assert M.Pad([49]) == M.Pad([48, 49]) by {
      assert [48] + [49] == [48, 49];
    }
    assert M.Pad([48, 49]) == M.Pad([48, 48, 49]) by {
      assert [48] + [48, 49] == [48, 48, 49];
    }
    assert M.Pad([48, 48, 49]) == M.Pad([48, 48, 48, 49]) by {
      assert [48] + [48, 48, 49] == [48, 48, 48, 49];
    }
    assert M.Pad([48, 48, 48, 49]) == M.Pad([48, 48, 48, 48, 49]) by {
      assert [48] + [48, 48, 48, 49] == [48, 48, 48, 48, 49];
    }
    assert M.Pad([48, 48, 48, 48, 49]) == M.Pad([48, 48, 48, 48, 48, 49]) by {
      assert [48] + [48, 48, 48, 48, 49] == [48, 48, 48, 48, 48, 49];
    }
  }

  function Pow10(k: nat): nat {
    if k == 0 then 1 else 10 * Pow10(k - 1)
  }

  lemma {:induction false} DigitsForm(n: nat)
    ensures var d := M.Digits(n);
            && (forall i :: 0 <= i < |d| ==> 48 <= d[i] <= 57) && (|d| > 1 ==> d[0] != 48)
            && (n < 1_000_000 ==> |d| <= 6)
  {
    assert Pow10(3) == 1000 && Pow10(6) == 1000 * Pow10(3);
    if n < 1_000_000 {
      DigitsCount(n, 6);
    }
    DigitsRange(n);
  }

  lemma {:induction false} DigitsRange(n: nat)
    ensures var d := M.Digits(n);
            && (forall i :: 0 <= i < |d| ==> 48 <= d[i] <= 57) && (n > 0 ==> d[0] != 48)
  {
    if n >= 10 {
      DigitsRange(n / 10);
    }
  }

  lemma {:induction false} DigitsCount(n: nat, k: nat)
    requires k > 0 && n < Pow10(k)
    ensures |M.Digits(n)| <= k
  {
    if n >= 10 {
      assert Pow10(1) == 10 * Pow10(0) && Pow10(0) == 1;
      assert Pow10(k) == 10 * Pow10(k - 1);
      DigitsCount(n / 10, k - 1);
    }
  }

  lemma {:induction false} PadForm(d: Data)
    requires forall i :: 0 <= i < |d| ==> 48 <= d[i] <= 57
    ensures var p := M.Pad(d);
            && |p| == (if |d| > 6 then |d| else 6) && (forall i :: 0 <= i < |p| ==> 48 <= p[i] <= 57)
            && (|d| >= 6 ==> p == d)
    decreases 6 - |d|
  {
    if |d| < 6 {
      PadForm([48] + d);
    }
  }
}
