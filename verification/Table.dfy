/**
 SSTable files (`internal/sstable`): how a list of entries becomes bytes, and how those
 bytes are opened.
 */
module Table {
  import opened Bytes
  import opened Entries
  import opened Varint
  import opened Block
  import Bloom

  const MAGIC: nat := 0x53535442
  const FOOTER: nat := 56

  /** Block size and restart interval, after defaults have been filled in. */
  datatype Options = Options(blockSize: nat, restarts: nat) {
    ghost predicate Valid() {
      blockSize > 0 && restarts > 0
    }
  }

  function Normalize(blockSize: int, restarts: int): (o: Options)
    ensures o.Valid()
  {
    Options(if blockSize > 0 then blockSize else 4096, if restarts > 0 then restarts else 16)
  }

  /** The checksum and the hash functions, both arbitrary. */
  datatype Env = Env(crc: Data -> U32, hashing: Bloom.Hashing)

  // ---------- cutting entries into blocks ----------

  /** Blocks already written and the entries of the block being filled. */
  datatype Parts = Parts(done: seq<seq<Entry>>, cur: seq<Entry>)

  function Split(es: seq<Entry>, n: nat, o: Options): Parts
    requires o.restarts > 0 && n <= |es|
  {
    if n == 0 then Parts([], []) else Cut(Split(es, n - 1, o), es[n - 1], o)
  }

  /** One more entry: it goes into the open block, which is closed once it is large enough. */
  function Cut(p: Parts, e: Entry, o: Options): Parts
    requires o.restarts > 0
  {
    var cur := p.cur + [e];
    if |DataTo(cur, o.restarts, |cur|)| >= o.blockSize then Parts(p.done + [cur], []) else Parts(p.done, cur)
  }

  function Finished(p: Parts): seq<seq<Entry>> {
    if p.cur == [] then p.done else p.done + [p.cur]
  }

  function Blocks(es: seq<Entry>, o: Options): seq<seq<Entry>>
    requires o.restarts > 0
  {
    Finished(Split(es, |es|, o))
  }

  function FlattenTo(bs: seq<seq<Entry>>, n: nat): seq<Entry>
    requires n <= |bs|
  {
    if n == 0 then [] else FlattenTo(bs, n - 1) + bs[n - 1]
  }

  lemma {:induction false} FlattenPrefix(bs: seq<seq<Entry>>, cs: seq<seq<Entry>>, n: nat)
    requires n <= |bs| && n <= |cs| && forall i :: 0 <= i < n ==> bs[i] == cs[i]
    ensures FlattenTo(bs, n) == FlattenTo(cs, n)
  {
    if n != 0 {
      FlattenPrefix(bs, cs, n - 1);
    }
  }

  lemma FlattenAppend(bs: seq<seq<Entry>>, b: seq<Entry>)
    ensures FlattenTo(bs + [b], |bs| + 1) == FlattenTo(bs, |bs|) + b
  {
    FlattenPrefix(bs + [b], bs, |bs|);
  }

  /** Cutting loses nothing, reorders nothing, and leaves no block empty. */
  lemma {:induction false} SplitKeeps(es: seq<Entry>, n: nat, o: Options)
    requires o.restarts > 0 && n <= |es|
    ensures var p := Split(es, n, o);
            && FlattenTo(p.done, |p.done|) + p.cur == es[..n]
            && forall i :: 0 <= i < |p.done| ==> p.done[i] != []
  {
    hide DataTo;
    if n != 0 {
      SplitKeeps(es, n - 1, o);
      CutKeeps(Split(es, n - 1, o), es[n - 1], o);
      assert es[..n] == es[..n - 1] + [es[n - 1]];
    }
  }

  lemma CutKeeps(p: Parts, e: Entry, o: Options)
    requires o.restarts > 0
    ensures var q := Cut(p, e, o);
            && FlattenTo(q.done, |q.done|) + q.cur == FlattenTo(p.done, |p.done|) + p.cur + [e]
            && (|q.done| > |p.done| ==> q.done == p.done + [p.cur + [e]])
            && (|q.done| <= |p.done| ==> q.done == p.done)
  {
    hide DataTo;
    FlattenAppend(p.done, p.cur + [e]);
  }

  lemma BlocksKeep(es: seq<Entry>, o: Options)
    requires o.restarts > 0
    ensures var bs := Blocks(es, o);
            FlattenTo(bs, |bs|) == es && forall i :: 0 <= i < |bs| ==> bs[i] != []
  {
    var p := Split(es, |es|, o);
    SplitKeeps(es, |es|, o);
    assert es[..|es|] == es;
    FlattenAppend(p.done, p.cur);
  }

  /** Block `i` of a cut list is a slice of it. */
  lemma {:induction false} BlockSlice(bs: seq<seq<Entry>>, i: nat, n: nat)
    requires i < n <= |bs|
    ensures var a := FlattenTo(bs, i);
            && |a| + |bs[i]| <= |FlattenTo(bs, n)|
            && FlattenTo(bs, n)[..|a|] == a
            && FlattenTo(bs, n)[|a|..|a| + |bs[i]|] == bs[i]
  {
    if i + 1 < n {
      BlockSlice(bs, i, n - 1);
    }
  }

  // ---------- the bytes of a table ----------

  function BlockBytes(b: seq<Entry>, o: Options, crc: Data -> U32): Data
    requires o.restarts > 0
  {
    Body(b, o.restarts) + LE(crc(Body(b, o.restarts)), 4)
  }

  function BytesTo(bs: seq<seq<Entry>>, n: nat, o: Options, crc: Data -> U32): Data
    requires o.restarts > 0 && n <= |bs|
  {
    if n == 0 then [] else BytesTo(bs, n - 1, o, crc) + BlockBytes(bs[n - 1], o, crc)
  }

  lemma {:induction false} BytesPrefix(bs: seq<seq<Entry>>, cs: seq<seq<Entry>>, n: nat, o: Options, crc: Data -> U32)
    requires o.restarts > 0
    requires n <= |bs| && n <= |cs| && forall i :: 0 <= i < n ==> bs[i] == cs[i]
    ensures BytesTo(bs, n, o, crc) == BytesTo(cs, n, o, crc)
  {
    if n != 0 {
      BytesPrefix(bs, cs, n - 1, o, crc);
    }
  }

  lemma {:induction false} BlockAtOffset(bs: seq<seq<Entry>>, i: nat, n: nat, o: Options, crc: Data -> U32)
    requires o.restarts > 0 && i < n <= |bs|
    ensures var a, x := BytesTo(bs, i, o, crc), BlockBytes(bs[i], o, crc);
            && |a| + |x| <= |BytesTo(bs, n, o, crc)|
            && BytesTo(bs, n, o, crc)[|a|..|a| + |x|] == x
  {
    hide BlockBytes;
    var a, x := BytesTo(bs, i, o, crc), BlockBytes(bs[i], o, crc);
    if i + 1 < n {
      BlockAtOffset(bs, i, n - 1, o, crc);
      SliceOfFirst(BytesTo(bs, n - 1, o, crc), BlockBytes(bs[n - 1], o, crc), |a|, |a| + |x|);
    } else {
      TrailerAt(a, x);
      assert (a + x)[|a|..|a| + |x|] == (a + x)[|a|..];
    }
  }

  lemma SliceOfFirst(a: Data, x: Data, lo: nat, hi: nat)
    requires lo <= hi <= |a|
    ensures (a + x)[lo..hi] == a[lo..hi]
  {
  }

  /** Where a block ends in key order, and where its bytes are. */
  datatype IndexRec = IndexRec(lastKey: Data, offset: nat, length: nat)

  function IndexOf(b: seq<Entry>, offset: nat, o: Options, crc: Data -> U32): IndexRec
    requires o.restarts > 0 && b != []
  {
    IndexRec(b[|b| - 1].key, offset, |BlockBytes(b, o, crc)|)
  }

  function Index(bs: seq<seq<Entry>>, o: Options, crc: Data -> U32): (s: seq<IndexRec>)
    requires o.restarts > 0 && forall i :: 0 <= i < |bs| ==> bs[i] != []
    ensures |s| == |bs|
    ensures forall i :: 0 <= i < |bs| ==> s[i] == IndexOf(bs[i], |BytesTo(bs, i, o, crc)|, o, crc)
  {
    seq(|bs|, i requires 0 <= i < |bs| => IndexOf(bs[i], |BytesTo(bs, i, o, crc)|, o, crc))
  }

  lemma BytesAppend(bs: seq<seq<Entry>>, b: seq<Entry>, o: Options, crc: Data -> U32)
    requires o.restarts > 0
    ensures BytesTo(bs + [b], |bs| + 1, o, crc) == BytesTo(bs, |bs|, o, crc) + BlockBytes(b, o, crc)
  {
    hide BlockBytes;
    BytesPrefix(bs + [b], bs, |bs|, o, crc);
  }

  lemma IndexAppend(bs: seq<seq<Entry>>, b: seq<Entry>, o: Options, crc: Data -> U32)
    requires o.restarts > 0 && b != [] && forall i :: 0 <= i < |bs| ==> bs[i] != []
    ensures Index(bs + [b], o, crc) == Index(bs, o, crc) + [IndexOf(b, |BytesTo(bs, |bs|, o, crc)|, o, crc)]
  {
    hide BytesTo, IndexOf, Index;
    var cs := bs + [b];
    forall i | 0 <= i < |cs|
      ensures Index(cs, o, crc)[i] == (Index(bs, o, crc) + [IndexOf(b, |BytesTo(bs, |bs|, o, crc)|, o, crc)])[i]
    {
      BytesPrefix(cs, bs, i, o, crc);
    }
  }

  function EncodeRec(rec: IndexRec): Data {
    Encode(|rec.lastKey|) + (rec.lastKey + (Encode(rec.offset) + Encode(rec.length)))
  }

  function EncodeRecs(recs: seq<IndexRec>): Data {
    if recs == [] then [] else EncodeRec(recs[0]) + EncodeRecs(recs[1..])
  }

  function EncodeIndex(recs: seq<IndexRec>): Data {
    Encode(|recs|) + EncodeRecs(recs)
  }

  /** A byte string followed by its checksum. */
  function Checked(b: Data, crc: Data -> U32): Data {
    b + LE(crc(b), 4)
  }

  function Keys(es: seq<Entry>): seq<Data> {
    seq(|es|, i requires 0 <= i < |es| => es[i].key)
  }

  /** The filter sized for all the keys, after the first `n` have been added. */
  function FilterTo(keys: seq<Data>, n: nat, hashing: Bloom.Hashing): (f: Bloom.Image)
    requires n <= |keys|
    ensures f.Valid()
  {
    if n == 0 then Bloom.Empty(|keys|, hashing)
    else Bloom.Added(FilterTo(keys, n - 1, hashing), hashing.pair(keys[n - 1]))
  }

  lemma {:induction false} FilterAdmits(keys: seq<Data>, n: nat, i: nat, hashing: Bloom.Hashing)
    requires i < n <= |keys|
    ensures Bloom.MayContain(FilterTo(keys, n, hashing), hashing.pair(keys[i]))
  {
    if i + 1 < n {
      FilterAdmits(keys, n - 1, i, hashing);
    }
    Bloom.AddedContains(FilterTo(keys, n - 1, hashing), hashing.pair(keys[n - 1]), hashing.pair(keys[i]));
  }

  function Footer(indexOff: nat, indexLen: nat, bloomOff: nat, bloomLen: nat, maxSeq: nat, entries: nat): (b: Data)
    ensures |b| == FOOTER
  {
    LE(MAGIC, 4) + (LE(indexOff, 8) + (LE(indexLen, 8) + (LE(bloomOff, 8) + (LE(bloomLen, 8)
    + (LE(maxSeq, 8) + (LE(entries, 8) + LE(MAGIC, 4)))))))
  }

  /** Data, filter, index with its checksum, and the footer that says where each begins. */
  function Assemble(data: Data, bloom: Data, index: Data, maxSeq: nat, entries: nat): Data {
    data + (bloom + (index + Footer(|data| + |bloom|, |index|, |data|, |bloom|, maxSeq, entries)))
  }

  /** The file WriteFile produces for a list of entries. */
  function TableBytes(es: seq<Entry>, o: Options, env: Env): Data
    requires o.restarts > 0
  {
    BlocksKeep(es, o);
    var bs := Blocks(es, o);
    Assemble(BytesTo(bs, |bs|, o, env.crc),
             Bloom.Marshal(FilterTo(Keys(es), |es|, env.hashing)),
             Checked(EncodeIndex(Index(bs, o, env.crc)), env.crc),
             MaxSeqno(es), |es|)
  }

  /** Sizes for which every fixed-width field and cast of the format is exact. */
  ghost predicate Representable(es: seq<Entry>, o: Options, env: Env) {
    && o.Valid()
    && Widths64(es) && |es| < TWO_64
    && (forall i :: 0 <= i < |Blocks(es, o)| ==> Fits(Blocks(es, o)[i], o.restarts))
    && |TableBytes(es, o, env)| < TWO_63
  }
}
