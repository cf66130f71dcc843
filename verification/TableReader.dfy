/**
 Opening an SSTable and looking keys up in it (`internal/sstable/reader.go`).
 */
module TableReader {
  import opened Bytes
  import opened Entries
  import opened Varint
  import opened Block
  import opened Table
  import Bloom

  datatype Error = Corrupt | BadMagic | ReadFailed

  /** An open table; `file` is None once the reader has been closed. */
  datatype Reader = Reader(file: Option<Data>, index: seq<IndexRec>, bloom: Bloom.Image, maxSeq: nat, entries: nat)

  datatype Opened = Open(reader: Reader) | Refused(error: Error)

  // ---------- what Open computes, on any bytes ----------

  /**
   ReadAt: the bytes asked for, or an error when the file ends before them. Nothing asked
   for is read anywhere; an offset whose conversion to 64 signed bits is negative is an error.
   */
  function ReadAt(file: Data, off: nat, len: nat): Option<Data> {
    if len == 0 then (if off < TWO_63 then Some([]) else None)
    else if off + len <= |file| then Some(file[off..off + len])
    else None
  }

  datatype Foot = Foot(indexOff: nat, indexLen: nat, bloomOff: nat, bloomLen: nat, maxSeq: nat, entries: nat)

  function ParseFooter(f: Data): Option<Foot>
    requires |f| == FOOTER
  {
    if FromLE(f[0..4]) != MAGIC || FromLE(f[52..56]) != MAGIC then None
    else Some(Foot(FromLE(f[4..12]), FromLE(f[12..20]), FromLE(f[20..28]), FromLE(f[28..36]),
                   FromLE(f[36..44]), FromLE(f[44..52])))
  }

  function DecodeRec(body: Data, off: nat): (r: Option<(IndexRec, nat)>)
    ensures r.Some? ==> off < r.value.1 <= |body|
  {
    var klen := Field(body, off);
    if klen.None? || klen.value.1 + klen.value.0 > |body| then None
    else
      var start := klen.value.1;
      var mid := start + klen.value.0;
      var boff := Field(body, mid);
      if boff.None? then None
      else
        var blen := Field(body, boff.value.1);
        if blen.None? then None
        else Some((IndexRec(body[start..mid], boff.value.0, blen.value.0), blen.value.1))
  }

  function DecodeRecs(body: Data, off: nat, n: nat): Option<seq<IndexRec>>
    decreases n
  {
    if n == 0 then Some([])
    else
      var rec := DecodeRec(body, off);
      if rec.None? then None
      else After([rec.value.0], DecodeRecs(body, rec.value.1, n - 1))
  }

  /** The index section: checksum, record count, records. */
  function ParseIndex(data: Data, crc: Data -> U32): Option<seq<IndexRec>> {
    if |data| < 4 then None
    else
      var body := data[..|data| - 4];
      if crc(body) != FromLE(data[|data| - 4..]) then None
      else
        var n := Field(body, 0);
        if n.None? then None else DecodeRecs(body, n.value.1, n.value.0)
  }

  function OpenFile(file: Data, crc: Data -> U32): Opened {
    if |file| < FOOTER then Refused(Corrupt)
    else
      var foot := ParseFooter(file[|file| - FOOTER..]);
      if foot.None? then Refused(BadMagic) else OpenSections(file, foot.value, crc)
  }

  function OpenSections(file: Data, f: Foot, crc: Data -> U32): Opened {
    var bloomData := if f.bloomLen == 0 then Some([]) else ReadAt(file, f.bloomOff, f.bloomLen);
    if bloomData.None? then Refused(ReadFailed)
    else
      var bloom := Bloom.Unmarshal(bloomData.value);
      if bloom.None? then Refused(Corrupt)
      else
        var indexData := ReadAt(file, f.indexOff, f.indexLen);
        if indexData.None? then Refused(ReadFailed)
        else
          var index := ParseIndex(indexData.value, crc);
          if index.None? then Refused(Corrupt)
          else Open(Reader(Some(file), index.value, bloom.value, f.maxSeq, f.entries))
  }

  /**
   What an accepted file is: at its end the footer with its two magic numbers and the
   counts; where the footer says, an index with its checksum and a stored filter.
   */
  lemma OpenSound(file: Data, crc: Data -> U32)
    ensures |file| < 56 ==> OpenFile(file, crc) == Refused(Corrupt)
    ensures |file| >= 56 ==>
      var foot := file[|file| - 56..];
      if foot[0..4] != LE(0x53535442, 4) || foot[52..56] != LE(0x53535442, 4) then
        OpenFile(file, crc) == Refused(BadMagic)
      else
        OpenFile(file, crc).Open? ==>
          var r, at, n := OpenFile(file, crc).reader, FromLE(foot[4..12]), FromLE(foot[12..20]);
          && r.file == Some(file) && r.maxSeq == FromLE(foot[36..44]) && r.entries == FromLE(foot[44..52])
          && n >= 4 && at + n <= |file| && file[at + n - 4..at + n] == LE(crc(file[at..at + n - 4]), 4)
          && Field(file[at..at + n - 4], 0).Some? && Field(file[at..at + n - 4], 0).value.0 == |r.index|
  {
    hide LE, FromLE, Field, DecodeRecs, Bloom.Unmarshal;
    if |file| >= 56 {
      var foot := file[|file| - 56..];
      MagicIs(foot[0..4]);
      MagicIs(foot[52..56]);
      if OpenFile(file, crc).Open? {
        var at, n := FromLE(foot[4..12]), FromLE(foot[12..20]);
        var data := file[at..at + n];
        LEInverse(data[n - 4..]);
        assert data[..n - 4] == file[at..at + n - 4] && data[n - 4..] == file[at + n - 4..at + n];
        RecsCount(data[..n - 4], Field(data[..n - 4], 0).value.1, Field(data[..n - 4], 0).value.0);
      }
    }
  }

  lemma MagicIs(b: Data)
    requires |b| == 4
    ensures FromLE(b) == MAGIC <==> b == LE(0x53535442, 4)
  {
    LEInverse(b);
    LE32(MAGIC);
  }

  lemma {:induction false} RecsCount(body: Data, off: nat, n: nat)
    ensures DecodeRecs(body, off, n).Some? ==> |DecodeRecs(body, off, n).value| == n
    decreases n
  {
    hide DecodeRec;
    if n != 0 && DecodeRec(body, off).Some? {
      RecsCount(body, DecodeRec(body, off).value.1, n - 1);
    }
  }

  // ---------- the loops ----------

  method ReadRecs(body: Data, from: nat, n: nat) returns (index: Option<seq<IndexRec>>)
    requires from <= |body|
    ensures index == DecodeRecs(body, from, n)
  {
    hide DecodeRec;
    var off: nat := from;
    var recs: seq<IndexRec> := [];
    var i: nat := 0;
    AfterNone(DecodeRecs(body, from, n));
    while i < n
      invariant i <= n && off <= |body|
      invariant DecodeRecs(body, from, n) == After(recs, DecodeRecs(body, off, n - i))
    {
      var rec := ReadRec(body, off);
      if rec.None? {
        return None;
      }
      AfterStep(recs, rec.value.0, DecodeRecs(body, rec.value.1, n - i - 1));
      recs := recs + [rec.value.0];
      off := rec.value.1;
      i := i + 1;
    }
    assert recs + [] == recs;
    return Some(recs);
  }

  method ReadRec(body: Data, off: nat) returns (r: Option<(IndexRec, nat)>)
    requires off <= |body|
    ensures r == DecodeRec(body, off)
  {
    var klen := ReadField(body, off);
    if klen.None? || klen.value.1 + klen.value.0 > |body| {
      return None;
    }
    var start := klen.value.1;
    var mid := start + klen.value.0;
    var boff := ReadField(body, mid);
    if boff.None? {
      return None;
    }
    var blen := ReadField(body, boff.value.1);
    if blen.None? {
      return None;
    }
    return Some((IndexRec(body[start..mid], boff.value.0, blen.value.0), blen.value.1));
  }

  method OpenTable(file: Data, crc: Data -> U32) returns (r: Opened)
    ensures r == OpenFile(file, crc)
  {
    if |file| < FOOTER {
      return Refused(Corrupt);
    }
    var foot := ParseFooter(file[|file| - FOOTER..]);
    if foot.None? {
      return Refused(BadMagic);
    }
    var f := foot.value;
    var bloomData: Option<Data> := Some([]);
    if f.bloomLen > 0 {
      bloomData := ReadAt(file, f.bloomOff, f.bloomLen);
    }
    if bloomData.None? {
      return Refused(ReadFailed);
    }
    var bloom := Bloom.Unmarshal(bloomData.value);
    if bloom.None? {
      return Refused(Corrupt);
    }
    var indexData := ReadAt(file, f.indexOff, f.indexLen);
    if indexData.None? {
      return Refused(ReadFailed);
    }
    var data := indexData.value;
    if |data| < 4 {
      return Refused(Corrupt);
    }
    var body := data[..|data| - 4];
    if crc(body) != FromLE(data[|data| - 4..]) {
      return Refused(Corrupt);
    }
    var n := ReadField(body, 0);
    if n.None? {
      return Refused(Corrupt);
    }
    var index := ReadRecs(body, n.value.1, n.value.0);
    if index.None? {
      return Refused(Corrupt);
    }
    return Open(Reader(Some(file), index.value, bloom.value, f.maxSeq, f.entries));
  }

  // ---------- opening what was written ----------

  /** The reader of a written table. */
  function ReaderOf(es: seq<Entry>, o: Options, env: Env): Reader
    requires o.restarts > 0
  {
    BlocksKeep(es, o);
    Reader(Some(TableBytes(es, o, env)), Index(Blocks(es, o), o, env.crc), FilterTo(Keys(es), |es|, env.hashing),
           MaxSeqno(es), |es|)
  }

  lemma RecAt(body: Data, off: nat, rec: IndexRec, rest: Data)
    requires off <= |body| && body[off..] == EncodeRec(rec) + rest
    requires |rec.lastKey| < TWO_64 && rec.offset < TWO_64 && rec.length < TWO_64
    ensures DecodeRec(body, off) == Some((rec, off + |EncodeRec(rec)|))
    ensures body[off + |EncodeRec(rec)|..] == rest
  {
    hide Encode, Field;
    var y2 := Encode(rec.offset) + Encode(rec.length);
    var start := FieldAt(body, off, |rec.lastKey|, rec.lastKey + y2, rest);
    Peel(body, start, rec.lastKey, y2, rest);
    var mid := start + |rec.lastKey|;
    var boff := FieldAt(body, mid, rec.offset, Encode(rec.length), rest);
    assert Encode(rec.length) + rest == (Encode(rec.length) + []) + rest;
    var blen := FieldAt(body, boff, rec.length, [], rest);
  }

  lemma {:induction false} RecsAt(body: Data, off: nat, recs: seq<IndexRec>)
    requires off <= |body| && body[off..] == EncodeRecs(recs)
    requires forall i :: 0 <= i < |recs| ==>
      |recs[i].lastKey| < TWO_64 && recs[i].offset < TWO_64 && recs[i].length < TWO_64
    ensures DecodeRecs(body, off, |recs|) == Some(recs)
    decreases |recs|
  {
    hide EncodeRec, DecodeRec;
    if recs != [] {
      RecAt(body, off, recs[0], EncodeRecs(recs[1..]));
      RecsAt(body, off + |EncodeRec(recs[0])|, recs[1..]);
      assert recs == [recs[0]] + recs[1..];
    }
  }

  lemma IndexRoundTrip(recs: seq<IndexRec>, crc: Data -> U32)
    requires |recs| < TWO_64
    requires forall i :: 0 <= i < |recs| ==>
      |recs[i].lastKey| < TWO_64 && recs[i].offset < TWO_64 && recs[i].length < TWO_64
    ensures ParseIndex(Checked(EncodeIndex(recs), crc), crc) == Some(recs)
  {
    hide EncodeRecs, Encode, Field, DecodeRecs;
    var body := EncodeIndex(recs);
    LE32(crc(body));
    TrailerAt(body, LE(crc(body), 4));
    assert body[0..] == (Encode(|recs|) + EncodeRecs(recs)) + [];
    var off := FieldAt(body, 0, |recs|, EncodeRecs(recs), []);
    RecsAt(body, off, recs);
  }

  lemma FooterRoundTrip(f: Foot)
    requires f.indexOff < TWO_64 && f.indexLen < TWO_64 && f.bloomOff < TWO_64
    requires f.bloomLen < TWO_64 && f.maxSeq < TWO_64 && f.entries < TWO_64
    ensures ParseFooter(Footer(f.indexOff, f.indexLen, f.bloomOff, f.bloomLen, f.maxSeq, f.entries)) == Some(f)
  {
    LE32(MAGIC);
    LE64(f.indexOff);
    LE64(f.indexLen);
    LE64(f.bloomOff);
    LE64(f.bloomLen);
    LE64(f.maxSeq);
    LE64(f.entries);
    FooterFields(LE(MAGIC, 4), LE(f.indexOff, 8), LE(f.indexLen, 8), LE(f.bloomOff, 8), LE(f.bloomLen, 8),
                 LE(f.maxSeq, 8), LE(f.entries, 8), LE(MAGIC, 4));
  }

  lemma FooterFields(m: Data, a: Data, b: Data, c: Data, d: Data, e: Data, g: Data, n: Data)
    requires |m| == |n| == 4 && |a| == |b| == |c| == |d| == |e| == |g| == 8
    ensures var f := m + (a + (b + (c + (d + (e + (g + n))))));
            && f[0..4] == m && f[4..12] == a && f[12..20] == b && f[20..28] == c && f[28..36] == d
            && f[36..44] == e && f[44..52] == g && f[52..56] == n
  {
    var f := m + (a + (b + (c + (d + (e + (g + n))))));
    assert f[0..] == f + [];
    Peel(f, 0, m, a + (b + (c + (d + (e + (g + n))))), []);
    Peel(f, 4, a, b + (c + (d + (e + (g + n)))), []);
    Peel(f, 12, b, c + (d + (e + (g + n))), []);
    Peel(f, 20, c, d + (e + (g + n)), []);
    Peel(f, 28, d, e + (g + n), []);
    Peel(f, 36, e, g + n, []);
    Peel(f, 44, g, n, []);
    assert n + [] == (n + []) + [];
    Peel(f, 52, n, [], []);
  }

  lemma AssembledParts(data: Data, bloom: Data, index: Data, foot: Data, file: Data)
    requires |foot| == FOOTER && file == data + (bloom + (index + foot)) && |file| < TWO_63
    ensures |file| >= FOOTER && file[|file| - FOOTER..] == foot
    ensures ReadAt(file, |data|, |bloom|) == Some(bloom)
    ensures ReadAt(file, |data| + |bloom|, |index|) == Some(index)
  {
    assert file[0..] == (data + (bloom + (index + foot))) + [];
    Peel(file, 0, data, bloom + (index + foot), []);
    Peel(file, |data|, bloom, index + foot, []);
    Peel(file, |data| + |bloom|, index, foot, []);
    assert foot + [] == foot;
  }

  lemma OpenAssembled(data: Data, bloom: Bloom.Image, recs: seq<IndexRec>, maxSeq: nat, entries: nat, crc: Data -> U32)
    requires var file := Assemble(data, Bloom.Marshal(bloom), Checked(EncodeIndex(recs), crc), maxSeq, entries);
             |file| < TWO_63
    requires bloom.Valid() && maxSeq < TWO_64 && entries < TWO_64 && |recs| < TWO_64
    requires forall i :: 0 <= i < |recs| ==>
      |recs[i].lastKey| < TWO_64 && recs[i].offset < TWO_64 && recs[i].length < TWO_64
    ensures var file := Assemble(data, Bloom.Marshal(bloom), Checked(EncodeIndex(recs), crc), maxSeq, entries);
            OpenFile(file, crc) == Open(Reader(Some(file), recs, bloom, maxSeq, entries))
  {
    hide Bloom.Marshal, Bloom.Unmarshal, Checked, EncodeIndex, ParseIndex, ParseFooter, Footer, ReadAt;
    var bdata, idata := Bloom.Marshal(bloom), Checked(EncodeIndex(recs), crc);
    var f := Foot(|data| + |bdata|, |idata|, |data|, |bdata|, maxSeq, entries);
    var foot := Footer(f.indexOff, f.indexLen, f.bloomOff, f.bloomLen, f.maxSeq, f.entries);
    AssembledParts(data, bdata, idata, foot, Assemble(data, bdata, idata, maxSeq, entries));
    FooterRoundTrip(f);
    Bloom.MarshalRoundTrip(bloom, []);
    assert bdata + [] == bdata;
    IndexRoundTrip(recs, crc);
  }

  lemma {:induction false} MaxSeqnoWidth(es: seq<Entry>)
    requires Widths64(es)
    ensures MaxSeqno(es) < TWO_64
  {
    if es != [] {
      MaxSeqnoWidth(es[1..]);
    }
  }

  /** Opening a written file gives back its index, its filter and its counts. */
  lemma OpenWritten(es: seq<Entry>, o: Options, env: Env)
    requires Representable(es, o, env)
    ensures OpenFile(TableBytes(es, o, env), env.crc) == Open(ReaderOf(es, o, env))
  {
    hide Assemble, Bloom.Marshal, Checked, EncodeIndex, Blocks, Index, FilterTo, BytesTo, OpenFile;
    var bs := Blocks(es, o);
    BlocksKeep(es, o);
    MaxSeqnoWidth(es);
    var recs := Index(bs, o, env.crc);
    var data, bloom := BytesTo(bs, |bs|, o, env.crc), FilterTo(Keys(es), |es|, env.hashing);
    AssembledSize(data, Bloom.Marshal(bloom), Checked(EncodeIndex(recs), env.crc), MaxSeqno(es), |es|);
    IndexWidths(es, bs, o, env.crc);
    OpenAssembled(data, bloom, recs, MaxSeqno(es), |es|, env.crc);
  }

  lemma AssembledSize(data: Data, bloom: Data, index: Data, maxSeq: nat, entries: nat)
    ensures |Assemble(data, bloom, index, maxSeq, entries)| == |data| + |bloom| + |index| + FOOTER
  {
  }

  lemma IndexWidths(es: seq<Entry>, bs: seq<seq<Entry>>, o: Options, crc: Data -> U32)
    requires o.restarts > 0 && Widths64(es) && |es| < TWO_64
    requires FlattenTo(bs, |bs|) == es && forall i :: 0 <= i < |bs| ==> bs[i] != []
    requires |BytesTo(bs, |bs|, o, crc)| < TWO_64
    ensures |bs| <= |es|
    ensures forall i :: 0 <= i < |bs| ==>
      var rec := Index(bs, o, crc)[i];
      |rec.lastKey| < TWO_64 && rec.offset < TWO_64 && rec.length < TWO_64
  {
    hide BlockBytes, BytesTo;
    FlattenLonger(bs, |bs|);
    forall i | 0 <= i < |bs|
      ensures var rec := Index(bs, o, crc)[i];
              |rec.lastKey| < TWO_64 && rec.offset < TWO_64 && rec.length < TWO_64
    {
      BlockAtOffset(bs, i, |bs|, o, crc);
      BlockSlice(bs, i, |bs|);
      var a := |FlattenTo(bs, i)|;
      assert bs[i][|bs[i]| - 1] == es[a..a + |bs[i]|][|bs[i]| - 1] == es[a + |bs[i]| - 1];
    }
  }

  lemma {:induction false} FlattenLonger(bs: seq<seq<Entry>>, n: nat)
    requires n <= |bs| && forall i :: 0 <= i < |bs| ==> bs[i] != []
    ensures n <= |FlattenTo(bs, n)|
  {
    if n != 0 {
      FlattenLonger(bs, n - 1);
    }
  }

  // ---------- lookup ----------

  /** readBlock: the bytes an index record points at, without their checksum, if it agrees. */
  function BlockAt(file: Option<Data>, rec: IndexRec, crc: Data -> U32): Option<Data> {
    var buf := if file.None? then None else ReadAt(file.value, rec.offset, rec.length);
    if buf.None? || |buf.value| < 8 then None
    else
      var body := buf.value[..|buf.value| - 4];
      if crc(body) != FromLE(buf.value[|buf.value| - 4..]) then None else Some(body)
  }

  /**
   In any file a block is accepted exactly when all its bytes are there and the last four
   are the checksum of the others, of which there are at least four.
   */
  lemma BlockSound(file: Data, rec: IndexRec, crc: Data -> U32, body: Data)
    ensures BlockAt(Some(file), rec, crc) == Some(body) <==>
            && rec.length == |body| + 4 >= 8 && rec.offset + rec.length <= |file|
            && file[rec.offset..rec.offset + rec.length] == body + LE(crc(body), 4)
  {
    hide LE, FromLE;
    if rec.length >= 8 && rec.offset + rec.length <= |file| {
      var buf := file[rec.offset..rec.offset + rec.length];
      var n := |buf| - 4;
      LEInverse(buf[n..]);
      LE32(crc(body));
      assert buf == buf[..n] + buf[n..];
      if buf == body + LE(crc(body), 4) {
        TrailerAt(body, LE(crc(body), 4));
      }
    }
  }

  /** Reading block `i` of a written table gives the block the writer flushed. */
  lemma BlockWritten(es: seq<Entry>, o: Options, env: Env, i: nat)
    requires Representable(es, o, env) && i < |Blocks(es, o)|
    ensures var r := ReaderOf(es, o, env);
            i < |r.index| && BlockAt(r.file, r.index[i], env.crc) == Some(Body(Blocks(es, o)[i], o.restarts))
  {
    hide Blocks, BytesTo, Body, BlockAt, Bloom.Marshal, EncodeIndex, Footer, Index;
    var bs := Blocks(es, o);
    BlocksKeep(es, o);
    var data, x := BytesTo(bs, |bs|, o, env.crc), BlockBytes(bs[i], o, env.crc);
    var off := |BytesTo(bs, i, o, env.crc)|;
    BlockAtOffset(bs, i, |bs|, o, env.crc);
    var rest := Bloom.Marshal(FilterTo(Keys(es), |es|, env.hashing))
                + (Checked(EncodeIndex(Index(bs, o, env.crc)), env.crc)
                   + Footer(|data| + |Bloom.Marshal(FilterTo(Keys(es), |es|, env.hashing))|,
                            |Checked(EncodeIndex(Index(bs, o, env.crc)), env.crc)|, |data|,
                            |Bloom.Marshal(FilterTo(Keys(es), |es|, env.hashing))|, MaxSeqno(es), |es|));
    assert TableBytes(es, o, env) == data + rest;
    BlockInFile(data, rest, off, bs[i], o, env.crc);
  }

  lemma BlockInFile(data: Data, rest: Data, off: nat, b: seq<Entry>, o: Options, crc: Data -> U32)
    requires o.restarts > 0 && b != []
    requires off + |BlockBytes(b, o, crc)| <= |data|
      && data[off..off + |BlockBytes(b, o, crc)|] == BlockBytes(b, o, crc)
    ensures BlockAt(Some(data + rest), IndexOf(b, off, o, crc), crc) == Some(Body(b, o.restarts))
  {
    hide DataTo, EncodeOffsets, OffsetsTo, LE;
    var body := Body(b, o.restarts);
    var sum := LE(crc(body), 4);
    SliceOfFirst(data, rest, off, off + |BlockBytes(b, o, crc)|);
    LE32(crc(body));
    TrailerAt(body, sum);
    assert |body| >= 4;
  }

  method ReadBlock(file: Option<Data>, rec: IndexRec, crc: Data -> U32) returns (b: Option<Data>)
    ensures b == BlockAt(file, rec, crc)
  {
    if file.None? {
      return None;
    }
    var buf := ReadAt(file.value, rec.offset, rec.length);
    if buf.None? || |buf.value| < 8 {
      return None;
    }
    var body := buf.value[..|buf.value| - 4];
    if crc(body) != FromLE(buf.value[|buf.value| - 4..]) {
      return None;
    }
    return Some(body);
  }

  /** Close: the reader keeps its index and filter, but no block can be read any more. */
  method CloseReader(r: Reader) returns (c: Reader)
    ensures c == r.(file := None)
    ensures forall rec, crc :: BlockAt(c.file, rec, crc) == None
  {
    if r.file.None? {
      return r;
    }
    c := r.(file := None);
  }

  /** sort.Search over the block index: the first record whose last key is at least `key`. */
  method SearchIndex(index: seq<IndexRec>, key: Data) returns (i: nat)
    ensures i <= |index|
    ensures i > 0 ==> Less(index[i - 1].lastKey, key)
    ensures i < |index| ==> !Less(index[i].lastKey, key)
  {
    i := 0;
    var j: nat := |index|;
    while i < j
      invariant i <= j <= |index|
      invariant i > 0 ==> Less(index[i - 1].lastKey, key)
      invariant j < |index| ==> !Less(index[j].lastKey, key)
    {
      var h := (i + j) / 2;
      if Less(index[h].lastKey, key) {
        i := h + 1;
      } else {
        j := h;
      }
    }
  }

  /** A block that starts below `key` and reaches it holds the answer for the whole list. */
  lemma BoundInBlock(es: seq<Entry>, a: nat, c: nat, key: Data)
    requires Sorted(es) && a < c <= |es|
    requires a > 0 ==> Less(es[a - 1].key, key)
    requires !Less(es[c - 1].key, key)
    ensures var b := es[a..c];
            && Sorted(b) && LowerBound(b, key) < |b|
            && LowerBound(es, key) == a + LowerBound(b, key) && Find(es, key) == Find(b, key)
  {
    if a > 0 {
      BelowLowerBound(es, key, a - 1);
    }
    assert LowerBound(es, key) < c;
    LowerBoundSlice(es, a, c, key);
    FindByPosition(es, key);
    FindByPosition(es[a..c], key);
  }

  /** The last entry of block `i`, in the block and in the whole list. */
  lemma LastOf(bs: seq<seq<Entry>>, i: nat)
    requires i < |bs| && bs[i] != []
    ensures var c, es := |FlattenTo(bs, i + 1)|, FlattenTo(bs, |bs|);
            && c == |FlattenTo(bs, i)| + |bs[i]| && 0 < c <= |es|
            && es[c - 1] == bs[i][|bs[i]| - 1]
  {
    BlockSlice(bs, i, |bs|);
    var a, c, es := |FlattenTo(bs, i)|, |FlattenTo(bs, i + 1)|, FlattenTo(bs, |bs|);
    assert es[c - 1] == es[a..c][c - 1 - a];
  }

  /** The block the index search picks is the only one that can hold the key. */
  lemma PickedBlock(es: seq<Entry>, bs: seq<seq<Entry>>, key: Data, i: nat)
    requires Sorted(es) && FlattenTo(bs, |bs|) == es && i <= |bs|
    requires forall j :: 0 <= j < |bs| ==> bs[j] != []
    requires i > 0 ==> Less(bs[i - 1][|bs[i - 1]| - 1].key, key)
    requires i < |bs| ==> !Less(bs[i][|bs[i]| - 1].key, key)
    ensures Find(es, key) == if i < |bs| then Find(bs[i], key) else None
    ensures i < |bs| ==> Sorted(bs[i])
  {
    hide Find, LowerBound;
    if i > 0 {
      LastOf(bs, i - 1);
    }
    if i < |bs| {
      BlockSlice(bs, i, |bs|);
      LastOf(bs, i);
      BoundInBlock(es, |FlattenTo(bs, i)|, |FlattenTo(bs, i)| + |bs[i]|, key);
    } else {
      FindByPosition(es, key);
      if es != [] {
        BelowLowerBound(es, key, |es| - 1);
      }
    }
  }

  /** Outcome of a lookup in one table. */
  datatype Lookup = Found(entry: Entry) | Missing | Broken

  /**
   Reader.Get on a written table: filter, index search, block search. `es` is the list the
   table was written from.
   */
  method Get(r: Reader, key: Data, env: Env, ghost es: seq<Entry>, ghost o: Options) returns (l: Lookup)
    requires Representable(es, o, env) && Sorted(es) && r == ReaderOf(es, o, env)
    ensures l == match Find(es, key) case Some(e) => Found(e) case None => Missing
  {
    hide Index, FlattenTo, Body, BlockAt, Parse, DataTo, OffsetsTo, TableBytes, FilterTo;
    ghost var bs := Blocks(es, o);
    BlocksKeep(es, o);
    var may := Bloom.Probes(r.bloom, env.hashing.pair(key));
    if !may {
      FilteredOut(es, key, env.hashing);
      return Missing;
    }
    var i := SearchIndex(r.index, key);
    PickedBlock(es, bs, key, i);
    if i >= |r.index| {
      return Missing;
    }
    BlockWritten(es, o, env, i);
    ParseBody(bs[i], o.restarts);
    var block := ReadBlock(r.file, r.index[i], env.crc);
    if block.None? {
      return Broken;
    }
    var p := ParseRestarts(block.value);
    if p.None? {
      return Broken;
    }
    var it := new BlockIter(bs[i], o.restarts, p.value.0, p.value.1);
    it.Seek(key);
    FindByPosition(bs[i], key);
    if it.valid && it.key == key {
      return Found(Entry(it.key, it.value, it.seqno, it.deleted));
    }
    return Missing;
  }

  /** A key the filter rejects was never written. */
  lemma FilteredOut(es: seq<Entry>, key: Data, hashing: Bloom.Hashing)
    requires !Bloom.MayContain(FilterTo(Keys(es), |es|, hashing), hashing.pair(key))
    ensures Find(es, key) == None
  {
    if Find(es, key).Some? {
      var i :| 0 <= i < |es| && es[i] == Find(es, key).value;
      FilterAdmits(Keys(es), |es|, i, hashing);
    }
  }
}
