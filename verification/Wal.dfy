/**
 The write-ahead log as bytes (`internal/wal`): checksummed frames, the payloads of puts,
 deletes and batches, and the recovery of the valid prefix of a damaged file.

 The checksum is an arbitrary function.
 */
module Wal {
  import opened Bytes
  import opened Entries
  import opened Varint

  const TYPE_PUT: Byte := 1
  const TYPE_DELETE: Byte := 2
  const TYPE_BATCH: Byte := 3
  const HEADER: nat := 9
  const MAX_PAYLOAD: nat := 0x1000_0000

  // ---------- frames ----------

  datatype RawFrame = RawFrame(typ: Byte, payload: Data)

  /** Length, type, checksum over type and payload, payload. */
  function FrameBytes(f: RawFrame, crc: Data -> U32): (b: Data)
    ensures |b| == HEADER + |f.payload|
  {
    LE(|f.payload|, 4) + ([f.typ] + (LE(crc([f.typ] + f.payload), 4) + f.payload))
  }

  /** The first `n` frames of a log, as bytes. */
  function LogTo(fs: seq<RawFrame>, n: nat, crc: Data -> U32): Data
    requires n <= |fs|
  {
    if n == 0 then [] else LogTo(fs, n - 1, crc) + FrameBytes(fs[n - 1], crc)
  }

  function LogBytes(fs: seq<RawFrame>, crc: Data -> U32): Data {
    LogTo(fs, |fs|, crc)
  }

  predicate KnownType(typ: Byte) {
    typ == TYPE_PUT || typ == TYPE_DELETE || typ == TYPE_BATCH
  }

  /** What the appenders write: a known type and a payload within the limit. */
  predicate Writable(f: RawFrame) {
    KnownType(f.typ) && |f.payload| <= MAX_PAYLOAD
  }

  lemma {:induction false} LogPrefix(fs: seq<RawFrame>, gs: seq<RawFrame>, n: nat, crc: Data -> U32)
    requires n <= |fs| && n <= |gs| && forall i :: 0 <= i < n ==> fs[i] == gs[i]
    ensures LogTo(fs, n, crc) == LogTo(gs, n, crc)
  {
    if n != 0 {
      LogPrefix(fs, gs, n - 1, crc);
    }
  }

  lemma LogAppend(fs: seq<RawFrame>, f: RawFrame, crc: Data -> U32)
    ensures LogBytes(fs + [f], crc) == LogBytes(fs, crc) + FrameBytes(f, crc)
  {
    LogPrefix(fs + [f], fs, |fs|, crc);
  }

  lemma {:induction false} LogGrows(fs: seq<RawFrame>, m: nat, n: nat, crc: Data -> U32)
    requires m <= n <= |fs|
    ensures |LogTo(fs, m, crc)| + HEADER * (n - m) <= |LogTo(fs, n, crc)|
    ensures LogTo(fs, n, crc)[..|LogTo(fs, m, crc)|] == LogTo(fs, m, crc)
  {
    hide FrameBytes;
    if m < n {
      LogGrows(fs, m, n - 1, crc);
      PrefixOfFirst(LogTo(fs, n - 1, crc), FrameBytes(fs[n - 1], crc), |LogTo(fs, m, crc)|);
    }
  }

  lemma PrefixOfFirst(a: Data, b: Data, m: nat)
    requires m <= |a|
    ensures (a + b)[..m] == a[..m]
  {
  }

  // ---------- reading frames back ----------

  /** The frame at `off`, if its header and payload are all there and the checksum agrees. */
  function FrameAt(file: Data, off: nat, crc: Data -> U32): (f: Option<RawFrame>)
    ensures f.Some? ==> off + HEADER + |f.value.payload| <= |file|
  {
    if off + HEADER > |file| then None
    else
      var plen := FromLE(file[off..off + 4]);
      var end := off + HEADER + plen;
      if end > |file| then None
      else
        var typ, payload := file[off + 4], file[off + HEADER..end];
        if crc([typ] + payload) != FromLE(file[off + 5..off + HEADER]) then None
        else Some(RawFrame(typ, payload))
  }

  /** The frames scanValidPrefix accepts from `off` on. */
  function Scan(file: Data, off: nat, crc: Data -> U32): (fs: seq<RawFrame>)
    decreases if off <= |file| then |file| - off else 0
  {
    var f := FrameAt(file, off, crc);
    if f.None? || !KnownType(f.value.typ) then []
    else [f.value] + Scan(file, off + HEADER + |f.value.payload|, crc)
  }

  /** Where it stops. */
  function ScanEnd(file: Data, off: nat, crc: Data -> U32): (end: nat)
    requires off <= |file|
    ensures off <= end <= |file|
    decreases |file| - off
  {
    var f := FrameAt(file, off, crc);
    if f.None? || !KnownType(f.value.typ) then off
    else ScanEnd(file, off + HEADER + |f.value.payload|, crc)
  }

  /** An encoded frame that is wholly in the file is read back. */
  lemma FrameRoundTrip(file: Data, off: nat, f: RawFrame, rest: Data, crc: Data -> U32)
    requires |f.payload| < TWO_32 && off <= |file| && file[off..] == FrameBytes(f, crc) + rest
    ensures FrameAt(file, off, crc) == Some(f)
    ensures file[off + HEADER + |f.payload|..] == rest
  {
    LE32(|f.payload|);
    LE32(crc([f.typ] + f.payload));
    FrameFields(file, off, LE(|f.payload|, 4), f.typ, LE(crc([f.typ] + f.payload), 4), f.payload, rest);
  }

  lemma FrameFields(file: Data, off: nat, plen: Data, typ: Byte, sum: Data, payload: Data, rest: Data)
    requires off <= |file| && |plen| == |sum| == 4
    requires file[off..] == (plen + ([typ] + (sum + payload))) + rest
    ensures off + HEADER + |payload| <= |file| && file[off..off + 4] == plen && file[off + 4] == typ
    ensures file[off + 5..off + HEADER] == sum && file[off + HEADER..off + HEADER + |payload|] == payload
    ensures file[off + HEADER + |payload|..] == rest
  {
    Peel(file, off, plen, [typ] + (sum + payload), rest);
    Peel(file, off + 4, [typ], sum + payload, rest);
    Peel(file, off + 5, sum, payload, rest);
    assert payload + rest == (payload + []) + rest;
    Peel(file, off + HEADER, payload, [], rest);
    assert file[off + 4] == file[off + 4..off + 5][0];
  }

  /** A frame cut short is not accepted, whatever the checksum function. */
  lemma TornFrame(file: Data, off: nat, f: RawFrame, crc: Data -> U32)
    requires Writable(f) && off <= |file|
    requires |file| - off < HEADER + |f.payload| && file[off..] == FrameBytes(f, crc)[..|file| - off]
    ensures FrameAt(file, off, crc) == None
  {
    if off + HEADER <= |file| {
      LE32(|f.payload|);
      TornLength(file, off, LE(|f.payload|, 4), [f.typ] + (LE(crc([f.typ] + f.payload), 4) + f.payload));
    }
  }

  lemma TornLength(file: Data, off: nat, plen: Data, tail: Data)
    requires |plen| == 4 && off + 4 <= |file| && |file| - off <= |plen + tail|
    requires file[off..] == (plen + tail)[..|file| - off]
    ensures file[off..off + 4] == plen
  {
    assert file[off..off + 4] == file[off..][..4];
  }

  // ---------- recovery of arbitrary bytes ----------

  /** The accepted prefix is exactly the encoding of the accepted frames, in any file. */
  lemma {:induction false} ScanSound(file: Data, off: nat, crc: Data -> U32)
    requires off <= |file|
    ensures var fs := Scan(file, off, crc);
            && file[off..ScanEnd(file, off, crc)] == LogBytes(fs, crc)
            && forall i :: 0 <= i < |fs| ==> 1 <= fs[i].typ <= 3
    decreases |file| - off
  {
    hide FrameBytes;
    var f := FrameAt(file, off, crc);
    if f.Some? && KnownType(f.value.typ) {
      var next := off + HEADER + |f.value.payload|;
      ScanSound(file, next, crc);
      FrameIsEncoding(file, off, f.value, crc);
      LogCons(f.value, Scan(file, next, crc), crc);
      assert file[off..ScanEnd(file, off, crc)] == file[off..next] + file[next..ScanEnd(file, next, crc)];
    }
  }

  lemma FrameIsEncoding(file: Data, off: nat, f: RawFrame, crc: Data -> U32)
    requires FrameAt(file, off, crc) == Some(f)
    ensures file[off..off + HEADER + |f.payload|] == FrameBytes(f, crc)
  {
    LEInverse(file[off..off + 4]);
    LEInverse(file[off + 5..off + HEADER]);
    HeaderSplit(file, off, off + HEADER + |f.payload|);
  }

  lemma HeaderSplit(file: Data, off: nat, end: nat)
    requires off + HEADER <= end <= |file|
    ensures file[off..end] == file[off..off + 4]
      + ([file[off + 4]] + (file[off + 5..off + HEADER] + file[off + HEADER..end]))
  {
  }

  lemma {:induction false} LogCons(f: RawFrame, fs: seq<RawFrame>, crc: Data -> U32)
    ensures LogBytes([f] + fs, crc) == FrameBytes(f, crc) + LogBytes(fs, crc)
    decreases |fs|
  {
    hide FrameBytes;
    if fs == [] {
      assert LogTo([f], 1, crc) == LogTo([f], 0, crc) + FrameBytes(f, crc);
      assert [f] + fs == [f];
    } else {
      var n := |fs| - 1;
      LogCons(f, fs[..n], crc);
      LogAppend([f] + fs[..n], fs[n], crc);
      LogAppend(fs[..n], fs[n], crc);
      assert [f] + fs == ([f] + fs[..n]) + [fs[n]] && fs == fs[..n] + [fs[n]];
    }
  }

  /** It ends where no frame of the three types follows, whatever its payload. */
  lemma {:induction false} ScanStops(file: Data, off: nat, crc: Data -> U32, typ: Byte, payload: Data, rest: Data)
    requires off <= |file| && 1 <= typ <= 3 && |payload| < TWO_32
    ensures file[ScanEnd(file, off, crc)..] != FrameBytes(RawFrame(typ, payload), crc) + rest
    decreases |file| - off
  {
    hide FrameBytes, FrameAt;
    var f := FrameAt(file, off, crc);
    if f.Some? && KnownType(f.value.typ) {
      ScanStops(file, off + HEADER + |f.value.payload|, crc, typ, payload, rest);
    } else if file[off..] == FrameBytes(RawFrame(typ, payload), crc) + rest {
      FrameRoundTrip(file, off, RawFrame(typ, payload), rest, crc);
      assert false;
    }
  }

  lemma FrameInPrefix(file: Data, m: nat, off: nat, f: RawFrame, crc: Data -> U32)
    requires FrameAt(file, off, crc) == Some(f) && off + HEADER + |f.payload| <= m <= |file|
    ensures FrameAt(file[..m], off, crc) == Some(f)
  {
    var g, end := file[..m], off + HEADER + |f.payload|;
    assert g[off..off + 4] == file[off..off + 4] && g[off + 5..off + HEADER] == file[off + 5..off + HEADER];
    assert g[off + HEADER..end] == file[off + HEADER..end];
  }

  /** Recovering a recovered file changes nothing, whatever was in it. */
  lemma {:induction false} ScanIdempotent(file: Data, off: nat, crc: Data -> U32)
    requires off <= |file|
    ensures var end := ScanEnd(file, off, crc);
            Scan(file[..end], off, crc) == Scan(file, off, crc) && ScanEnd(file[..end], off, crc) == end
    decreases |file| - off
  {
    hide FrameAt;
    var f, end := FrameAt(file, off, crc), ScanEnd(file, off, crc);
    if f.Some? && KnownType(f.value.typ) {
      ScanIdempotent(file, off + HEADER + |f.value.payload|, crc);
      FrameInPrefix(file, end, off, f.value, crc);
    } else {
      AtEnd(file[..end], off, crc);
    }
  }

  // ---------- recovery of a log cut at any byte ----------

  /** How many of the first `j` frames end within the first `n` bytes. */
  function Whole(fs: seq<RawFrame>, j: nat, n: nat, crc: Data -> U32): (k: nat)
    requires j <= |fs|
    ensures k <= j && |LogTo(fs, k, crc)| <= n
    ensures k < j ==> n < |LogTo(fs, k + 1, crc)|
  {
    if j == 0 || |LogTo(fs, j, crc)| <= n then j else Whole(fs, j - 1, n, crc)
  }

  /** A log cut at byte `n`, read from the start of frame `i`. */
  lemma CutFrame(fs: seq<RawFrame>, i: nat, n: nat, file: Data, crc: Data -> U32)
    requires i < |fs| && n <= |LogBytes(fs, crc)| && file == LogBytes(fs, crc)[..n]
    requires |LogTo(fs, i, crc)| <= n
    ensures var off := |LogTo(fs, i, crc)|;
            && |LogTo(fs, i + 1, crc)| == off + |FrameBytes(fs[i], crc)|
            && (off + |FrameBytes(fs[i], crc)| <= n ==>
                  file[off..] == FrameBytes(fs[i], crc) + file[off + |FrameBytes(fs[i], crc)|..])
            && (n < off + |FrameBytes(fs[i], crc)| ==> file[off..] == FrameBytes(fs[i], crc)[..n - off])
  {
    hide FrameBytes;
    LogGrows(fs, i, |fs|, crc);
    LogGrows(fs, i + 1, |fs|, crc);
    CutParts(LogBytes(fs, crc), LogTo(fs, i, crc), FrameBytes(fs[i], crc), n);
  }

  lemma CutParts(all: Data, a: Data, x: Data, n: nat)
    requires |a + x| <= |all| && all[..|a + x|] == a + x && |a| <= n <= |all|
    ensures |a| + |x| <= n ==> all[..n][|a|..] == x + all[..n][|a| + |x|..]
    ensures n < |a| + |x| ==> all[..n][|a|..] == x[..n - |a|]
  {
    assert all == a + x + all[|a + x|..];
  }

  /**
   Torn-tail recovery: a log cut at any byte is recovered up to the end of its last whole
   frame, with exactly those frames, whatever the checksum function.
   */
  lemma {:induction false} ScanTorn(fs: seq<RawFrame>, i: nat, n: nat, file: Data, crc: Data -> U32)
    requires forall j :: 0 <= j < |fs| ==> Writable(fs[j])
    requires n <= |LogBytes(fs, crc)| && file == LogBytes(fs, crc)[..n] && i <= Whole(fs, |fs|, n, crc)
    ensures |LogTo(fs, i, crc)| <= |file|
    ensures Scan(file, |LogTo(fs, i, crc)|, crc) == fs[i..Whole(fs, |fs|, n, crc)]
    ensures ScanEnd(file, |LogTo(fs, i, crc)|, crc) == |LogTo(fs, Whole(fs, |fs|, n, crc), crc)|
    decreases |fs| - i
  {
    hide FrameBytes, FrameAt, Whole, LogTo;
    var k := Whole(fs, |fs|, n, crc);
    LogGrows(fs, i, k, crc);
    var off := |LogTo(fs, i, crc)|;
    if i < k {
      LogGrows(fs, i + 1, k, crc);
      CutFrame(fs, i, n, file, crc);
      FrameRoundTrip(file, off, fs[i], file[off + HEADER + |fs[i].payload|..], crc);
      ScanTorn(fs, i + 1, n, file, crc);
      assert fs[i..k] == [fs[i]] + fs[i + 1..k];
    } else if k < |fs| {
      CutFrame(fs, i, n, file, crc);
      TornFrame(file, off, fs[i], crc);
    } else {
      AtEnd(file, off, crc);
    }
  }

  lemma AtEnd(file: Data, off: nat, crc: Data -> U32)
    requires off == |file|
    ensures FrameAt(file, off, crc) == None
  {
  }

  /** Frame `i` of an intact log. */
  lemma IntactFrame(fs: seq<RawFrame>, i: nat, crc: Data -> U32)
    requires i <= |fs| && (i < |fs| ==> Writable(fs[i]))
    ensures var off := |LogTo(fs, i, crc)|;
            && off <= |LogBytes(fs, crc)|
            && FrameAt(LogBytes(fs, crc), off, crc) == (if i < |fs| then Some(fs[i]) else None)
            && (i < |fs| ==> |LogTo(fs, i + 1, crc)| == off + HEADER + |fs[i].payload|)
  {
    hide FrameAt, FrameBytes;
    LogGrows(fs, i, |fs|, crc);
    var file, off := LogBytes(fs, crc), |LogTo(fs, i, crc)|;
    if i < |fs| {
      LogGrows(fs, i + 1, |fs|, crc);
      assert file == file[..|file|];
      CutFrame(fs, i, |file|, file, crc);
      FrameRoundTrip(file, off, fs[i], file[off + HEADER + |fs[i].payload|..], crc);
    } else {
      AtEnd(file, off, crc);
    }
  }

  // ---------- payloads ----------

  /** One logged write: a put, a delete, or a batch. */
  datatype Frame = Single(entry: Entry) | Batch(entries: seq<Entry>)

  function Records(f: Frame): seq<Entry> {
    match f
    case Single(e) => [e]
    case Batch(es) => es
  }

  function TypeOf(e: Entry): Byte {
    if e.deleted then TYPE_DELETE else TYPE_PUT
  }

  /** encodeKV. */
  function EncodeKV(e: Entry): Data {
    Encode(e.seqno) + (Encode(|e.key|) + (e.key + (Encode(|e.value|) + e.value)))
  }

  function EncodeItem(e: Entry): Data {
    Encode(e.seqno) + ([TypeOf(e)] + (Encode(|e.key|) + (e.key + (Encode(|e.value|) + e.value))))
  }

  function EncodeItems(es: seq<Entry>, n: nat): Data
    requires n <= |es|
  {
    if n == 0 then [] else EncodeItems(es, n - 1) + EncodeItem(es[n - 1])
  }

  function Raw(f: Frame): RawFrame {
    match f
    case Single(e) => RawFrame(TypeOf(e), EncodeKV(e))
    case Batch(es) => RawFrame(TYPE_BATCH, Encode(|es|) + EncodeItems(es, |es|))
  }

  /** Within the widths of the encoding and the payload limit of writeFrame. */
  ghost predicate Encodable(f: Frame) {
    && |Raw(f).payload| <= MAX_PAYLOAD
    && |Records(f)| < TWO_64
    && forall i :: 0 <= i < |Records(f)| ==>
         var e := Records(f)[i]; e.seqno < TWO_64 && |e.key| < TWO_64 && |e.value| < TWO_64
  }

  // ---------- decoding payloads, on any bytes ----------

  /** Length-prefixed bytes at `off`, and the offset after them. */
  function Chunk(b: Data, off: nat): (r: Option<(Data, nat)>)
    ensures r.Some? ==> off < r.value.1 <= |b|
  {
    var len := Field(b, off);
    if len.None? || len.value.1 + len.value.0 > |b| then None
    else Some((b[len.value.1..len.value.1 + len.value.0], len.value.1 + len.value.0))
  }

  function DecodePair(b: Data, off: nat, seqno: nat, typ: Byte): (r: Option<(Entry, nat)>)
    ensures r.Some? ==> off < r.value.1 <= |b|
  {
    var key := Chunk(b, off);
    if key.None? then None
    else
      var value := Chunk(b, key.value.1);
      if value.None? then None
      else Some((Entry(key.value.0, value.value.0, seqno, typ == TYPE_DELETE), value.value.1))
  }

  function DecodeOne(typ: Byte, b: Data): Option<Entry> {
    var seqno := Field(b, 0);
    if seqno.None? then None
    else
      var pair := DecodePair(b, seqno.value.1, seqno.value.0, typ);
      if pair.None? then None else Some(pair.value.0)
  }

  function DecodeItem(b: Data, off: nat): (r: Option<(Entry, nat)>)
    ensures r.Some? ==> off < r.value.1 <= |b|
  {
    var seqno := Field(b, off);
    if seqno.None? || seqno.value.1 >= |b| then None
    else DecodePair(b, seqno.value.1 + 1, seqno.value.0, b[seqno.value.1])
  }

  function DecodeItems(b: Data, off: nat, n: nat): Option<seq<Entry>>
    decreases n
  {
    if n == 0 then Some([])
    else
      var item := DecodeItem(b, off);
      if item.None? then None
      else After([item.value.0], DecodeItems(b, item.value.1, n - 1))
  }

  /** decodeFrame: the records of a frame, None when the payload does not hold them. */
  function DecodeFrame(f: RawFrame): Option<seq<Entry>> {
    if f.typ == TYPE_BATCH then
      var n := Field(f.payload, 0);
      if n.None? then None else DecodeItems(f.payload, n.value.1, n.value.0)
    else if KnownType(f.typ) then
      var e := DecodeOne(f.typ, f.payload);
      if e.None? then None else Some([e.value])
    else None
  }

  /**
   peekSeq: the largest sequence number in a payload, read without building the records.
   The source does not check that keys and values are there; where it would slice out of
   range this returns None.
   */
  function PeekItem(b: Data, off: nat): Option<(nat, nat)> {
    var seqno := Field(b, off);
    if seqno.None? || seqno.value.1 >= |b| then None
    else
      var klen := Field(b, seqno.value.1 + 1);
      if klen.None? then None
      else
        var vlen := Field(b, klen.value.1 + klen.value.0);
        if vlen.None? then None else Some((seqno.value.0, vlen.value.1 + vlen.value.0))
  }

  function PeekItems(b: Data, off: nat, n: nat, max: nat): Option<nat>
    decreases n
  {
    if n == 0 then Some(max)
    else
      var item := PeekItem(b, off);
      if item.None? then None else PeekItems(b, item.value.1, n - 1, Max(max, item.value.0))
  }

  function Peek(f: RawFrame): Option<nat> {
    if f.typ == TYPE_BATCH then
      var n := Field(f.payload, 0);
      if n.None? then None else PeekItems(f.payload, n.value.1, n.value.0, 0)
    else if KnownType(f.typ) then
      var seqno := Field(f.payload, 0);
      if seqno.None? then None else Some(seqno.value.0)
    else None
  }

  // ---------- the codec round trip ----------

  lemma ChunkAt(b: Data, off: nat, x: Data, y: Data, rest: Data) returns (next: nat)
    requires off <= |b| && |x| < TWO_64 && b[off..] == (Encode(|x|) + (x + y)) + rest
    ensures Chunk(b, off) == Some((x, next)) && next == off + |Encode(|x|)| + |x| <= |b| && b[next..] == y + rest
    ensures Field(b, off) == Some((|x|, next - |x|))
  {
    var start := FieldAt(b, off, |x|, x + y, rest);
    Peel(b, start, x, y, rest);
    next := start + |x|;
  }

  lemma PairAt(b: Data, off: nat, e: Entry, rest: Data)
    requires off <= |b| && |e.key| < TWO_64 && |e.value| < TWO_64
    requires b[off..] == (Encode(|e.key|) + (e.key + (Encode(|e.value|) + e.value))) + rest
    ensures var end := off + |Encode(|e.key|)| + |e.key| + |Encode(|e.value|)| + |e.value|;
            && DecodePair(b, off, e.seqno, TypeOf(e)) == Some((e, end))
            && end <= |b| && b[end..] == rest
            && Field(b, off) == Some((|e.key|, off + |Encode(|e.key|)|))
            && Field(b, off + |Encode(|e.key|)| + |e.key|) == Some((|e.value|, end - |e.value|))
  {
    hide Encode, Field;
    var mid := ChunkAt(b, off, e.key, Encode(|e.value|) + e.value, rest);
    assert Encode(|e.value|) + e.value == Encode(|e.value|) + (e.value + []);
    var end := ChunkAt(b, mid, e.value, [], rest);
    assert [] + rest == rest;
  }

  lemma ItemAt(b: Data, off: nat, e: Entry, rest: Data)
    requires off <= |b| && e.seqno < TWO_64 && |e.key| < TWO_64 && |e.value| < TWO_64
    requires b[off..] == EncodeItem(e) + rest
    ensures off + |EncodeItem(e)| <= |b| && b[off + |EncodeItem(e)|..] == rest
    ensures DecodeItem(b, off) == Some((e, off + |EncodeItem(e)|))
    ensures PeekItem(b, off) == Some((e.seqno, off + |EncodeItem(e)|))
  {
    hide Encode, Field, DecodePair;
    var y := Encode(|e.key|) + (e.key + (Encode(|e.value|) + e.value));
    var at := FieldAt(b, off, e.seqno, [TypeOf(e)] + y, rest);
    Peel(b, at, [TypeOf(e)], y, rest);
    assert b[at] == b[at..at + 1][0] == TypeOf(e);
    PairAt(b, at + 1, e, rest);
  }

  /** Decoding what an appender encoded gives the records back, and peeking their largest number. */
  lemma DecodeEncoded(f: Frame)
    requires Encodable(f)
    ensures DecodeFrame(Raw(f)) == Some(Records(f))
    ensures Peek(Raw(f)) == Some(MaxSeqno(Records(f)))
  {
    hide Encode, EncodeItems;
    match f
    case Single(e) =>
      assert e == Records(f)[0];
      OneAt(e, EncodeKV(e));
    case Batch(es) =>
      assert es == Records(f);
      BatchAt(es, Encode(|es|) + EncodeItems(es, |es|));
  }

  lemma OneAt(e: Entry, b: Data)
    requires e.seqno < TWO_64 && |e.key| < TWO_64 && |e.value| < TWO_64 && b == EncodeKV(e)
    ensures DecodeOne(TypeOf(e), b) == Some(e) && Field(b, 0).Some? && Field(b, 0).value.0 == e.seqno
  {
    hide Encode, Field, DecodePair;
    var y := Encode(|e.key|) + (e.key + (Encode(|e.value|) + e.value));
    assert b[0..] == (Encode(e.seqno) + y) + [];
    var at := FieldAt(b, 0, e.seqno, y, []);
    PairAt(b, at, e, []);
  }

  lemma BatchAt(es: seq<Entry>, b: Data)
    requires b == Encode(|es|) + EncodeItems(es, |es|) && |es| < TWO_64
    requires forall j :: 0 <= j < |es| ==> es[j].seqno < TWO_64 && |es[j].key| < TWO_64 && |es[j].value| < TWO_64
    ensures var n := Field(b, 0);
            && n.Some? && DecodeItems(b, n.value.1, n.value.0) == Some(es)
            && PeekItems(b, n.value.1, n.value.0, 0) == Some(MaxSeqno(es))
  {
    hide Encode, Field, EncodeItem, DecodeItem, PeekItem;
    assert b[0..] == (Encode(|es|) + EncodeItems(es, |es|)) + [];
    var at := FieldAt(b, 0, |es|, EncodeItems(es, |es|), []);
    assert EncodeItems(es, |es|) + [] == EncodeItems(es, |es|);
    ItemsAt(b, at, es, 0, 0);
    assert es[0..] == es;
  }

  lemma {:induction false} ItemsAt(b: Data, at: nat, es: seq<Entry>, i: nat, max: nat)
    requires i <= |es| && at <= |b| && b[at..] == EncodeItems(es, |es|)
    requires forall j :: 0 <= j < |es| ==> es[j].seqno < TWO_64 && |es[j].key| < TWO_64 && |es[j].value| < TWO_64
    ensures var off := at + |EncodeItems(es, i)|;
            && DecodeItems(b, off, |es| - i) == Some(es[i..])
            && PeekItems(b, off, |es| - i, max) == Some(Max(max, MaxSeqno(es[i..])))
    decreases |es| - i
  {
    hide EncodeItem, DecodeItem, EncodeItems, PeekItem;
    if i < |es| {
      ItemInPayload(b, at, es, i);
      ItemsAt(b, at, es, i + 1, Max(max, es[i].seqno));
      assert es[i..] == [es[i]] + es[i + 1..];
    }
  }

  lemma ItemInPayload(b: Data, at: nat, es: seq<Entry>, i: nat)
    requires i < |es| && at <= |b| && b[at..] == EncodeItems(es, |es|)
    requires es[i].seqno < TWO_64 && |es[i].key| < TWO_64 && |es[i].value| < TWO_64
    ensures var off := at + |EncodeItems(es, i)|;
            && DecodeItem(b, off) == Some((es[i], at + |EncodeItems(es, i + 1)|))
            && PeekItem(b, off) == Some((es[i].seqno, at + |EncodeItems(es, i + 1)|))
  {
    hide EncodeItem, DecodeItem, PeekItem;
    ItemsGrow(es, i + 1, |es|);
    var d, x := EncodeItems(es, i), EncodeItem(es[i]);
    var tail := EncodeItems(es, |es|)[|d + x|..];
    Suffix(b, at, d, x, EncodeItems(es, |es|));
    ItemAt(b, at + |d|, es[i], tail);
  }

  lemma Suffix(b: Data, at: nat, d: Data, x: Data, all: Data)
    requires at <= |b| && b[at..] == all && |d + x| <= |all| && all[..|d + x|] == d + x
    ensures b[at + |d|..] == x + all[|d + x|..]
  {
    assert all == d + x + all[|d + x|..];
    assert b[at + |d|..] == b[at..][|d|..];
  }

  /** Of any payload that decodes, peeking finds the largest number. */
  lemma PeekAgrees(f: RawFrame)
    requires DecodeFrame(f).Some?
    ensures Peek(f) == Some(MaxSeqno(DecodeFrame(f).value))
  {
    hide Field, DecodeItems, PeekItems;
    if f.typ == TYPE_BATCH {
      var n := Field(f.payload, 0).value;
      PeekItemsAgree(f.payload, n.1, n.0, 0);
    } else {
      var e := DecodeOne(f.typ, f.payload).value;
      assert MaxSeqno([e]) == Max(e.seqno, MaxSeqno([]));
    }
  }

  lemma {:induction false} PeekItemsAgree(b: Data, off: nat, n: nat, max: nat)
    requires DecodeItems(b, off, n).Some?
    ensures PeekItems(b, off, n, max) == Some(Max(max, MaxSeqno(DecodeItems(b, off, n).value)))
    decreases n
  {
    hide DecodeItem, PeekItem;
    if n != 0 {
      PeekItemAgrees(b, off);
      var e, next := DecodeItem(b, off).value.0, DecodeItem(b, off).value.1;
      PeekItemsAgree(b, next, n - 1, Max(max, e.seqno));
      var rest := DecodeItems(b, next, n - 1).value;
      assert ([e] + rest)[0] == e && ([e] + rest)[1..] == rest;
    }
  }

  lemma PeekItemAgrees(b: Data, off: nat)
    requires DecodeItem(b, off).Some?
    ensures PeekItem(b, off) == Some((DecodeItem(b, off).value.0.seqno, DecodeItem(b, off).value.1))
  {
    hide Field;
  }

  // ---------- payloads cut short ----------

  /** What can be read from the first `n` bytes reads the same from all of them. */
  lemma FieldOfPrefix(b: Data, n: nat, off: nat)
    requires n <= |b| && Field(b[..n], off).Some?
    ensures Field(b, off) == Field(b[..n], off)
  {
    var c := b[..n];
    var d := Decode(c[off..]);
    Accepted(c[off..], d.x, d.n);
    assert c[off..][..d.n] == b[off..][..d.n];
    Accepted(b[off..], d.x, d.n);
  }

  lemma ChunkOfPrefix(b: Data, n: nat, off: nat)
    requires n <= |b| && Chunk(b[..n], off).Some?
    ensures Chunk(b, off) == Chunk(b[..n], off)
  {
    FieldOfPrefix(b, n, off);
    var len := Field(b, off).value;
    assert b[..n][len.1..len.1 + len.0] == b[len.1..len.1 + len.0];
  }

  lemma PairOfPrefix(b: Data, n: nat, off: nat, seqno: nat, typ: Byte)
    requires n <= |b| && DecodePair(b[..n], off, seqno, typ).Some?
    ensures DecodePair(b, off, seqno, typ) == DecodePair(b[..n], off, seqno, typ)
  {
    hide Chunk;
    ChunkOfPrefix(b, n, off);
    ChunkOfPrefix(b, n, Chunk(b, off).value.1);
  }

  lemma ItemOfPrefix(b: Data, n: nat, off: nat)
    requires n <= |b| && DecodeItem(b[..n], off).Some?
    ensures DecodeItem(b, off) == DecodeItem(b[..n], off)
  {
    hide Field, DecodePair;
    FieldOfPrefix(b, n, off);
    var at := Field(b, off).value;
    PairOfPrefix(b, n, at.1 + 1, at.0, b[at.1]);
  }

  /** No payload that is cut short anywhere decodes, so a truncated record is never replayed. */
  lemma TornPayload(f: Frame, n: nat)
    requires Encodable(f) && Records(f) != [] && n < |Raw(f).payload|
    ensures DecodeFrame(RawFrame(Raw(f).typ, Raw(f).payload[..n])) == None
  {
    hide Encode, EncodeItems, Field, DecodeItems, DecodePair;
    match f
    case Single(e) =>
      assert e == Records(f)[0];
      TornOne(e, EncodeKV(e), n);
    case Batch(es) =>
      assert es == Records(f);
      TornBatch(es, Encode(|es|) + EncodeItems(es, |es|), n);
  }

  lemma TornOne(e: Entry, b: Data, n: nat)
    requires e.seqno < TWO_64 && |e.key| < TWO_64 && |e.value| < TWO_64 && b == EncodeKV(e) && n < |b|
    ensures DecodeOne(TypeOf(e), b[..n]) == None
  {
    hide Encode, Field, DecodePair;
    var y := Encode(|e.key|) + (e.key + (Encode(|e.value|) + e.value));
    assert b[0..] == (Encode(e.seqno) + y) + [];
    var at := FieldAt(b, 0, e.seqno, y, []);
    PairAt(b, at, e, []);
    if Field(b[..n], 0).Some? {
      FieldOfPrefix(b, n, 0);
      if DecodePair(b[..n], at, e.seqno, TypeOf(e)).Some? {
        PairOfPrefix(b, n, at, e.seqno, TypeOf(e));
        assert false;
      }
    }
  }

  lemma TornBatch(es: seq<Entry>, b: Data, n: nat)
    requires es != [] && b == Encode(|es|) + EncodeItems(es, |es|) && |es| < TWO_64 && n < |b|
    requires forall j :: 0 <= j < |es| ==> es[j].seqno < TWO_64 && |es[j].key| < TWO_64 && |es[j].value| < TWO_64
    ensures DecodeFrame(RawFrame(TYPE_BATCH, b[..n])) == None
  {
    hide Encode, Field, EncodeItem, DecodeItem, DecodeItems;
    assert b[0..] == (Encode(|es|) + EncodeItems(es, |es|)) + [];
    var at := FieldAt(b, 0, |es|, EncodeItems(es, |es|), []);
    assert EncodeItems(es, |es|) + [] == EncodeItems(es, |es|);
    if Field(b[..n], 0).Some? {
      FieldOfPrefix(b, n, 0);
      TornItems(b, at, es, 0, n);
    }
  }

  lemma {:induction false} TornItems(b: Data, at: nat, es: seq<Entry>, i: nat, n: nat)
    requires i < |es| && at <= |b| && b[at..] == EncodeItems(es, |es|) && n < |b|
    requires forall j :: 0 <= j < |es| ==> es[j].seqno < TWO_64 && |es[j].key| < TWO_64 && |es[j].value| < TWO_64
    ensures DecodeItems(b[..n], at + |EncodeItems(es, i)|, |es| - i) == None
    decreases |es| - i
  {
    hide EncodeItem, DecodeItem, EncodeItems;
    var off := at + |EncodeItems(es, i)|;
    if DecodeItem(b[..n], off).Some? {
      ItemOfPrefix(b, n, off);
      ItemInPayload(b, at, es, i);
      if i + 1 < |es| {
        TornItems(b, at, es, i + 1, n);
      }
    }
  }

  lemma {:induction false} ItemsGrow(es: seq<Entry>, m: nat, n: nat)
    requires m <= n <= |es|
    ensures |EncodeItems(es, m)| <= |EncodeItems(es, n)|
    ensures EncodeItems(es, n)[..|EncodeItems(es, m)|] == EncodeItems(es, m)
  {
    hide EncodeItem;
    if m < n {
      ItemsGrow(es, m, n - 1);
      PrefixOfFirst(EncodeItems(es, n - 1), EncodeItem(es[n - 1]), |EncodeItems(es, m)|);
    }
  }
}
