/**
 The open log (`internal/wal/io.go`, `replay.go`): appends, the sync policy, reset,
 recovery at open, and replay.

 `synced` counts the frames an fsync has covered; a crash keeps them and any number of the
 frames after them.
 */
module WalLog {
  import opened Bytes
  import opened Entries
  import opened Varint
  import opened Wal

  datatype Error = Closed | TooLarge

  datatype Appended = Seq(last: nat) | Refused(error: Error)

  /** What the file holds after a write to it: its frames, and how many of them are durable. */
  datatype Image = Image(frames: seq<Frame>, synced: nat, file: Data)

  /** When an append is followed by a sync: every so many appends, or after each one. */
  datatype SyncPolicy = SyncPolicy(everyN: nat, onWrite: bool) {
    predicate Due(appends: nat) {
      if everyN > 0 then appends % everyN == 0 else onWrite
    }

    /** How many acknowledged frames may not be durable after so many appends. */
    predicate Allows(appends: nat, unsynced: nat) {
      if everyN > 0 then unsynced <= appends % everyN else onWrite ==> unsynced == 0
    }
  }

  /** A sync is due after every append, after every N-th, or never. */
  lemma DueWhen(p: SyncPolicy, appends: nat)
    ensures p.everyN == 0 ==> (p.Due(appends) <==> p.onWrite)
    ensures p.everyN > 0 ==> (p.Due(appends) <==> exists q: nat :: appends == q * p.everyN)
  {
    if p.everyN > 0 {
      if p.Due(appends) {
        assert appends == (appends / p.everyN) * p.everyN;
      }
      if q: nat :| appends == q * p.everyN {
        DivModUnique(appends, p.everyN, q, 0);
      }
    }
  }

  /** An append without a sync stays within the policy, and so does a sync. */
  lemma NextAllowed(p: SyncPolicy, appends: nat, unsynced: nat)
    requires p.Allows(appends, unsynced)
    ensures !p.Due(appends + 1) ==> p.Allows(appends + 1, unsynced + 1)
    ensures p.Allows(appends + 1, 0)
  {
    if p.everyN > 0 {
      NextMod(appends, p.everyN);
    }
  }

  function Raws(fs: seq<Frame>): (rs: seq<RawFrame>)
    ensures |rs| == |fs| && forall i :: 0 <= i < |fs| ==> rs[i] == Raw(fs[i])
  {
    seq(|fs|, i requires 0 <= i < |fs| => Raw(fs[i]))
  }

  function AllRecords(fs: seq<Frame>): seq<Entry> {
    if fs == [] then [] else Records(fs[0]) + AllRecords(fs[1..])
  }

  lemma {:induction false} AllRecordsConcat(fs: seq<Frame>, gs: seq<Frame>)
    ensures AllRecords(fs + gs) == AllRecords(fs) + AllRecords(gs)
  {
    hide Records;
    if fs == [] {
      assert fs + gs == gs;
    } else {
      AllRecordsConcat(fs[1..], gs);
      assert (fs + gs)[0] == fs[0] && (fs + gs)[1..] == fs[1..] + gs;
      Associate(Records(fs[0]), AllRecords(fs[1..]), AllRecords(gs));
    }
  }

  lemma Associate(a: seq<Entry>, b: seq<Entry>, c: seq<Entry>)
    ensures a + (b + c) == a + b + c
  {
  }

  lemma AllRecordsAppend(fs: seq<Frame>, f: Frame)
    ensures AllRecords(fs + [f]) == AllRecords(fs) + Records(f)
  {
    AllRecordsConcat(fs, [f]);
    assert AllRecords([f]) == Records(f) + AllRecords([]);
  }

  // ---------- scanning and replaying ----------

  function PeekMax(fs: seq<RawFrame>, max: nat): nat {
    if fs == [] then max
    else PeekMax(fs[1..], if Peek(fs[0]).Some? then Max(max, Peek(fs[0]).value) else max)
  }

  lemma {:induction false} PeekMaxEncoded(fs: seq<Frame>, max: nat)
    requires forall i :: 0 <= i < |fs| ==> Encodable(fs[i])
    ensures PeekMax(Raws(fs), max) == Max(max, MaxSeqno(AllRecords(fs)))
  {
    hide Encodable, Peek, Raw;
    if fs != [] {
      DecodeEncoded(fs[0]);
      var m := Max(max, MaxSeqno(Records(fs[0])));
      PeekMaxEncoded(fs[1..], m);
      assert Raws(fs)[1..] == Raws(fs[1..]);
      MaxSeqnoConcat(Records(fs[0]), AllRecords(fs[1..]));
    }
  }

  lemma {:induction false} MaxSeqnoConcat(a: seq<Entry>, b: seq<Entry>)
    ensures MaxSeqno(a + b) == Max(MaxSeqno(a), MaxSeqno(b))
  {
    if a == [] {
      assert a + b == b;
    } else {
      MaxSeqnoConcat(a[1..], b);
      assert (a + b)[1..] == a[1..] + b;
    }
  }

  /** What replay hands on, and whether it ended without meeting a payload it cannot decode. */
  datatype Replayed = Replayed(records: seq<Entry>, ok: bool)

  function ReplayFrom(file: Data, off: nat, crc: Data -> U32): Replayed
    decreases if off <= |file| then |file| - off else 0
  {
    var f := FrameAt(file, off, crc);
    if f.None? then Replayed([], true)
    else
      var recs := DecodeFrame(f.value);
      if recs.None? then Replayed([], false)
      else
        var rest := ReplayFrom(file, off + HEADER + |f.value.payload|, crc);
        Replayed(recs.value + rest.records, rest.ok)
  }

  /** Replaying a written log yields its records in order, without error. */
  lemma {:induction false} ReplayWritten(fs: seq<Frame>, i: nat, crc: Data -> U32)
    requires i <= |fs| && forall j :: 0 <= j < |fs| ==> Encodable(fs[j])
    ensures ReplayFrom(LogBytes(Raws(fs), crc), |LogTo(Raws(fs), i, crc)|, crc) == Replayed(AllRecords(fs[i..]), true)
    decreases |fs| - i
  {
    hide FrameAt, LogTo, LogBytes, Encodable, DecodeFrame, Raws;
    if i < |fs| {
      RawWritable(fs[i]);
      IntactFrame(Raws(fs), i, crc);
      DecodeEncoded(fs[i]);
      ReplayWritten(fs, i + 1, crc);
      assert fs[i..][0] == fs[i] && fs[i..][1..] == fs[i + 1..];
    } else {
      IntactFrame(Raws(fs), i, crc);
    }
  }

  /** The records of frames that all decode. */
  function Decoded(fs: seq<RawFrame>): seq<Entry> {
    if fs == [] || DecodeFrame(fs[0]).None? then [] else DecodeFrame(fs[0]).value + Decoded(fs[1..])
  }

  /**
   Replay hands on the records of the frames that decode. It ends without error where no
   frame follows, and with one at the first frame whose payload does not decode.
   */
  lemma {:induction false} ReplayStops(fs: seq<RawFrame>, file: Data, off: nat, bad: Option<RawFrame>, rest: Data,
                                       crc: Data -> U32)
    requires forall i :: 0 <= i < |fs| ==> |fs[i].payload| < TWO_32 && DecodeFrame(fs[i]).Some?
    requires off <= |file| && file[off..] == LogBytes(fs, crc) + rest
    requires match bad
             case None => FrameAt(file, off + |LogBytes(fs, crc)|, crc) == None
             case Some(f) =>
               && |f.payload| < TWO_32 && DecodeFrame(f) == None
               && FrameBytes(f, crc) <= rest
    ensures ReplayFrom(file, off, crc) == Replayed(Decoded(fs), bad.None?)
    decreases |fs|
  {
    hide FrameAt, FrameBytes, DecodeFrame;
    if fs != [] {
      var next := LogBytes(fs[1..], crc) + rest;
      LogCons(fs[0], fs[1..], crc);
      assert fs == [fs[0]] + fs[1..];
      Associate3(FrameBytes(fs[0], crc), LogBytes(fs[1..], crc), rest);
      FrameRoundTrip(file, off, fs[0], next, crc);
      ReplayStops(fs[1..], file, off + HEADER + |fs[0].payload|, bad, rest, crc);
    } else {
      assert [] + rest == rest;
      if bad.Some? {
        var f := bad.value;
        assert rest == FrameBytes(f, crc) + rest[|FrameBytes(f, crc)|..];
        FrameRoundTrip(file, off, f, rest[|FrameBytes(f, crc)|..], crc);
      }
    }
  }

  lemma Associate3(a: Data, b: Data, c: Data)
    ensures (a + b) + c == a + (b + c) && |a + b| == |a| + |b|
  {
  }

  lemma RawWritable(f: Frame)
    requires Encodable(f)
    ensures Writable(Raw(f))
  {
  }

  method ScanValidPrefix(file: Data, size: nat, crc: Data -> U32) returns (validEnd: nat, maxSeq: nat)
    requires size == |file|
    ensures validEnd == ScanEnd(file, 0, crc) && maxSeq == PeekMax(Scan(file, 0, crc), 0)
  {
    hide FrameAt, Peek;
    var off: nat := 0;
    maxSeq := 0;
    while off + HEADER <= size
      invariant off <= size
      invariant ScanEnd(file, off, crc) == ScanEnd(file, 0, crc)
      invariant PeekMax(Scan(file, off, crc), maxSeq) == PeekMax(Scan(file, 0, crc), 0)
      decreases size - off
    {
      var f := ReadFrame(file, off, crc);
      if f.None? || !KnownType(f.value.typ) {
        return off, maxSeq;
      }
      var seqno := PeekSeq(f.value);
      if seqno.Some? && seqno.value > maxSeq {
        maxSeq := seqno.value;
      }
      assert Scan(file, off, crc)[1..] == Scan(file, off + HEADER + |f.value.payload|, crc);
      off := off + HEADER + |f.value.payload|;
    }
    ShortHeader(file, off, crc);
    return off, maxSeq;
  }

  lemma ShortHeader(file: Data, off: nat, crc: Data -> U32)
    requires off + HEADER > |file|
    ensures FrameAt(file, off, crc) == None
  {
  }

  method ReadFrame(file: Data, off: nat, crc: Data -> U32) returns (f: Option<RawFrame>)
    requires off + HEADER <= |file|
    ensures f == FrameAt(file, off, crc)
  {
    var plen := FromLE(file[off..off + 4]);
    var typ := file[off + 4];
    var want := FromLE(file[off + 5..off + HEADER]);
    var frameEnd := off + HEADER + plen;
    if frameEnd > |file| {
      return None;
    }
    var payload := file[off + HEADER..frameEnd];
    if crc([typ] + payload) != want {
      return None;
    }
    return Some(RawFrame(typ, payload));
  }

  method PeekSeq(f: RawFrame) returns (r: Option<nat>)
    ensures r == Peek(f)
  {
    if f.typ == TYPE_PUT || f.typ == TYPE_DELETE {
      var seqno := ReadField(f.payload, 0);
      return if seqno.None? then None else Some(seqno.value.0);
    }
    if f.typ != TYPE_BATCH {
      return None;
    }
    var n := ReadField(f.payload, 0);
    if n.None? {
      return None;
    }
    var off, max: nat, i: nat := n.value.1, 0, 0;
    while i < n.value.0
      invariant i <= n.value.0
      invariant Peek(f) == PeekItems(f.payload, off, n.value.0 - i, max)
    {
      var item := PeekItem(f.payload, off);
      if item.None? {
        return None;
      }
      max := Max(max, item.value.0);
      off := item.value.1;
      i := i + 1;
    }
    return Some(max);
  }

  method DecodeBatch(b: Data) returns (recs: Option<seq<Entry>>)
    ensures recs == DecodeFrame(RawFrame(TYPE_BATCH, b))
  {
    var n := ReadField(b, 0);
    if n.None? {
      return None;
    }
    var off: nat := n.value.1;
    var out: seq<Entry> := [];
    var i: nat := 0;
    AfterNone(DecodeItems(b, off, n.value.0));
    while i < n.value.0
      invariant i <= n.value.0
      invariant DecodeItems(b, n.value.1, n.value.0) == After(out, DecodeItems(b, off, n.value.0 - i))
    {
      var item := DecodeItem(b, off);
      if item.None? {
        return None;
      }
      AfterStep(out, item.value.0, DecodeItems(b, item.value.1, n.value.0 - i - 1));
      out := out + [item.value.0];
      off := item.value.1;
      i := i + 1;
    }
    assert out + [] == out;
    return Some(out);
  }

  /** ReplayContext with a callback that records what it is given. */
  method Replay(file: Data, crc: Data -> U32) returns (r: Replayed)
    ensures r == ReplayFrom(file, 0, crc)
  {
    hide FrameAt, DecodeFrame;
    var off: nat := 0;
    var out: seq<Entry> := [];
    while off + HEADER <= |file|
      invariant off <= |file|
      invariant ReplayFrom(file, 0, crc)
                == Replayed(out + ReplayFrom(file, off, crc).records, ReplayFrom(file, off, crc).ok)
      decreases |file| - off
    {
      var f := ReadFrame(file, off, crc);
      if f.None? {
        break;
      }
      var recs := Decode(f.value);
      if recs.None? {
        assert out + [] == out;
        return Replayed(out, false);
      }
      var next := off + HEADER + |f.value.payload|;
      assert out + (recs.value + ReplayFrom(file, next, crc).records)
        == out + recs.value + ReplayFrom(file, next, crc).records;
      out := out + recs.value;
      off := next;
    }
    if off + HEADER > |file| {
      ShortHeader(file, off, crc);
    }
    assert out + [] == out;
    return Replayed(out, true);
  }

  method Decode(f: RawFrame) returns (recs: Option<seq<Entry>>)
    ensures recs == DecodeFrame(f)
  {
    if f.typ == TYPE_PUT || f.typ == TYPE_DELETE {
      var e := DecodeOne(f.typ, f.payload);
      return if e.None? then None else Some([e.value]);
    }
    if f.typ == TYPE_BATCH {
      recs := DecodeBatch(f.payload);
      return;
    }
    return None;
  }

  // ---------- the open log ----------

  class Log {
    const crc: Data -> U32
    const policy: SyncPolicy
    var file: Data
    var size: nat
    var nextSeq: nat
    var appends: nat
    var closed: bool

    ghost var frames: seq<Frame>       // what the file encodes
    ghost var synced: nat              // how many of them are durable
    ghost var trace: seq<Image>        // the states of the file after each write to it

    ghost predicate Valid()
      reads this
    {
      && (forall i :: 0 <= i < |frames| ==> Encodable(frames[i]))
      && file == LogBytes(Raws(frames), crc) && size == |file|
      && synced <= |frames| && policy.Allows(appends, |frames| - synced)
      && MaxSeqno(AllRecords(frames)) <= nextSeq
    }

    ghost function State(): Image
      reads this
    {
      Image(frames, synced, file)
    }

    /**
     Opens a log file that was cut at byte `n`: the frames wholly before the cut survive,
     and what is on disk now counts as durable.
     */
    constructor (file: Data, crc: Data -> U32, policy: SyncPolicy, ghost fs: seq<Frame>, ghost n: nat)
      requires forall i :: 0 <= i < |fs| ==> Encodable(fs[i])
      requires n <= |LogBytes(Raws(fs), crc)| && file == LogBytes(Raws(fs), crc)[..n]
      ensures Valid() && !closed && trace == [] && appends == 0
      ensures this.crc == crc && this.policy == policy
      ensures frames == fs[..Whole(Raws(fs), |fs|, n, crc)] && synced == |frames|
      ensures nextSeq == MaxSeqno(AllRecords(frames))
    {
      hide Encodable, Raws, Whole, LogBytes, AllRecords, MaxSeqno;
      this.file := file;
      this.crc := crc;
      this.policy := policy;
      size := |file|;
      nextSeq, appends, closed := 0, 0, false;
      frames := fs[..Whole(Raws(fs), |fs|, n, crc)];
      synced := Whole(Raws(fs), |fs|, n, crc);
      trace := [];
      new;
      RecoverTail(fs, n);
    }

    /** Drops what follows the last whole frame and finds the largest number before it. */
    method RecoverTail(ghost fs: seq<Frame>, ghost n: nat)
      requires forall i :: 0 <= i < |fs| ==> Encodable(fs[i])
      requires n <= |LogBytes(Raws(fs), crc)| && file == LogBytes(Raws(fs), crc)[..n] && size == |file|
      requires nextSeq == 0 && frames == fs[..Whole(Raws(fs), |fs|, n, crc)]
      modifies this`file, this`size, this`nextSeq
      ensures file == LogBytes(Raws(frames), crc) && size == |file|
      ensures nextSeq == MaxSeqno(AllRecords(frames))
    {
      hide Encodable, Raws, Whole, ScanEnd, LogBytes, PeekMax, AllRecords, MaxSeqno, Scan;
      Recovered(fs, n, file, crc);
      if size == 0 {
        EmptyScan(file, crc);
        return;
      }
      var validEnd, maxSeq := ScanValidPrefix(file, size, crc);
      nextSeq := maxSeq;
      if validEnd < size {
        file := file[..validEnd];
        size := validEnd;
      } else {
        assert file[..validEnd] == file;
      }
    }

    /** Writes one frame; its state before the sync is part of the trace. */
    method WriteFrame(f: Frame) returns (ok: bool)
      requires Valid() && !closed && Encodes(f) && MaxSeqno(Records(f)) <= nextSeq
      modifies this`file, this`size, this`appends, this`frames, this`trace
      ensures ok <==> |Raw(f).payload| <= 0x1000_0000
      ensures !ok ==>
        && frames == old(frames) && file == old(file) && size == old(size) && appends == old(appends)
        && trace == old(trace)
      ensures ok ==> frames == old(frames) + [f] && appends == old(appends) + 1
      ensures ok ==> trace == old(trace) + [State()]
      ensures forall i :: 0 <= i < |frames| ==> Encodable(frames[i])
      ensures file == LogBytes(Raws(frames), crc) && size == |file|
      ensures MaxSeqno(AllRecords(frames)) <= nextSeq
    {
      hide Encodable, Raw, Raws, LogBytes, AllRecords, FrameBytes, Records, MaxSeqno;
      var raw := Raw(f);
      if |raw.payload| > MAX_PAYLOAD {
        return false;
      }
      Extended(frames, f, crc);
      file := file + FrameBytes(raw, crc);
      size := size + (HEADER + |raw.payload|);
      appends := appends + 1;
      frames := frames + [f];
      trace := trace + [State()];
      return true;
    }

    method MaybeSync()
      requires appends > 0 && synced < |frames| && policy.Allows(appends - 1, |frames| - 1 - synced)
      modifies this`synced, this`trace
      ensures synced <= |frames| && policy.Allows(appends, |frames| - synced)
      ensures policy.Due(appends) ==> synced == |frames| && trace == old(trace) + [State()]
      ensures !policy.Due(appends) ==> synced == old(synced) && trace == old(trace)
    {
      NextAllowed(policy, appends - 1, |frames| - 1 - synced);
      if policy.everyN > 0 {
        if appends % policy.everyN == 0 {
          Fsync();
        }
      } else if policy.onWrite {
        Fsync();
      }
    }

    method Fsync()
      modifies this`synced, this`trace
      ensures synced == |frames| && trace == old(trace) + [State()]
    {
      synced := |frames|;
      trace := trace + [State()];
    }

    /** What a successful append leaves behind. */
    twostate predicate Logged(f: Frame)
      reads this
    {
      && frames == old(frames) + [f] && appends == old(appends) + 1
      && synced == (if policy.Due(appends) then |frames| else old(synced))
      && trace == old(trace) + [Image(frames, old(synced), file)] + (if policy.Due(appends) then [State()] else [])
    }

    /** What a refused append leaves behind. */
    twostate predicate Unlogged()
      reads this
    {
      && frames == old(frames) && appends == old(appends) && synced == old(synced) && trace == old(trace)
      && file == old(file)
    }

    method AppendPut(key: Data, value: Data) returns (r: Appended)
      requires Valid() && nextSeq + 1 < TWO_64 && |key| < TWO_64 && |value| < TWO_64
      modifies this
      ensures Valid() && closed == old(closed)
      ensures old(closed) ==> r == Refused(Closed) && Unlogged() && nextSeq == old(nextSeq)
      ensures !old(closed) ==>
        && nextSeq == old(nextSeq) + 1
        && r == if TakesUp(Single(Entry(key, value, nextSeq, false))) then Seq(nextSeq) else Refused(TooLarge)
      ensures r == Refused(TooLarge) ==> Unlogged()
      ensures r.Seq? ==> Logged(Single(Entry(key, value, nextSeq, false)))
    {
      hide Encodable, Encodes, Raw, Raws, LogBytes, AllRecords, Records, MaxSeqno;
      if closed {
        return Refused(Closed);
      }
      nextSeq := nextSeq + 1;
      SingleEncodes(Entry(key, value, nextSeq, false));
      var ok := WriteFrame(Single(Entry(key, value, nextSeq, false)));
      if !ok {
        return Refused(TooLarge);
      }
      MaybeSync();
      return Seq(nextSeq);
    }

    method AppendDelete(key: Data) returns (r: Appended)
      requires Valid() && nextSeq + 1 < TWO_64 && |key| < TWO_64
      modifies this
      ensures Valid() && closed == old(closed)
      ensures old(closed) ==> r == Refused(Closed) && Unlogged() && nextSeq == old(nextSeq)
      ensures !old(closed) ==>
        && nextSeq == old(nextSeq) + 1
        && r == if TakesUp(Single(Entry(key, [], nextSeq, true))) then Seq(nextSeq) else Refused(TooLarge)
      ensures r == Refused(TooLarge) ==> Unlogged()
      ensures r.Seq? ==> Logged(Single(Entry(key, [], nextSeq, true)))
    {
      hide Encodable, Encodes, Raw, Raws, LogBytes, AllRecords, Records, MaxSeqno;
      if closed {
        return Refused(Closed);
      }
      nextSeq := nextSeq + 1;
      SingleEncodes(Entry(key, [], nextSeq, true));
      var ok := WriteFrame(Single(Entry(key, [], nextSeq, true)));
      if !ok {
        return Refused(TooLarge);
      }
      MaybeSync();
      return Seq(nextSeq);
    }

    /** A batch is one frame; its entries get consecutive numbers. */
    method AppendBatch(items: seq<Item>) returns (r: Appended)
      requires Valid() && nextSeq + |items| < TWO_64 && ItemsFit(items)
      modifies this
      ensures Valid() && closed == old(closed)
      ensures old(closed) ==> r == Refused(Closed) && Unlogged() && nextSeq == old(nextSeq)
      ensures !old(closed) ==>
        && nextSeq == old(nextSeq) + |items|
        && r == if items == [] || TakesUp(Batch(Numbered(items, old(nextSeq)))) then Seq(nextSeq) else Refused(TooLarge)
      ensures r == Refused(TooLarge) || (!old(closed) && items == []) ==> Unlogged()
      ensures r.Seq? && items != [] ==> Logged(Batch(Numbered(items, old(nextSeq))))
    {
      hide Encodable, Encodes, Raw, Raws, LogBytes, AllRecords, Records, MaxSeqno, Numbered;
      if closed {
        return Refused(Closed);
      }
      if items == [] {
        return Seq(nextSeq);
      }
      ghost var first := nextSeq;
      var es := Number(items);
      BatchEncodes(items, first);
      var ok := WriteFrame(Batch(es));
      if !ok {
        return Refused(TooLarge);
      }
      MaybeSync();
      return Seq(nextSeq);
    }

    /** Allocates the numbers of a batch. */
    method Number(items: seq<Item>) returns (es: seq<Entry>)
      modifies this`nextSeq
      ensures nextSeq == old(nextSeq) + |items| && es == Numbered(items, old(nextSeq))
    {
      es := [];
      var i := 0;
      while i < |items|
        invariant 0 <= i <= |items| && nextSeq == old(nextSeq) + i
        invariant es == Numbered(items[..i], old(nextSeq))
      {
        nextSeq := nextSeq + 1;
        es := es + [Entry(items[i].key, items[i].value, nextSeq, items[i].deleted)];
        assert items[..i + 1] == items[..i] + [items[i]];
        i := i + 1;
      }
      assert items[..i] == items;
    }

    /** Replaying the open log hands on every record it holds, in order. */
    method ReplayContext() returns (r: Replayed)
      requires Valid() && !closed
      ensures r == Replayed(AllRecords(frames), true)
    {
      hide Encodable, Raws, LogBytes, AllRecords, ReplayFrom;
      StartOfLog(Raws(frames), crc);
      ReplayWritten(frames, 0, crc);
      assert frames[0..] == frames;
      r := Replay(file, crc);
    }

    method Sync() returns (ok: bool)
      requires Valid()
      modifies this`synced, this`trace
      ensures Valid() && ok == !closed
      ensures ok ==> synced == |frames| && trace == old(trace) + [State()]
      ensures !ok ==> synced == old(synced) && trace == old(trace)
    {
      hide Encodable, LogBytes, Raws, AllRecords, MaxSeqno;
      if closed {
        return false;
      }
      Fsync();
      return true;
    }

    /** Syncs and closes; a second close does nothing. */
    method Close()
      requires Valid()
      modifies this`synced, this`trace, this`closed
      ensures Valid() && closed
      ensures !old(closed) ==> synced == |frames| && trace == old(trace) + [State()]
      ensures old(closed) ==> synced == old(synced) && trace == old(trace)
    {
      hide Encodable, LogBytes, Raws, AllRecords, MaxSeqno;
      if closed {
        return;
      }
      closed := true;
      Fsync();
    }

    /** Empties the file; the sequence counter stays. */
    method Reset() returns (ok: bool)
      requires Valid()
      modifies this`file, this`size, this`appends, this`frames, this`synced, this`trace
      ensures Valid() && ok == !closed
      ensures ok ==> frames == [] && synced == appends == 0 && trace == old(trace) + [Image([], 0, file)]
      ensures !ok ==> Unlogged()
    {
      hide Encodable;
      if closed {
        return false;
      }
      file, size, appends := [], 0, 0;
      frames := [];
      synced := 0;
      trace := trace + [State()];
      return true;
    }

    method SetNextSeq(seqno: nat)
      requires Valid()
      modifies this`nextSeq
      ensures Valid() && nextSeq == Max(old(nextSeq), seqno)
    {
      if seqno > nextSeq {
        nextSeq := seqno;
      }
    }

    /** The number the next append will get. */
    method NextSeq() returns (n: nat)
      ensures n == nextSeq + 1
    {
      return nextSeq + 1;
    }
  }

  /** One entry of a batch before it has a number; `isNil` tells a nil key from an empty one. */
  datatype Item = Item(key: Data, isNil: bool, value: Data, deleted: bool)

  predicate ItemsFit(items: seq<Item>) {
    forall i :: 0 <= i < |items| ==> |items[i].key| < TWO_64 && |items[i].value| < TWO_64
  }

  function Numbered(items: seq<Item>, after: nat): (es: seq<Entry>)
    ensures |es| == |items|
  {
    seq(|items|, i requires 0 <= i < |items| => Entry(items[i].key, items[i].value, after + i + 1, items[i].deleted))
  }

  /** The payload is within the log's limit. */
  predicate TakesUp(f: Frame) {
    |Raw(f).payload| <= MAX_PAYLOAD
  }

  /** The bytes of key and value of all items. */
  function ItemBytes(items: seq<Item>): nat {
    if items == [] then 0
    else ItemBytes(items[..|items| - 1]) + |items[|items| - 1].key| + |items[|items| - 1].value|
  }

  lemma WordSize(x: nat)
    ensures x < TWO_64 ==> 1 <= |Encode(x)| <= 10
  {
    if x < TWO_64 {
      RoundTrip(x, []);
    }
  }

  /** A single record is refused for its size only near 2^28 bytes: there are at most thirty besides key and value. */
  lemma SingleSize(e: Entry)
    requires e.seqno < TWO_64 && |e.key| < TWO_64 && |e.value| < TWO_64
    ensures |e.key| + |e.value| + 30 <= 0x1000_0000 ==> TakesUp(Single(e))
    ensures |e.key| + |e.value| + 3 > 0x1000_0000 ==> !TakesUp(Single(e))
  {
    hide Encode;
    WordSize(e.seqno);
    WordSize(|e.key|);
    WordSize(|e.value|);
    assert |Raw(Single(e)).payload| == |EncodeKV(e)|;
  }

  /** Likewise a batch, with its count and from four to thirty-one bytes for each item. */
  lemma BatchSize(items: seq<Item>, after: nat)
    requires ItemsFit(items) && after + |items| < TWO_64
    ensures ItemBytes(items) + 31 * |items| + 10 <= 0x1000_0000 ==> TakesUp(Batch(Numbered(items, after)))
    ensures ItemBytes(items) + 4 * |items| + 1 > 0x1000_0000 ==> !TakesUp(Batch(Numbered(items, after)))
  {
    hide Encode, EncodeItems;
    WordSize(|items|);
    ItemsSize(items, after, |items|);
    assert items[..|items|] == items;
    assert |Raw(Batch(Numbered(items, after))).payload|
           == |Encode(|items|)| + |EncodeItems(Numbered(items, after), |items|)|;
  }

  lemma {:induction false} ItemsSize(items: seq<Item>, after: nat, n: nat)
    requires ItemsFit(items) && after + |items| < TWO_64 && n <= |items|
    ensures var size := |EncodeItems(Numbered(items, after), n)|;
            ItemBytes(items[..n]) + 4 * n <= size <= ItemBytes(items[..n]) + 31 * n
  {
    hide Encode;
    if n != 0 {
      ItemsSize(items, after, n - 1);
      var e := Numbered(items, after)[n - 1];
      WordSize(e.seqno);
      WordSize(|e.key|);
      WordSize(|e.value|);
      assert items[..n][..n - 1] == items[..n - 1];
      assert |EncodeItem(e)| == |Encode(e.seqno)| + 1 + |Encode(|e.key|)| + |e.key| + |Encode(|e.value|)| + |e.value|;
    }
  }

  ghost predicate Encodes(f: Frame) {
    |Raw(f).payload| <= MAX_PAYLOAD ==> Encodable(f)
  }

  lemma SingleEncodes(e: Entry)
    requires e.seqno < TWO_64 && |e.key| < TWO_64 && |e.value| < TWO_64
    ensures Encodes(Single(e)) && MaxSeqno(Records(Single(e))) == e.seqno
  {
    assert MaxSeqno([e]) == Max(e.seqno, MaxSeqno([]));
  }

  lemma BatchEncodes(items: seq<Item>, after: nat)
    requires after + |items| < TWO_64 && ItemsFit(items)
    ensures Encodes(Batch(Numbered(items, after)))
    ensures MaxSeqno(Records(Batch(Numbered(items, after)))) <= after + |items|
  {
    hide Raw;
    NumberedMax(items, after);
  }

  /** One more frame: the bytes, the records and their largest number. */
  lemma Extended(fs: seq<Frame>, f: Frame, crc: Data -> U32)
    ensures LogBytes(Raws(fs + [f]), crc) == LogBytes(Raws(fs), crc) + FrameBytes(Raw(f), crc)
    ensures AllRecords(fs + [f]) == AllRecords(fs) + Records(f)
    ensures MaxSeqno(AllRecords(fs + [f])) == Max(MaxSeqno(AllRecords(fs)), MaxSeqno(Records(f)))
  {
    hide FrameBytes, Raw;
    LogAppend(Raws(fs), Raw(f), crc);
    AllRecordsAppend(fs, f);
    MaxSeqnoConcat(AllRecords(fs), Records(f));
    assert Raws(fs + [f]) == Raws(fs) + [Raw(f)];
  }

  lemma NextMod(a: nat, n: nat)
    requires n > 0
    ensures (a + 1) % n == if a % n + 1 == n then 0 else a % n + 1
  {
    var q, r := a / n, a % n;
    assert a + 1 == n * q + (r + 1);
    if r + 1 == n {
      assert a + 1 == n * (q + 1) + 0;
      DivModUnique(a + 1, n, q + 1, 0);
    } else {
      DivModUnique(a + 1, n, q, r + 1);
    }
  }

  lemma {:induction false} NumberedMax(items: seq<Item>, after: nat)
    ensures MaxSeqno(Numbered(items, after)) <= after + |items|
    decreases |items|
  {
    if items != [] {
      var n := |items| - 1;
      NumberedMax(items[..n], after);
      assert Numbered(items, after)
        == Numbered(items[..n], after) + [Entry(items[n].key, items[n].value, after + n + 1, items[n].deleted)];
      MaxSeqnoAppend(Numbered(items[..n], after), Numbered(items, after)[n]);
    }
  }

  /** Recovery of a cut log in terms of frames and records. */
  lemma Recovered(fs: seq<Frame>, n: nat, file: Data, crc: Data -> U32)
    requires forall i :: 0 <= i < |fs| ==> Encodable(fs[i])
    requires n <= |LogBytes(Raws(fs), crc)| && file == LogBytes(Raws(fs), crc)[..n]
    ensures var k := Whole(Raws(fs), |fs|, n, crc);
            && ScanEnd(file, 0, crc) <= |file|
            && file[..ScanEnd(file, 0, crc)] == LogBytes(Raws(fs[..k]), crc)
            && PeekMax(Scan(file, 0, crc), 0) == MaxSeqno(AllRecords(fs[..k]))
  {
    hide Encodable, FrameBytes, LogTo, Scan, ScanEnd;
    var rs := Raws(fs);
    forall i | 0 <= i < |rs|
      ensures Writable(rs[i])
    {
      RawWritable(fs[i]);
    }
    var k := Whole(rs, |fs|, n, crc);
    StartOfLog(rs, crc);
    ScanTorn(rs, 0, n, file, crc);
    LogGrows(rs, k, |fs|, crc);
    assert Raws(fs[..k]) == rs[0..k];
    LogPrefix(rs[0..k], rs, k, crc);
    PeekMaxEncoded(fs[..k], 0);
    assert file[..|LogTo(rs, k, crc)|] == LogBytes(rs, crc)[..|LogTo(rs, k, crc)|];
  }

  lemma EmptyScan(file: Data, crc: Data -> U32)
    requires file == []
    ensures ScanEnd(file, 0, crc) == 0 && PeekMax(Scan(file, 0, crc), 0) == 0
  {
    ShortHeader(file, 0, crc);
  }

  lemma StartOfLog(rs: seq<RawFrame>, crc: Data -> U32)
    ensures |LogTo(rs, 0, crc)| == 0
  {
  }
}
