/**
 One block of an SSTable (`internal/sstable`): prefix-compressed entries, restart points,
 and the iterator that decodes and searches them in place.
 */
module Block {
  import opened Bytes
  import opened Entries
  import opened Varint

  const FLAG_VALUE: Byte := 0
  const FLAG_DELETE: Byte := 1

  // ---------- the format ----------

  function Flag(e: Entry): Byte {
    if e.deleted then FLAG_DELETE else FLAG_VALUE
  }

  /** One entry whose first `shared` key bytes are taken from the key before it. */
  function EncodeEntry(e: Entry, shared: nat): Data
    requires shared <= |e.key|
  {
    Encode(shared) + (Encode(|e.key| - shared) + (Encode(|e.value|) + (Encode(e.seqno)
    + ([Flag(e)] + (e.key[shared..] + e.value)))))
  }

  /** Entry `i` of a block is a restart point: it stores its whole key. */
  predicate IsRestart(i: nat, r: nat)
    requires r > 0
  {
    i % r == 0
  }

  /** Entry `i` of a block starts a restart interval, or shares a prefix with its neighbour. */
  function SharedAt(es: seq<Entry>, r: nat, i: nat): (n: nat)
    requires r > 0 && i < |es|
    ensures n <= |es[i].key|
  {
    if IsRestart(i, r) then 0 else SharedPrefix(es[i - 1].key, es[i].key)
  }

  /** The entries `es[..n]` of a block, encoded. */
  function DataTo(es: seq<Entry>, r: nat, n: nat): Data
    requires r > 0 && n <= |es|
  {
    if n == 0 then [] else DataTo(es, r, n - 1) + EncodeEntry(es[n - 1], SharedAt(es, r, n - 1))
  }

  /** Positions of the entries that start a restart interval. */
  function RestartsTo(r: nat, n: nat): (s: seq<nat>)
    requires r > 0
  {
    if n == 0 then []
    else RestartsTo(r, n - 1) + (if IsRestart(n - 1, r) then [n - 1] else [])
  }

  /** Byte offsets of the restart points among the first `n` entries. */
  function OffsetsTo(es: seq<Entry>, r: nat, n: nat): (s: seq<nat>)
    requires r > 0 && n <= |es|
  {
    if n == 0 then []
    else OffsetsTo(es, r, n - 1) + (if IsRestart(n - 1, r) then [|DataTo(es, r, n - 1)|] else [])
  }

  lemma {:induction false} RestartsShape(r: nat, n: nat)
    requires r > 0
    ensures var s := RestartsTo(r, n);
            && |s| <= n && (n > 0 ==> |s| > 0)
            && (forall j :: 0 <= j < |s| ==> s[j] < n && IsRestart(s[j], r))
            && (|s| > 0 ==> s[0] == 0)
  {
    if n == 1 {
      assert IsRestart(0, r);
    } else if n > 1 {
      RestartsShape(r, n - 1);
    }
  }

  lemma {:induction false} OffsetsShape(es: seq<Entry>, r: nat, n: nat)
    requires r > 0 && n <= |es|
    ensures var s, t := OffsetsTo(es, r, n), RestartsTo(r, n);
            |s| == |t| && forall j :: 0 <= j < |s| ==> t[j] < n && s[j] == |DataTo(es, r, t[j])|
  {
    if n != 0 {
      OffsetsShape(es, r, n - 1);
    }
  }

  function EncodeOffsets(s: seq<nat>): (b: Data)
    ensures |b| == 4 * |s|
  {
    if s == [] then [] else EncodeOffsets(s[..|s| - 1]) + LE(s[|s| - 1], 4)
  }

  /** A block without its checksum: entries, restart offsets, and their number. */
  function Body(es: seq<Entry>, r: nat): Data
    requires r > 0
  {
    DataTo(es, r, |es|) + EncodeOffsets(OffsetsTo(es, r, |es|)) + LE(|OffsetsTo(es, r, |es|)|, 4)
  }

  /** Sizes for which the fixed-width fields of a block are exact. */
  ghost predicate Fits(es: seq<Entry>, r: nat) {
    && r > 0
    && |DataTo(es, r, |es|)| < TWO_32
    && |es| < TWO_32
    && Widths64(es)
  }

  ghost predicate Widths64(es: seq<Entry>) {
    forall i :: 0 <= i < |es| ==> es[i].seqno < TWO_64 && |es[i].key| < TWO_64 && |es[i].value| < TWO_64
  }

  // ---------- facts about prefixes of a block ----------

  /** What is encoded depends only on the entries encoded. */
  lemma {:induction false} DataToPrefix(es: seq<Entry>, fs: seq<Entry>, r: nat, n: nat)
    requires r > 0 && n <= |es| && n <= |fs| && forall i :: 0 <= i < n ==> es[i] == fs[i]
    ensures DataTo(es, r, n) == DataTo(fs, r, n) && OffsetsTo(es, r, n) == OffsetsTo(fs, r, n)
  {
    if n != 0 {
      assert SharedAt(es, r, n - 1) == SharedAt(fs, r, n - 1);
      DataToPrefix(es, fs, r, n - 1);
    }
  }

  /** One more entry extends the encoding at its end, and the offsets when it is a restart. */
  lemma DataToAppend(es: seq<Entry>, e: Entry, r: nat)
    requires r > 0
    ensures var fs, n := es + [e], |es|;
            && DataTo(fs, r, n + 1) == DataTo(es, r, n) + EncodeEntry(e, SharedAt(fs, r, n))
            && OffsetsTo(fs, r, n + 1) == OffsetsTo(es, r, n) + (if IsRestart(n, r) then [|DataTo(es, r, n)|] else [])
  {
    DataToPrefix(es + [e], es, r, |es|);
  }

  lemma {:induction false} DataToGrows(es: seq<Entry>, r: nat, m: nat, n: nat)
    requires r > 0 && m <= n <= |es|
    ensures |DataTo(es, r, m)| + 5 * (n - m) <= |DataTo(es, r, n)|
    ensures DataTo(es, r, m) == DataTo(es, r, n)[..|DataTo(es, r, m)|]
  {
    if m < n {
      DataToGrows(es, r, m, n - 1);
      var d := DataTo(es, r, n - 1);
      assert DataTo(es, r, n)[..|d|] == d;
    }
  }

  /** Entry `i` of a block stands at `offs[i]` and the next one at `offs[i + 1]`. */
  ghost predicate EntryIn(data: Data, es: seq<Entry>, r: nat, offs: seq<nat>, i: nat)
    requires r > 0 && i < |es| && |offs| == |es| + 1
  {
    && offs[i] < offs[i + 1] <= |data|
    && offs[i + 1] == offs[i] + |EncodeEntry(es[i], SharedAt(es, r, i))|
    && data[offs[i]..] == EncodeEntry(es[i], SharedAt(es, r, i)) + data[offs[i + 1]..]
  }

  /** The bytes of a block, described entry by entry. */
  ghost predicate Layout(data: Data, es: seq<Entry>, r: nat, offs: seq<nat>) {
    && r > 0 && |offs| == |es| + 1 && offs[0] == 0 && offs[|es|] == |data|
    && (forall i: nat :: i < |es| ==> EntryIn(data, es, r, offs, i))
  }

  ghost function EntryOffsets(es: seq<Entry>, r: nat): (offs: seq<nat>)
    requires r > 0
    ensures |offs| == |es| + 1
  {
    seq(|es| + 1, i requires 0 <= i <= |es| => |DataTo(es, r, i)|)
  }

  lemma DataLayout(es: seq<Entry>, r: nat)
    requires r > 0
    ensures Layout(DataTo(es, r, |es|), es, r, EntryOffsets(es, r))
  {
    forall i: nat | i < |es|
      ensures EntryIn(DataTo(es, r, |es|), es, r, EntryOffsets(es, r), i)
    {
      EntryAt(es, r, i, DataTo(es, r, |es|));
    }
  }

  lemma EntryAt(es: seq<Entry>, r: nat, n: nat, data: Data)
    requires r > 0 && n < |es| && data == DataTo(es, r, |es|)
    ensures EntryIn(data, es, r, EntryOffsets(es, r), n)
  {
    DataToGrows(es, r, n, n + 1);
    DataToGrows(es, r, n + 1, |es|);
    SplitAt(data, DataTo(es, r, n), EncodeEntry(es[n], SharedAt(es, r, n)), DataTo(es, r, n + 1));
  }

  lemma SplitAt(data: Data, a: Data, x: Data, d: Data)
    requires d == a + x && |d| <= |data| && d == data[..|d|]
    ensures data[|a|..] == x + data[|d|..]
  {
    assert data == a + x + data[|d|..];
  }

  // ---------- decoding ----------

  /**
   The entry whose encoding starts at `off`, given the key before it, and the offset after
   it; None when the bytes do not hold one.
   */
  function Step(data: Data, off: nat, key: Data): Option<(Entry, nat)> {
    var h := Prefix(data, off);
    if h.None? then None else StepPayload(data, key, h.value)
  }

  /** The four numbers an entry begins with, and the offset after them. */
  datatype Header = Header(shared: nat, nonShared: nat, vlen: nat, seqno: nat, next: nat)

  function Prefix(data: Data, off: nat): (h: Option<Header>)
    ensures h.Some? ==> off < h.value.next <= |data|
  {
    var shared := Field(data, off);
    if off >= |data| || shared.None? then None
    else
      var nonShared := Field(data, shared.value.1);
      if nonShared.None? then None
      else
        var vlen := Field(data, nonShared.value.1);
        if vlen.None? then None
        else
          var number := Field(data, vlen.value.1);
          if number.None? then None
          else Some(Header(shared.value.0, nonShared.value.0, vlen.value.0, number.value.0, number.value.1))
  }

  function StepPayload(data: Data, key: Data, h: Header): Option<(Entry, nat)> {
    var start := h.next + 1;
    if h.next >= |data| || start + h.nonShared + h.vlen > |data| || h.shared > |key| then None
    else
      var mid := start + h.nonShared;
      Some((Entry(key[..h.shared] + data[start..mid], data[mid..mid + h.vlen], h.seqno, data[h.next] == FLAG_DELETE),
            mid + h.vlen))
  }

  /** Decoding at the offset of entry `i` gives entry `i` and the offset of the next. */
  lemma StepAt(data: Data, es: seq<Entry>, r: nat, offs: seq<nat>, i: nat, key: Data)
    requires Layout(data, es, r, offs) && Widths64(es) && i < |es|
    requires !IsRestart(i, r) ==> key == es[i - 1].key
    ensures Step(data, offs[i], key) == Some((es[i], offs[i + 1]))
  {
    hide Encode, EncodeEntry, Step, SharedAt, IsRestart;
    assert EntryIn(data, es, r, offs, i);
    SharedWith(es, r, i, key);
    StepEncoded(data, offs[i], key, es[i], SharedAt(es, r, i), data[offs[i + 1]..]);
  }

  lemma SharedWith(es: seq<Entry>, r: nat, i: nat, key: Data)
    requires r > 0 && i < |es| && (!IsRestart(i, r) ==> key == es[i - 1].key)
    ensures SharedAt(es, r, i) <= |key| && key[..SharedAt(es, r, i)] == es[i].key[..SharedAt(es, r, i)]
  {
  }

  lemma StepEncoded(data: Data, off: nat, key: Data, e: Entry, shared: nat, rest: Data)
    requires off <= |data| && shared <= |e.key| && shared <= |key| && key[..shared] == e.key[..shared]
    requires data[off..] == EncodeEntry(e, shared) + rest
    requires e.seqno < TWO_64 && |e.key| < TWO_64 && |e.value| < TWO_64
    ensures Step(data, off, key) == Some((e, off + |EncodeEntry(e, shared)|))
  {
    hide Encode, Field, StepPayload, Flag;
    var y4 := [Flag(e)] + (e.key[shared..] + e.value);
    var y3 := Encode(e.seqno) + y4;
    var y2 := Encode(|e.value|) + y3;
    var y1 := Encode(|e.key| - shared) + y2;
    var off1 := FieldAt(data, off, shared, y1, rest);
    var off2 := FieldAt(data, off1, |e.key| - shared, y2, rest);
    var off3 := FieldAt(data, off2, |e.value|, y3, rest);
    var off4 := FieldAt(data, off3, e.seqno, y4, rest);
    PayloadEncoded(data, off4, key, e, shared, rest);
  }

  lemma PayloadEncoded(data: Data, off: nat, key: Data, e: Entry, shared: nat, rest: Data)
    requires off <= |data| && shared <= |e.key| && shared <= |key| && key[..shared] == e.key[..shared]
    requires data[off..] == ([Flag(e)] + (e.key[shared..] + e.value)) + rest
    ensures off < |data|
    ensures StepPayload(data, key, Header(shared, |e.key| - shared, |e.value|, e.seqno, off)) ==
            Some((e, off + 1 + |e.key| - shared + |e.value|))
  {
    Peel(data, off, [Flag(e)], e.key[shared..] + e.value, rest);
    Peel(data, off + 1, e.key[shared..], e.value, rest);
    var mid := off + 1 + (|e.key| - shared);
    assert e.value + rest == (e.value + []) + rest;
    Peel(data, mid, e.value, [], rest);
    assert data[off] == data[off..off + 1][0];
    assert e.key[..shared] + e.key[shared..] == e.key;
  }

  // ---------- the trailer ----------

  /** parseRestarts: entries and restart offsets of a block, None when it is too short. */
  function Parse(block: Data): Option<(Data, seq<nat>)> {
    if |block| < 4 then None
    else
      var n := FromLE(block[|block| - 4..]);
      if |block| < 4 * n + 4 then None
      else
        var start := |block| - (4 * n + 4);
        Some((block[..start], ReadOffsets(block, start, n)))
  }

  function ReadOffsets(block: Data, start: nat, n: nat): (s: seq<nat>)
    requires start + 4 * n <= |block|
    ensures |s| == n
  {
    if n == 0 then [] else ReadOffsets(block, start, n - 1) + [FromLE(block[start + 4 * (n - 1)..start + 4 * n])]
  }

  method ParseRestarts(block: Data) returns (p: Option<(Data, seq<nat>)>)
    ensures p == Parse(block)
  {
    if |block| < 4 {
      return None;
    }
    var n := FromLE(block[|block| - 4..]);
    var need := 4 * n + 4;
    if |block| < need {
      return None;
    }
    var start := |block| - need;
    var restarts: seq<nat> := [];
    for i := 0 to n
      invariant restarts == ReadOffsets(block, start, i)
    {
      restarts := restarts + [FromLE(block[start + 4 * i..start + 4 * i + 4])];
    }
    return Some((block[..start], restarts));
  }

  lemma {:induction false} ReadEncodedOffsets(block: Data, start: nat, s: seq<nat>, rest: Data)
    requires start <= |block| && block[start..] == EncodeOffsets(s) + rest
    requires forall i :: 0 <= i < |s| ==> s[i] < TWO_32
    ensures start + 4 * |s| <= |block| && ReadOffsets(block, start, |s|) == s
    ensures block[start + 4 * |s|..] == rest
  {
    hide LE, FromLE;
    if s != [] {
      var n := |s| - 1;
      var init, last := s[..n], LE(s[n], 4);
      assert EncodeOffsets(s) + rest == EncodeOffsets(init) + (last + rest);
      ReadEncodedOffsets(block, start, init, last + rest);
      LE32(s[n]);
      LastBytes(block, start + 4 * n, last, rest);
      assert s == init + [s[n]];
    }
  }

  lemma LastBytes(block: Data, at: nat, last: Data, rest: Data)
    requires at <= |block| && block[at..] == last + rest
    ensures at + |last| <= |block| && block[at..at + |last|] == last && block[at + |last|..] == rest
  {
    assert last + rest == (last + []) + rest && [] + rest == rest;
    Peel(block, at, last, [], rest);
  }

  /** Any block is split where its last four bytes say, into the entries and the places of the restart points. */
  lemma ParsesExactly(block: Data, data: Data, s: seq<nat>)
    ensures Parse(block) == Some((data, s)) <==>
            && |s| < TWO_32 && (forall i :: 0 <= i < |s| ==> s[i] < TWO_32)
            && block == data + EncodeOffsets(s) + LE(|s|, 4)
  {
    hide LE, FromLE, EncodeOffsets, ReadOffsets;
    if |s| < TWO_32 && (forall i :: 0 <= i < |s| ==> s[i] < TWO_32) && block == data + EncodeOffsets(s) + LE(|s|, 4) {
      ParseParts(data, s);
    }
    if Parse(block) == Some((data, s)) {
      Widths();
      var start := |block| - (4 * |s| + 4);
      LEInverse(block[|block| - 4..]);
      OffsetsRead(block, start, |s|);
      assert block == block[..start] + block[start..start + 4 * |s|] + block[|block| - 4..];
    }
  }

  lemma {:induction false} OffsetsRead(block: Data, start: nat, n: nat)
    requires start + 4 * n <= |block|
    ensures EncodeOffsets(ReadOffsets(block, start, n)) == block[start..start + 4 * n]
    ensures forall i :: 0 <= i < n ==> ReadOffsets(block, start, n)[i] < TWO_32
  {
    hide LE, FromLE;
    if n != 0 {
      OffsetsRead(block, start, n - 1);
      Widths();
      var last := block[start + 4 * (n - 1)..start + 4 * n];
      LEInverse(last);
      var s := ReadOffsets(block, start, n);
      assert s[..n - 1] == ReadOffsets(block, start, n - 1);
      assert block[start..start + 4 * n] == block[start..start + 4 * (n - 1)] + last;
    }
  }

  /** Parsing what the writer wrote gives back the entries and the restart offsets. */
  lemma ParseBody(es: seq<Entry>, r: nat)
    requires Fits(es, r)
    ensures Parse(Body(es, r)) == Some((DataTo(es, r, |es|), OffsetsTo(es, r, |es|)))
  {
    OffsetsShape(es, r, |es|);
    RestartsShape(r, |es|);
    var s := OffsetsTo(es, r, |es|);
    forall j | 0 <= j < |s|
      ensures s[j] < TWO_32
    {
      DataToGrows(es, r, RestartsTo(r, |es|)[j], |es|);
    }
    ParseParts(DataTo(es, r, |es|), s);
  }

  lemma ParseParts(data: Data, s: seq<nat>)
    requires |s| < TWO_32 && forall i :: 0 <= i < |s| ==> s[i] < TWO_32
    ensures Parse(data + EncodeOffsets(s) + LE(|s|, 4)) == Some((data, s))
  {
    LE32(|s|);
    ParseBlock(data + EncodeOffsets(s) + LE(|s|, 4), data, EncodeOffsets(s), LE(|s|, 4), s);
  }

  lemma ParseBlock(block: Data, data: Data, offs: Data, count: Data, s: seq<nat>)
    requires block == data + offs + count && offs == EncodeOffsets(s)
    requires |count| == 4 && FromLE(count) == |s| && forall i :: 0 <= i < |s| ==> s[i] < TWO_32
    ensures Parse(block) == Some((data, s))
  {
    hide EncodeOffsets, FromLE, ReadOffsets;
    TrailerAt(data + offs, count);
    assert block == data + (offs + count);
    TrailerAt(data, offs + count);
    ReadEncodedOffsets(block, |data|, s, count);
  }

  lemma TrailerAt(a: Data, b: Data)
    ensures (a + b)[|a|..] == b && (a + b)[..|a|] == a
  {
  }

  // ---------- the iterator ----------

  /** Reads the numbers of an entry; `off` is where reading stopped. */
  method ReadPrefix(data: Data, off0: nat) returns (h: Option<Header>, off: nat)
    ensures h == Prefix(data, off0)
    ensures h.Some? ==> off == h.value.next
    ensures off0 >= |data| ==> off == off0
  {
    off := off0;
    if off >= |data| {
      return None, off;
    }
    var shared := ReadField(data, off);
    if shared.None? {
      return None, off;
    }
    off := shared.value.1;
    var nonShared := ReadField(data, off);
    if nonShared.None? {
      return None, off;
    }
    off := nonShared.value.1;
    var vlen := ReadField(data, off);
    if vlen.None? {
      return None, off;
    }
    off := vlen.value.1;
    var number := ReadField(data, off);
    if number.None? {
      return None, off;
    }
    off := number.value.1;
    h := Some(Header(shared.value.0, nonShared.value.0, vlen.value.0, number.value.0, off));
  }

  class BlockIter {
    const data: Data
    const restarts: seq<nat>
    var off: nat
    var key: Data
    var value: Data
    var seqno: nat
    var deleted: bool
    var valid: bool

    ghost const es: seq<Entry>      // the entries the block was written from
    ghost const r: nat
    ghost const offs: seq<nat>      // where each of them starts
    ghost const idx: seq<nat>       // which of them start a restart interval

    /** The bytes are those of a block the writer wrote. */
    ghost predicate Written() {
      && Layout(data, es, r, offs) && Widths64(es)
      && |restarts| == |idx| && (es != [] ==> idx != []) && (idx != [] ==> idx[0] == 0)
      && (forall j :: 0 <= j < |idx| ==> idx[j] < |es| && IsRestart(idx[j], r) && restarts[j] == offs[idx[j]])
    }

    /** Ready to decode entry `i`. */
    ghost predicate Before(i: nat)
      requires Written()
      reads this
    {
      i <= |es| && off == offs[i] && (i < |es| && !IsRestart(i, r) ==> key == es[i - 1].key)
    }

    /** Standing on entry `i`. */
    ghost predicate On(i: nat)
      requires Written()
      reads this
    {
      i < |es| && valid && off == offs[i + 1] && Entry(key, value, seqno, deleted) == es[i]
    }

    /** Past the last entry. */
    ghost predicate Ended()
      requires Written()
      reads this
    {
      !valid && off == |data|
    }

    /** From an entry, or from the end, Next finds what it needs. */
    lemma Ready(i: nat)
      requires Written() && i <= |es|
      ensures On(i) ==> Before(i + 1)
      ensures Ended() ==> Before(|es|)
    {
    }

    /** newBlockIter on an intact block: it stands on the first entry. */
    constructor (ghost es: seq<Entry>, ghost r: nat, data: Data, restarts: seq<nat>)
      requires Fits(es, r)
      requires data == DataTo(es, r, |es|) && restarts == OffsetsTo(es, r, |es|)
      ensures Written() && this.es == es && this.r == r
      ensures if es == [] then Ended() else On(0)
    {
      this.data := data;
      this.restarts := restarts;
      this.es := es;
      this.r := r;
      this.offs := EntryOffsets(es, r);
      this.idx := RestartsTo(r, |es|);
      off, key, value, seqno, deleted, valid := 0, [], [], 0, false, false;
      new;
      DataLayout(es, r);
      RestartsShape(r, |es|);
      OffsetsShape(es, r, |es|);
      Next(0);
    }

    /** On the bytes of a written block, Next moves from one entry to the next. */
    method Next(ghost i: nat)
      requires Written() && Before(i)
      modifies this
      ensures if i < |es| then On(i) else Ended()
    {
      if i < |es| {
        StepAt(data, es, r, offs, i, key);
      }
      Advance();
    }

    /** The source's Next on any bytes: decodes the entry at `off` field by field. */
    method Advance()
      modifies this
      ensures valid <==> Step(data, old(off), old(key)).Some?
      ensures valid ==> Step(data, old(off), old(key)) == Some((Entry(key, value, seqno, deleted), off))
      ensures old(off) >= |data| ==> off == old(off)
    {
      hide Prefix;
      valid := false;
      var h, o := ReadPrefix(data, off);
      off := o;
      if h.None? || off >= |data| {
        return;
      }
      var flag := data[off];
      var start := off + 1;
      off := start;
      if start + h.value.nonShared + h.value.vlen > |data| || h.value.shared > |key| {
        return;
      }
      var mid := start + h.value.nonShared;
      key := key[..h.value.shared] + data[start..mid];
      off := mid + h.value.vlen;
      value := data[mid..off];
      seqno, deleted := h.value.seqno, flag == FLAG_DELETE;
      valid := true;
    }

    /** Lands on the first entry whose key is at least `target`, whatever the position before. */
    method Seek(target: Data)
      requires Written() && Sorted(es)
      modifies this
      ensures if LowerBound(es, target) < |es| then On(LowerBound(es, target)) else Ended()
    {
      var n := |restarts|;
      if n == 0 {
        off, key := 0, [];
        Next(0);
        Scan(target, 0);
        return;
      }
      var lo, hi := 0, n - 1;
      while lo < hi
        invariant 0 <= lo <= hi < n
        invariant lo == 0 || !Less(target, es[idx[lo]].key)
      {
        var mid := (lo + hi + 1) / 2;
        Restart(mid);
        if !valid || Less(target, key) {
          hi := mid - 1;
        } else {
          lo := mid;
        }
      }
      Restart(lo);
      BelowRestart(target, lo);
      Scan(target, idx[lo]);
    }

    /** Decodes the entry at a restart point; it shares nothing with the one before. */
    method Restart(j: nat)
      requires Written() && j < |restarts|
      modifies this
      ensures On(idx[j])
    {
      off := restarts[j];
      key := [];
      Next(idx[j]);
    }

    /** Starting from a restart at or below `target` skips nothing that is wanted. */
    lemma BelowRestart(target: Data, j: nat)
      requires Written() && Sorted(es) && j < |idx|
      requires idx[j] == 0 || !Less(target, es[idx[j]].key)
      ensures idx[j] <= LowerBound(es, target)
    {
      if idx[j] != 0 {
        UpToLowerBound(es, target, idx[j]);
      }
    }

    method Scan(target: Data, ghost from: nat)
      requires Written() && Sorted(es) && from <= LowerBound(es, target)
      requires if from < |es| then On(from) else Ended()
      modifies this
      ensures if LowerBound(es, target) < |es| then On(LowerBound(es, target)) else Ended()
    {
      ghost var i := from;
      while valid && Less(key, target)
        invariant from <= i <= LowerBound(es, target)
        invariant if i < |es| then On(i) else Ended()
        decreases |es| - i
      {
        BelowLowerBound(es, target, i);
        Next(i + 1);
        i := i + 1;
      }
    }
  }
}
