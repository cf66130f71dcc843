/**
 The manifest (`internal/manifest`): the list of live tables, its binary form, and the
 operations that change and persist it.
 */
module Manifest {
  import opened Bytes
  import opened Entries

  const MAGIC: nat := 0x4D4E4653
  const VERSION: nat := 1

  datatype FileMeta = FileMeta(name: Data, level: nat, minKey: Data, maxKey: Data, maxSeq: nat, entries: nat,
                               fileSize: nat)

  datatype State = State(version: nat, nextFile: nat, logSeq: nat, files: seq<FileMeta>)

  // ---------- file names ----------

  const SUFFIX: Data := [46, 115, 115, 116]    // ".sst"

  function Digits(n: nat): (d: Data)
    ensures |d| > 0
  {
    if n < 10 then [48 + n] else Digits(n / 10) + [48 + n % 10]
  }

  function Pad(d: Data): Data
    decreases 6 - |d|
  {
    if |d| >= 6 then d else Pad([48] + d)
  }

  /** fmt.Sprintf("%06d.sst", n). */
  function FileName(n: nat): Data {
    Pad(Digits(n)) + SUFFIX
  }

  function DigitsValue(d: Data): int {
    if d == [] then 0 else 10 * DigitsValue(d[..|d| - 1]) + (d[|d| - 1] as int - 48)
  }

  lemma {:induction false} DigitsInverse(n: nat)
    ensures DigitsValue(Digits(n)) == n
  {
    if n >= 10 {
      DigitsInverse(n / 10);
      assert Digits(n)[..|Digits(n)| - 1] == Digits(n / 10);
    } else {
      assert Digits(n)[..0] == [];
    }
  }

  lemma {:induction false} ZeroInFront(d: Data)
    ensures DigitsValue([48] + d) == DigitsValue(d)
  {
    if d == [] {
      assert ([48] + d)[..0] == [];
    } else {
      ZeroInFront(d[..|d| - 1]);
      assert ([48] + d)[..|d|] == [48] + d[..|d| - 1];
    }
  }

  lemma {:induction false} PadInverse(d: Data)
    ensures DigitsValue(Pad(d)) == DigitsValue(d)
    decreases 6 - |d|
  {
    if |d| < 6 {
      PadInverse([48] + d);
      ZeroInFront(d);
    }
  }

  /** Different numbers give different file names. */
  lemma FileNameInjective(m: nat, n: nat)
    ensures FileName(m) == FileName(n) ==> m == n
  {
    DigitsInverse(m);
    DigitsInverse(n);
    PadInverse(Digits(m));
    PadInverse(Digits(n));
    if FileName(m) == FileName(n) {
      var a, b := Pad(Digits(m)), Pad(Digits(n));
      assert FileName(m)[..|FileName(m)| - 4] == a && FileName(n)[..|FileName(n)| - 4] == b;
    }
  }

  // ---------- the binary form ----------

  function EncodeFile(f: FileMeta): Data {
    LE(|f.name|, 2) + (f.name + (LE(f.level, 4) + (LE(f.maxSeq, 8) + (LE(f.entries, 8) + (LE(f.fileSize, 8)
    + (LE(|f.minKey|, 2) + (f.minKey + (LE(|f.maxKey|, 2) + f.maxKey))))))))
  }

  function EncodeFiles(fs: seq<FileMeta>): Data {
    if fs == [] then [] else EncodeFile(fs[0]) + EncodeFiles(fs[1..])
  }

  function Header(st: State): Data {
    LE(MAGIC, 4) + (LE(st.version, 4) + (LE(st.nextFile, 8) + (LE(st.logSeq, 8) + LE(|st.files|, 4))))
  }

  function Encode(st: State, crc: Data -> U32): Data {
    var b := Header(st) + EncodeFiles(st.files);
    b + LE(crc(b), 4)
  }

  method EncodeBinary(st: State, crc: Data -> U32) returns (b: Data)
    ensures b == Encode(st, crc)
  {
    b := Header(st);
    var i := 0;
    while i < |st.files|
      invariant 0 <= i <= |st.files|
      invariant b + EncodeFiles(st.files[i..]) == Header(st) + EncodeFiles(st.files)
    {
      var f := st.files[i];
      var e := EncodeFile(f);
      assert st.files[i..][1..] == st.files[i + 1..];
      assert b + (e + EncodeFiles(st.files[i + 1..])) == b + e + EncodeFiles(st.files[i + 1..]);
      b := b + e;
      i := i + 1;
    }
    assert b + EncodeFiles([]) == b;
    b := b + LE(crc(b), 4);
  }

  /** `n` bytes as a number, and the offset after them. */
  function Number(data: Data, off: nat, n: nat): (r: Option<(nat, nat)>)
    ensures r.Some? ==> r.value.1 == off + n <= |data| && r.value.0 < Pow256(n)
  {
    if off + n > |data| then None else Some((FromLE(data[off..off + n]), off + n))
  }

  /** Bytes behind a two-byte length, and the offset after them. */
  function Text(data: Data, off: nat): (r: Option<(Data, nat)>)
    ensures r.Some? ==> off < r.value.1 <= |data| && |r.value.0| < TWO_16
  {
    var len := Number(data, off, 2);
    Widths();
    if len.None? || off + 2 + len.value.0 > |data| then None
    else Some((data[off + 2..off + 2 + len.value.0], off + 2 + len.value.0))
  }

  function DecodeFile(data: Data, off: nat): (r: Option<(FileMeta, nat)>)
    ensures r.Some? ==> off < r.value.1 <= |data| && FileFits(r.value.0)
  {
    Widths();
    var name := Text(data, off);
    if name.None? || name.value.1 + 28 > |data| then None
    else
      var at := name.value.1;
      var minKey := Text(data, at + 28);
      if minKey.None? then None
      else
        var maxKey := Text(data, minKey.value.1);
        if maxKey.None? then None
        else
          Some((FileMeta(name.value.0, Number(data, at, 4).value.0, minKey.value.0, maxKey.value.0,
                         Number(data, at + 4, 8).value.0, Number(data, at + 12, 8).value.0,
                         Number(data, at + 20, 8).value.0),
                maxKey.value.1))
  }

  function DecodeFiles(data: Data, off: nat, n: nat): (r: Option<(seq<FileMeta>, nat)>)
    ensures r.Some? ==> off <= r.value.1 && (n > 0 ==> r.value.1 <= |data|)
    ensures r.Some? ==> |r.value.0| == n && forall i :: 0 <= i < n ==> FileFits(r.value.0[i])
    decreases n
  {
    if n == 0 then Some(([], off))
    else
      var f := DecodeFile(data, off);
      if f.None? then None
      else
        Behind([f.value.0], DecodeFiles(data, f.value.1, n - 1))
  }

  /** Files already decoded in front of the outcome of decoding the others. */
  function Behind(fs: seq<FileMeta>, rest: Option<(seq<FileMeta>, nat)>): Option<(seq<FileMeta>, nat)> {
    if rest.None? then None else Some((fs + rest.value.0, rest.value.1))
  }

  lemma BehindStep(fs: seq<FileMeta>, f: FileMeta, rest: Option<(seq<FileMeta>, nat)>)
    ensures Behind(fs + [f], rest) == Behind(fs, Behind([f], rest))
  {
    if rest.Some? {
      assert fs + [f] + rest.value.0 == fs + ([f] + rest.value.0);
    }
  }

  lemma BehindNone(rest: Option<(seq<FileMeta>, nat)>)
    ensures Behind([], rest) == rest
  {
    if rest.Some? {
      assert [] + rest.value.0 == rest.value.0;
    }
  }

  /** decodeBinary on any bytes; None is ErrCorrupt. */
  function Decode(data: Data, crc: Data -> U32): (r: Option<State>) {
    if |data| < 28 || FromLE(data[0..4]) != MAGIC then None
    else
      var fs := DecodeFiles(data, 28, FromLE(data[24..28]));
      if fs.None? then None
      else
        var off := fs.value.1;
        if off + 4 > |data| || crc(data[..off]) != FromLE(data[off..off + 4]) then None
        else Some(State(FromLE(data[4..8]), FromLE(data[8..16]), FromLE(data[16..24]), fs.value.0))
  }

  method ReadFiles(data: Data, n: nat) returns (r: Option<(seq<FileMeta>, nat)>)
    ensures r == DecodeFiles(data, 28, n)
  {
    hide DecodeFile;
    var off: nat := 28;
    var files: seq<FileMeta> := [];
    var i: nat := 0;
    BehindNone(DecodeFiles(data, 28, n));
    while i < n
      invariant i <= n && DecodeFiles(data, 28, n) == Behind(files, DecodeFiles(data, off, n - i))
    {
      var f := DecodeFile(data, off);
      if f.None? {
        return None;
      }
      BehindStep(files, f.value.0, DecodeFiles(data, f.value.1, n - i - 1));
      files := files + [f.value.0];
      off := f.value.1;
      i := i + 1;
    }
    assert files + [] == files;
    return Some((files, off));
  }

  method DecodeBinary(data: Data, crc: Data -> U32) returns (r: Option<State>)
    ensures r == Decode(data, crc)
  {
    hide FromLE, DecodeFiles;
    if |data| < 28 {
      return None;
    }
    if FromLE(data[0..4]) != MAGIC {
      return None;
    }
    var files := ReadFiles(data, FromLE(data[24..28]));
    if files.None? {
      return None;
    }
    var off := files.value.1;
    if off + 4 > |data| {
      return None;
    }
    if crc(data[..off]) != FromLE(data[off..off + 4]) {
      return None;
    }
    return Some(State(FromLE(data[4..8]), FromLE(data[8..16]), FromLE(data[16..24]), files.value.0));
  }

  /** Every field fits the width it is stored in. */
  predicate FileFits(f: FileMeta) {
    && |f.name| < TWO_16 && |f.minKey| < TWO_16 && |f.maxKey| < TWO_16
    && f.level < TWO_32 && f.maxSeq < TWO_64 && f.entries < TWO_64 && f.fileSize < TWO_64
  }

  predicate Fits(st: State) {
    && st.version < TWO_32 && st.nextFile < TWO_64 && st.logSeq < TWO_64 && |st.files| < TWO_32
    && forall i :: 0 <= i < |st.files| ==> FileFits(st.files[i])
  }

  /** Decoding inverts encoding exactly for the states whose fields fit. */
  lemma RoundTrip(st: State, crc: Data -> U32)
    ensures Decode(Encode(st, crc), crc) == Some(st) <==> Fits(st)
  {
    DecodesExactly(Encode(st, crc), st, crc);
  }

  /** In any file a state is read exactly when its fields fit and the file starts with its encoding. */
  lemma DecodesExactly(data: Data, st: State, crc: Data -> U32)
    ensures Decode(data, crc) == Some(st) <==> Fits(st) && Encode(st, crc) <= data
  {
    hide Decode, Encode, Fits;
    if Fits(st) && Encode(st, crc) <= data {
      var rest := data[|Encode(st, crc)|..];
      assert data == Encode(st, crc) + rest;
      EncodedDecodes(st, rest, crc);
    }
    if Decode(data, crc) == Some(st) {
      DecodedFits(data, crc);
      DecodedEncodes(data, st, crc);
    }
  }

  lemma NumberSound(data: Data, off: nat, n: nat)
    requires Number(data, off, n).Some?
    ensures off + n <= |data| && data[off..off + n] == LE(Number(data, off, n).value.0, n)
  {
    LEInverse(data[off..off + n]);
  }

  lemma TextSound(data: Data, off: nat)
    requires Text(data, off).Some?
    ensures var x, end := Text(data, off).value.0, Text(data, off).value.1;
            end <= |data| && end == off + 2 + |x| && data[off..end] == LE(|x|, 2) + x
  {
    hide LE;
    NumberSound(data, off, 2);
    var end := Text(data, off).value.1;
    assert data[off..end] == data[off..off + 2] + data[off + 2..end];
  }

  lemma FileSound(data: Data, off: nat)
    requires DecodeFile(data, off).Some?
    ensures var f, end := DecodeFile(data, off).value.0, DecodeFile(data, off).value.1;
            off <= end <= |data| && data[off..end] == EncodeFile(f)
  {
    hide LE, Text, Number;
    var f, end := DecodeFile(data, off).value.0, DecodeFile(data, off).value.1;
    TextSound(data, off);
    var at := off + 2 + |f.name|;
    NumbersThere(data, at);
    NumberSound(data, at, 4);
    NumberSound(data, at + 4, 8);
    NumberSound(data, at + 12, 8);
    NumberSound(data, at + 20, 8);
    TextSound(data, at + 28);
    TextSound(data, at + 30 + |f.minKey|);
    FileParts(data, off, at, at + 30 + |f.minKey|, end, LE(|f.name|, 2), f.name, LE(f.level, 4), LE(f.maxSeq, 8),
              LE(f.entries, 8), LE(f.fileSize, 8), LE(|f.minKey|, 2), f.minKey, LE(|f.maxKey|, 2), f.maxKey);
  }

  lemma NumbersThere(data: Data, at: nat)
    requires at + 28 <= |data|
    ensures Number(data, at, 4).Some? && Number(data, at + 4, 8).Some?
    ensures Number(data, at + 12, 8).Some? && Number(data, at + 20, 8).Some?
  {
  }

  lemma FileParts(data: Data, off: nat, at: nat, mid: nat, end: nat, a: Data, name: Data, b: Data, c: Data, d: Data,
                  e: Data, g: Data, low: Data, h: Data, high: Data)
    requires off <= at && at + 28 <= mid <= end <= |data|
    requires data[off..at] == a + name && data[at..at + 4] == b && data[at + 4..at + 12] == c
    requires data[at + 12..at + 20] == d && data[at + 20..at + 28] == e
    requires data[at + 28..mid] == g + low && data[mid..end] == h + high
    ensures data[off..end] == a + (name + (b + (c + (d + (e + (g + (low + (h + high))))))))
  {
    assert data[off..end] == data[off..at] + (data[at..at + 4] + (data[at + 4..at + 12] + (data[at + 12..at + 20]
                             + (data[at + 20..at + 28] + (data[at + 28..mid] + data[mid..end])))));
  }

  lemma {:induction false} FilesSound(data: Data, off: nat, n: nat)
    requires off <= |data| && DecodeFiles(data, off, n).Some?
    ensures var fs, end := DecodeFiles(data, off, n).value.0, DecodeFiles(data, off, n).value.1;
            off <= end <= |data| && data[off..end] == EncodeFiles(fs)
    decreases n
  {
    hide DecodeFile, EncodeFile;
    if n != 0 {
      FileSound(data, off);
      var f, mid := DecodeFile(data, off).value.0, DecodeFile(data, off).value.1;
      FilesSound(data, mid, n - 1);
      var fs, end := DecodeFiles(data, off, n).value.0, DecodeFiles(data, off, n).value.1;
      assert fs[0] == f && fs[1..] == DecodeFiles(data, mid, n - 1).value.0;
      assert data[off..end] == data[off..mid] + data[mid..end];
    }
  }

  lemma DecodedEncodes(data: Data, st: State, crc: Data -> U32)
    requires Decode(data, crc) == Some(st)
    ensures Encode(st, crc) <= data
  {
    hide LE, FromLE, DecodeFiles, EncodeFiles;
    var n, off := FromLE(data[24..28]), DecodeFiles(data, 28, FromLE(data[24..28])).value.1;
    FilesSound(data, 28, n);
    LEInverse(data[0..4]);
    LEInverse(data[4..8]);
    LEInverse(data[8..16]);
    LEInverse(data[16..24]);
    LEInverse(data[24..28]);
    LEInverse(data[off..off + 4]);
    HeaderParts(data);
    assert Header(st) == data[..28];
    assert data[..off] == data[..28] + data[28..off];
    assert data[..off + 4] == data[..off] + data[off..off + 4];
  }

  lemma HeaderParts(data: Data)
    requires |data| >= 28
    ensures data[..28] == data[0..4] + (data[4..8] + (data[8..16] + (data[16..24] + data[24..28])))
  {
  }

  lemma DecodedFits(data: Data, crc: Data -> U32)
    requires Decode(data, crc).Some?
    ensures Fits(Decode(data, crc).value)
  {
    Widths();
  }

  lemma NumberAt(data: Data, off: nat, x: nat, n: nat, y: Data, rest: Data)
    requires off <= |data| && data[off..] == (LE(x, n) + y) + rest && x < Pow256(n)
    ensures Number(data, off, n) == Some((x, off + n)) && data[off + n..] == y + rest
  {
    Peel(data, off, LE(x, n), y, rest);
    LERoundTrip(x, n);
    SmallMod(x, Pow256(n));
  }

  lemma SmallMod(x: nat, p: nat)
    requires x < p
    ensures x % p == x
  {
  }

  lemma {:induction false} TextAt(data: Data, off: nat, x: Data, y: Data, rest: Data)
    requires off <= |data| && data[off..] == (LE(|x|, 2) + (x + y)) + rest && |x| < TWO_16
    ensures Text(data, off) == Some((x, off + 2 + |x|)) && data[off + 2 + |x|..] == y + rest
  {
    hide LE, Text, Number;
    Widths();
    NumberAt(data, off, |x|, 2, x + y, rest);
    Peel(data, off + 2, x, y, rest);
    TextFrom(data, off, x);
  }

  lemma TextFrom(data: Data, off: nat, x: Data)
    requires off + 2 + |x| <= |data| && data[off + 2..off + 2 + |x|] == x
      && Number(data, off, 2) == Some((|x|, off + 2))
    ensures Text(data, off) == Some((x, off + 2 + |x|))
  {
  }

  lemma {:induction false} FileAt(data: Data, off: nat, f: FileMeta, rest: Data)
    requires off <= |data| && data[off..] == EncodeFile(f) + rest && FileFits(f)
    ensures DecodeFile(data, off) == Some((f, off + |EncodeFile(f)|)) && data[off + |EncodeFile(f)|..] == rest
  {
    hide LE, Number, Text;
    Widths();
    var y6 := LE(|f.maxKey|, 2) + f.maxKey;
    var y5 := LE(|f.minKey|, 2) + (f.minKey + y6);
    var y4 := LE(f.fileSize, 8) + y5;
    var y3 := LE(f.entries, 8) + y4;
    var y2 := LE(f.maxSeq, 8) + y3;
    var y1 := LE(f.level, 4) + y2;
    TextAt(data, off, f.name, y1, rest);
    var at := off + 2 + |f.name|;
    NumberAt(data, at, f.level, 4, y2, rest);
    NumberAt(data, at + 4, f.maxSeq, 8, y3, rest);
    NumberAt(data, at + 12, f.entries, 8, y4, rest);
    NumberAt(data, at + 20, f.fileSize, 8, y5, rest);
    TextAt(data, at + 28, f.minKey, y6, rest);
    assert y6 == LE(|f.maxKey|, 2) + (f.maxKey + []);
    TextAt(data, at + 30 + |f.minKey|, f.maxKey, [], rest);
    assert [] + rest == rest;
  }

  lemma {:induction false} FilesAt(data: Data, off: nat, fs: seq<FileMeta>, rest: Data)
    requires off <= |data| && data[off..] == EncodeFiles(fs) + rest
    requires forall i :: 0 <= i < |fs| ==> FileFits(fs[i])
    ensures DecodeFiles(data, off, |fs|) == Some((fs, off + |EncodeFiles(fs)|))
    ensures off + |EncodeFiles(fs)| <= |data| && data[off + |EncodeFiles(fs)|..] == rest
    decreases |fs|
  {
    hide EncodeFile, DecodeFile, FileFits;
    if fs != [] {
      assert EncodeFiles(fs) + rest == EncodeFile(fs[0]) + (EncodeFiles(fs[1..]) + rest);
      FileAt(data, off, fs[0], EncodeFiles(fs[1..]) + rest);
      FilesAt(data, off + |EncodeFile(fs[0])|, fs[1..], rest);
      assert fs == [fs[0]] + fs[1..];
    } else {
      assert EncodeFiles(fs) + rest == rest;
    }
  }

  lemma EncodedDecodes(st: State, rest: Data, crc: Data -> U32)
    requires Fits(st)
    ensures Decode(Encode(st, crc) + rest, crc) == Some(st)
  {
    hide LE, EncodeFiles, DecodeFiles, FileFits;
    var body := Header(st) + EncodeFiles(st.files);
    var sum := LE(crc(body), 4);
    var data := body + sum + rest;
    assert data == Encode(st, crc) + rest;
    assert data == Header(st) + (EncodeFiles(st.files) + (sum + rest));
    HeaderAt(st, data, EncodeFiles(st.files) + (sum + rest));
    FilesAt(data, 28, st.files, sum + rest);
    var off := 28 + |EncodeFiles(st.files)|;
    assert data[..off] == body && data[off..off + 4] == sum;
    LE32(crc(body));
  }

  lemma HeaderAt(st: State, data: Data, rest: Data)
    requires Fits(st) && data == Header(st) + rest
    ensures |data| >= 28 && FromLE(data[0..4]) == MAGIC && FromLE(data[4..8]) == st.version
    ensures FromLE(data[8..16]) == st.nextFile && FromLE(data[16..24]) == st.logSeq
    ensures FromLE(data[24..28]) == |st.files| && data[28..] == rest
  {
    hide LE;
    LE32(MAGIC);
    LE32(st.version);
    LE64(st.nextFile);
    LE64(st.logSeq);
    LE32(|st.files|);
    HeaderFields(data, LE(MAGIC, 4), LE(st.version, 4), LE(st.nextFile, 8), LE(st.logSeq, 8), LE(|st.files|, 4), rest);
  }

  lemma HeaderFields(data: Data, m: Data, v: Data, n: Data, l: Data, c: Data, rest: Data)
    requires |m| == |v| == |c| == 4 && |n| == |l| == 8
    requires data == (m + (v + (n + (l + c)))) + rest
    ensures |data| >= 28 && data[0..4] == m && data[4..8] == v && data[8..16] == n && data[16..24] == l
    ensures data[24..28] == c && data[28..] == rest
  {
    assert data[0..] == data;
    Peel(data, 0, m, v + (n + (l + c)), rest);
    Peel(data, 4, v, n + (l + c), rest);
    Peel(data, 8, n, l + c, rest);
    Peel(data, 16, l, c, rest);
    assert c + rest == (c + []) + rest;
    Peel(data, 24, c, [], rest);
    assert [] + rest == rest;
  }

  // ---------- the store ----------

  function MaxFileSeq(fs: seq<FileMeta>): nat {
    if fs == [] then 0 else Max(MaxFileSeq(fs[..|fs| - 1]), fs[|fs| - 1].maxSeq)
  }

  /** The files not named in `names`, in their order. */
  function Without(fs: seq<FileMeta>, names: set<Data>): seq<FileMeta> {
    if fs == [] then []
    else
      var rest := Without(fs[..|fs| - 1], names);
      if fs[|fs| - 1].name in names then rest else rest + [fs[|fs| - 1]]
  }

  /** The largest number is that of some file, or zero for no files, and no file has a larger one. */
  lemma {:induction false} MaxFileSeqMet(fs: seq<FileMeta>)
    ensures forall f :: f in fs ==> f.maxSeq <= MaxFileSeq(fs)
    ensures if fs == [] then MaxFileSeq(fs) == 0 else exists f :: f in fs && f.maxSeq == MaxFileSeq(fs)
  {
    if fs != [] {
      var n := |fs| - 1;
      MaxFileSeqMet(fs[..n]);
      assert fs == fs[..n] + [fs[n]];
      if MaxFileSeq(fs) == fs[n].maxSeq {
        assert fs[n] in fs;
      } else if n > 0 {
        var f :| f in fs[..n] && f.maxSeq == MaxFileSeq(fs[..n]);
        assert f in fs;
      }
    }
  }

  class Manifest {
    var state: State
    ghost var trace: seq<State>     // the states persisted, in order

    constructor (loaded: Option<State>)
      ensures state == if loaded.Some? then loaded.value else State(VERSION, 1, 0, [])
      ensures trace == if loaded.Some? then [] else [state]
    {
      state := if loaded.Some? then loaded.value else State(VERSION, 1, 0, []);
      trace := if loaded.Some? then [] else [State(VERSION, 1, 0, [])];
    }

    /** The rename that makes the state durable, as one step. */
    method Persist()
      modifies this
      ensures state == old(state).(version := VERSION) && trace == old(trace) + [state]
    {
      state := state.(version := VERSION);
      trace := trace + [state];
    }

    method AllocFileName() returns (name: Data)
      modifies this
      ensures name == FileName(old(state.nextFile))
      ensures state == old(state).(nextFile := old(state.nextFile) + 1, version := VERSION)
      ensures trace == old(trace) + [state]
    {
      name := FileName(state.nextFile);
      state := state.(nextFile := state.nextFile + 1);
      Persist();
    }

    method AddFile(meta: FileMeta, logSeq: nat)
      modifies this
      ensures state == old(state).(files := old(state.files) + [meta], logSeq := Max(old(state.logSeq), logSeq),
        version := VERSION)
      ensures trace == old(trace) + [state]
    {
      state := state.(files := state.files + [meta]);
      if logSeq > state.logSeq {
        state := state.(logSeq := logSeq);
      }
      Persist();
    }

    method Replace(remove: seq<Data>, add: seq<FileMeta>, logSeq: nat)
      modifies this
      ensures state == old(state).(files := Without(old(state.files), Names(remove)) + add,
                                   logSeq := Max(old(state.logSeq), logSeq), version := VERSION)
      ensures trace == old(trace) + [state]
    {
      var rm: set<Data> := {};
      var i := 0;
      while i < |remove|
        invariant 0 <= i <= |remove| && rm == Names(remove[..i])
      {
        assert remove[..i + 1][..i] == remove[..i];
        rm := rm + {remove[i]};
        i := i + 1;
      }
      assert remove[..i] == remove;
      var kept: seq<FileMeta> := [];
      i := 0;
      while i < |state.files|
        invariant 0 <= i <= |state.files| && kept == Without(state.files[..i], rm)
      {
        assert state.files[..i + 1][..i] == state.files[..i];
        if state.files[i].name !in rm {
          kept := kept + [state.files[i]];
        }
        i := i + 1;
      }
      assert state.files[..i] == state.files;
      state := state.(files := kept + add);
      if logSeq > state.logSeq {
        state := state.(logSeq := logSeq);
      }
      Persist();
    }

    method SetLogSeq(seqno: nat)
      modifies this
      ensures state == old(state).(logSeq := Max(old(state.logSeq), seqno), version := VERSION)
      ensures trace == old(trace) + [state]
    {
      if seqno > state.logSeq {
        state := state.(logSeq := seqno);
      }
      Persist();
    }

    method MaxSeqAmongFiles() returns (max: nat)
      ensures max == MaxFileSeq(state.files)
    {
      max := 0;
      var i := 0;
      while i < |state.files|
        invariant 0 <= i <= |state.files| && max == MaxFileSeq(state.files[..i])
      {
        assert state.files[..i + 1][..i] == state.files[..i];
        if state.files[i].maxSeq > max {
          max := state.files[i].maxSeq;
        }
        i := i + 1;
      }
      assert state.files[..i] == state.files;
    }
  }

  function Names(names: seq<Data>): set<Data> {
    if names == [] then {} else Names(names[..|names| - 1]) + {names[|names| - 1]}
  }
}
