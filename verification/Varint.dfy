/**
 Base-128 varints (`internal/varintx`): seven payload bits a byte, least
 significant group first, the high bit set on every byte but the last.
 */
module Varint {
  import opened Bytes

  const MAX_UINT64_LEN: nat := 10

  datatype Error = Truncated | Overflow | ShortBuffer
  datatype Decoded = Value(x: nat, n: nat) | Failed(error: Error)

  /** The encoding of `x`. */
  function Encode(x: nat): (b: Data)
    ensures |b| >= 1
  {
    if x < 128 then [x] else [x % 128 + 128] + Encode(x / 128)
  }

  /** Base-128 value of the bytes `b`, ignoring continuation bits. */
  function Denote(b: Data): nat {
    if b == [] then 0 else b[0] % 128 + 128 * Denote(b[1..])
  }

  function Pow128(n: nat): (p: nat)
    ensures p > 0
  {
    if n == 0 then 1 else 128 * Pow128(n - 1)
  }

  /** What DecodeUint64 returns on `b` once `i` bytes have been read. */
  function DecodeFrom(b: Data, i: nat): Decoded {
    if b == [] then Failed(Truncated)
    else if i == MAX_UINT64_LEN then Failed(Overflow)
    else if b[0] < 128 then
      if i == MAX_UINT64_LEN - 1 && b[0] > 1 then Failed(Overflow) else Value(b[0], 1)
    else
      match DecodeFrom(b[1..], i + 1)
      case Value(x, n) => Value(b[0] - 128 + 128 * x, n + 1)
      case Failed(e) => Failed(e)
  }

  function Decode(b: Data): Decoded {
    DecodeFrom(b, 0)
  }

  /** A 64-bit register keeps the low 64 bits. */
  function Trunc64(x: nat): (r: nat) {
    x % TWO_64
  }

  lemma Powers()
    ensures Pow128(8) == 0x100_0000_0000_0000 && Pow128(9) == 0x8000_0000_0000_0000
  {
    assert Pow128(2) == 128 * 128;
    assert Pow128(4) == 128 * 128 * Pow128(2);
    assert Pow128(6) == 128 * 128 * Pow128(4);
  }

  lemma {:induction false} PowersGrow(i: nat)
    requires i <= 8
    ensures Pow128(i) <= Pow128(8)
    decreases 8 - i
  {
    if i < 8 {
      PowersGrow(i + 1);
    }
  }

  lemma Distribute(c: nat, v: nat, p: nat)
    ensures (c + 128 * v) * p == c * p + v * (128 * p)
  {
  }

  /** A group the decoder keeps never loses bits to the 64-bit shift. */
  lemma {:induction false} GroupFits(c: nat, i: nat)
    requires i < MAX_UINT64_LEN && c < 128 && (i == MAX_UINT64_LEN - 1 ==> c <= 1)
    ensures Trunc64(c * Pow128(i)) == c * Pow128(i) < TWO_64
  {
    Powers();
    if i <= 8 {
      PowersGrow(i);
      MulMonotone(c, 127, Pow128(i), Pow128(8));
    }
  }

  lemma MulMonotone(a: nat, b: nat, c: nat, d: nat)
    requires a <= b && c <= d
    ensures a * c <= b * d
  {
    assert b * d - a * c == (b - a) * d + a * (d - c);
  }

  // ---------- the loops of the source (arguments of 64 bits or more) ----------

  method SizeUint64(x0: nat) returns (n: nat)
    ensures n == |Encode(x0)|
  {
    var x: nat := x0;
    n := 1;
    x := x / 128;
    while x != 0
      invariant n + (if x == 0 then 0 else |Encode(x)|) == |Encode(x0)|
    {
      n := n + 1;
      x := x / 128;
    }
  }

  method EncodeUint64(dst: Data, x0: nat) returns (r: Data)
    ensures r == dst + Encode(x0)
  {
    var x: nat := x0;
    r := dst;
    while x >= 128
      invariant r + Encode(x) == dst + Encode(x0)
    {
      r := r + [x % 128 + 128];
      x := x / 128;
    }
    r := r + [x];
  }

  /** Writes into `b` in place; a buffer that is too short is left alone. */
  method PutUint64(b: array<Byte>, x0: nat) returns (n: Decoded)
    modifies b
    ensures b.Length < |Encode(x0)| ==> n == Failed(ShortBuffer) && b[..] == old(b[..])
    ensures b.Length >= |Encode(x0)| ==>
      n == Value(x0, |Encode(x0)|) && b[..] == Encode(x0) + old(b[..])[|Encode(x0)|..]
  {
    var need := SizeUint64(x0);
    if b.Length < need {
      return Failed(ShortBuffer);
    }
    var i, x: nat := 0, x0;
    ghost var enc, tail := Encode(x0), b[..];
    while x >= 128
      invariant i < |enc| && Encode(x) == enc[i..]
      invariant b[..i] == enc[..i] && b[i..] == tail[i..]
    {
      ghost var before := b[..];
      b[i] := x % 128 + 128;
      assert enc[i] == Encode(x)[0] && Encode(x)[1..] == enc[i + 1..];
      assert b[..] == before[i := enc[i]];
      assert b[..i + 1] == before[..i] + [enc[i]] && b[i + 1..] == before[i..][1..];
      x := x / 128;
      i := i + 1;
    }
    ghost var before := b[..];
    b[i] := x;
    assert |Encode(x)| == 1 && Encode(x)[0] == enc[i];
    assert b[..] == before[i := enc[i]];
    assert before[..i] + [enc[i]] == enc && before[i..][1..] == tail[i + 1..];
    assert b[..] == enc + tail[i + 1..];
    return Value(x0, i + 1);
  }

  /**
   `x | uint64(c)<<s` is written as an addition because the shifted group is disjoint
   from the bits below `s`; the shift is truncated to 64 bits as in the source.
   */
  method DecodeUint64(b: Data) returns (r: Decoded)
    ensures r == Decode(b)
  {
    hide Decode, Denote, Trunc64, Pow128;
    EmptyPrefix(b);
    var x: nat, p: nat, i: nat := 0, 1, 0;    // p is 1 << s
    while i < |b|
      invariant i <= |b| && i <= MAX_UINT64_LEN
      invariant forall j :: 0 <= j < i ==> b[j] >= 128
      invariant p == Pow128(i)
      invariant i < MAX_UINT64_LEN ==> x == Denote(b[..i])
    {
      var c := b[i];
      if i == MAX_UINT64_LEN {
        NoLastByte(b);
        return Failed(Overflow);
      }
      if c < 128 {
        LastByte(b, i);
        if i == MAX_UINT64_LEN - 1 && c > 1 {
          return Failed(Overflow);
        }
        return Value(x + Trunc64(c * p), i + 1);
      }
      if i < MAX_UINT64_LEN - 1 {
        MiddleByte(b, i);
      }
      x := x + Trunc64((c - 128) * p);
      NextPower(i);
      p := 128 * p;
      i := i + 1;
    }
    NoLastByte(b);
    return Failed(Truncated);
  }

  lemma NextPower(i: nat)
    ensures Pow128(i + 1) == 128 * Pow128(i)
  {
  }

  lemma EmptyPrefix(b: Data)
    ensures Denote(b[..0]) == 0 && Pow128(0) == 1
  {
  }

  lemma {:induction false} LastByte(b: Data, i: nat)
    requires i < |b| && i < MAX_UINT64_LEN && b[i] < 128 && forall j :: 0 <= j < i ==> b[j] >= 128
    ensures Decode(b) == if i == MAX_UINT64_LEN - 1 && b[i] > 1 then Failed(Overflow)
                         else Value(Denote(b[..i]) + Trunc64(b[i] * Pow128(i)), i + 1)
  {
    hide Trunc64;
    assert Denote(b[..i + 1]) * Pow128(0) == Denote(b[..i + 1]);
    DenoteAppend(b, i);
    TerminatedFrom(b, i + 1, 0);
    LastGroup(b, i);
    if i < MAX_UINT64_LEN - 1 || b[i] <= 1 {
      GroupFits(b[i], i);
    }
  }

  lemma {:induction false} MiddleByte(b: Data, i: nat)
    requires i < |b| && i < MAX_UINT64_LEN - 1 && b[i] >= 128
    ensures Denote(b[..i + 1]) == Denote(b[..i]) + Trunc64((b[i] - 128) * Pow128(i))
  {
    hide Trunc64;
    DenoteAppend(b, i);
    GroupFits(b[i] - 128, i);
  }

  lemma NoLastByte(b: Data)
    requires forall j :: 0 <= j < |b| && j < MAX_UINT64_LEN ==> b[j] >= 128
    ensures Decode(b) == Failed(if |b| > MAX_UINT64_LEN then Overflow else Truncated)
  {
    Unterminated(b, 0);
  }

  lemma {:induction false} DenoteAppend(b: Data, i: nat)
    requires i < |b|
    ensures Denote(b[..i + 1]) == Denote(b[..i]) + (b[i] % 128) * Pow128(i)
    ensures Denote(b[..i]) < Pow128(i)
  {
    if i != 0 {
      DenoteAppend(b[1..], i - 1);
      assert b[..i + 1][1..] == b[1..][..i] && b[..i][1..] == b[1..][..i - 1];
      var c, p := b[i] % 128, Pow128(i - 1);
      assert 128 * (c * p) == c * (128 * p);
    }
  }

  lemma LastGroup(b: Data, i: nat)
    requires i < |b| && i < MAX_UINT64_LEN && b[i] < 128
    ensures Denote(b[..i + 1]) < TWO_64 <==> i < MAX_UINT64_LEN - 1 || b[i] <= 1
  {
    DenoteAppend(b, i);
    Powers();
    if i < MAX_UINT64_LEN - 1 {
      PowersGrow(i);
      MulMonotone(b[i], 127, Pow128(i), Pow128(8));
    }
  }

  lemma {:induction false} Unterminated(b: Data, i: nat)
    requires i <= MAX_UINT64_LEN
    requires forall j :: 0 <= j < |b| && j < MAX_UINT64_LEN - i ==> b[j] >= 128
    ensures DecodeFrom(b, i) == Failed(if |b| > MAX_UINT64_LEN - i then Overflow else Truncated)
  {
    if b != [] && i < MAX_UINT64_LEN {
      Unterminated(b[1..], i + 1);
    }
  }

  datatype Skipped = Skipped(n: nat) | Stopped(error: Error)

  function SkipFrom(b: Data, i: nat): Skipped {
    if b == [] then Stopped(Truncated)
    else if i >= MAX_UINT64_LEN then Stopped(Overflow)
    else if b[0] < 128 then Skipped(i + 1)
    else SkipFrom(b[1..], i + 1)
  }

  method Skip(b: Data) returns (r: Skipped)
    ensures r == SkipFrom(b, 0)
  {
    var i := 0;
    while i < |b|
      invariant i <= |b|
      invariant SkipFrom(b[i..], i) == SkipFrom(b, 0)
    {
      if i >= MAX_UINT64_LEN {
        return Stopped(Overflow);
      }
      if b[i] < 128 {
        return Skipped(i + 1);
      }
      assert b[i..][1..] == b[i + 1..];
      i := i + 1;
    }
    return Stopped(Truncated);
  }

  // ---------- what the codec promises ----------

  /** An encoding has no more bytes than its number needs. */
  lemma {:induction false} Shortest(x: nat)
    ensures var n := |Encode(x)|;
            && x < Pow128(n) && (n > 1 ==> Pow128(n - 1) <= x)
            && (forall i :: 0 <= i < n ==> (Encode(x)[i] >= 128 <==> i + 1 < n))
            && Denote(Encode(x)) == x
  {
    if x >= 128 {
      Shortest(x / 128);
      var n, y := |Encode(x)|, x / 128;
      assert Encode(x)[1..] == Encode(y);
      assert x < 128 * (y + 1) && 128 * y <= x;
      assert n > 2 ==> Pow128(n - 1) == 128 * Pow128(n - 2);
    } else {
      assert Pow128(1) == 128 * Pow128(0);
      assert Denote(Encode(x)) == Encode(x)[0] % 128 + 128 * Denote(Encode(x)[1..]);
    }
  }

  /** Decoding an encoding followed by anything gives the number and its size back. */
  lemma RoundTrip(x: U64, rest: Data)
    ensures Decode(Encode(x) + rest) == Value(x, |Encode(x)|)
    ensures |Encode(x)| <= MAX_UINT64_LEN
  {
    assert x * Pow128(0) == x;
    RoundTripFrom(x, rest, 0);
  }

  lemma {:induction false} RoundTripFrom(x: nat, rest: Data, i: nat)
    requires i < MAX_UINT64_LEN && x * Pow128(i) < TWO_64
    ensures DecodeFrom(Encode(x) + rest, i) == Value(x, |Encode(x)|)
    ensures i + |Encode(x)| <= MAX_UINT64_LEN
  {
    Powers();
    var b := Encode(x) + rest;
    if x < 128 {
      assert b[0] == x;
    } else {
      var q := x / 128;
      assert x == 128 * q + x % 128;
      assert x * Pow128(i) == q * Pow128(i + 1) + (x % 128) * Pow128(i);
      assert i < MAX_UINT64_LEN - 1;
      assert b[1..] == Encode(q) + rest;
      RoundTripFrom(q, rest, i + 1);
    }
  }

  /** The first `n` bytes of `b` form one varint: a continuation bit on all but the last. */
  predicate Terminated(b: Data, n: nat) {
    1 <= n <= |b| && (forall j :: 0 <= j < n - 1 ==> b[j] >= 128) && b[n - 1] < 128
  }

  /** Acceptance is exact: at most ten bytes, and the number they denote fits 64 bits. */
  lemma Accepted(b: Data, x: nat, n: nat)
    ensures Decode(b) == Value(x, n) <==>
            Terminated(b, n) && n <= MAX_UINT64_LEN && x == Denote(b[..n]) && x < TWO_64
  {
    if Terminated(b, n) {
      assert Denote(b[..n]) * Pow128(0) == Denote(b[..n]);
      TerminatedFrom(b, n, 0);
    }
    if Decode(b).Value? {
      ValueTerminated(b, 0);
      TerminatedFrom(b, Decode(b).n, 0);
    }
  }

  lemma {:induction false} ValueTerminated(b: Data, i: nat)
    requires DecodeFrom(b, i).Value?
    ensures Terminated(b, DecodeFrom(b, i).n)
  {
    if b[0] >= 128 {
      ValueTerminated(b[1..], i + 1);
    }
  }

  lemma {:induction false} TerminatedFrom(b: Data, n: nat, i: nat)
    requires Terminated(b, n) && i < MAX_UINT64_LEN
    ensures DecodeFrom(b, i) ==
            if i + n <= MAX_UINT64_LEN && Denote(b[..n]) * Pow128(i) < TWO_64
            then Value(Denote(b[..n]), n) else Failed(Overflow)
  {
    assert b[..n][1..] == b[1..][..n - 1];
    var c := b[0] % 128;
    if b[0] < 128 {
      assert n == 1 && Denote(b[..n]) == c;
      LastFits(c, i);
    } else {
      var v := Denote(b[1..][..n - 1]);
      Distribute(c, v, Pow128(i));
      if i < MAX_UINT64_LEN - 1 {
        TerminatedFrom(b[1..], n - 1, i + 1);
        CarryFits(c, v, i);
      }
    }
  }

  lemma LastFits(c: nat, i: nat)
    requires c < 128 && i < MAX_UINT64_LEN
    ensures c * Pow128(i) < TWO_64 <==> i < MAX_UINT64_LEN - 1 || c <= 1
  {
    Powers();
    if i < MAX_UINT64_LEN - 1 {
      GroupFits(c, i);
    }
  }

  /** Adding one more low group keeps a number within 64 bits exactly when it was. */
  lemma CarryFits(c: nat, v: nat, i: nat)
    requires c < 128 && i < MAX_UINT64_LEN - 1
    ensures c * Pow128(i) + v * Pow128(i + 1) < TWO_64 <==> v * Pow128(i + 1) < TWO_64
  {
    var p := Pow128(i + 1);
    var m := 2 * Pow128(8 - i);
    PowSplit(i + 1);
    Powers();
    assert p * m == TWO_64;
    MulMonotone(c, 128, Pow128(i), Pow128(i));
    if v < m {
      MulMonotone(v + 1, m, p, p);
    } else {
      MulMonotone(m, v, p, p);
    }
  }

  lemma {:induction false} PowSplit(i: nat)
    requires i < MAX_UINT64_LEN
    ensures Pow128(i) * Pow128(9 - i) == Pow128(9)
  {
    if i != 0 {
      PowSplit(i - 1);
    }
  }

  /**
   Skip and Decode consume the same bytes, except that Skip also passes over a ten-byte
   varint whose value does not fit 64 bits.
   */
  lemma SkipAgrees(b: Data, n: nat)
    ensures SkipFrom(b, 0) == Skipped(n) <==> Terminated(b, n) && n <= MAX_UINT64_LEN
    ensures SkipFrom(b, 0) == Skipped(n) <==>
            (Decode(b).Value? && Decode(b).n == n)
            || (n == MAX_UINT64_LEN && Terminated(b, n) && Denote(b[..n]) >= TWO_64)
  {
    SkipTerminated(b, 0, n);
    if Terminated(b, n) && n <= MAX_UINT64_LEN {
      LastGroup(b, n - 1);
      Accepted(b, Denote(b[..n]), n);
    }
    if Decode(b).Value? {
      Accepted(b, Decode(b).x, Decode(b).n);
    }
  }

  lemma {:induction false} SkipTerminated(b: Data, i: nat, n: nat)
    ensures SkipFrom(b, i) == Skipped(i + n) <==> Terminated(b, n) && i + n <= MAX_UINT64_LEN
  {
    if b != [] && i < MAX_UINT64_LEN && b[0] >= 128 {
      if n == 0 {
        SkipBeyond(b[1..], i + 1);
      } else {
        SkipTerminated(b[1..], i + 1, n - 1);
        assert Terminated(b, n) <==> n >= 2 && Terminated(b[1..], n - 1);
      }
    }
  }

  lemma {:induction false} SkipBeyond(b: Data, i: nat)
    ensures SkipFrom(b, i).Skipped? ==> SkipFrom(b, i).n > i
  {
    if b != [] && b[0] >= 128 {
      SkipBeyond(b[1..], i + 1);
    }
  }

  // ---------- fields of a record ----------

  /** The varint at offset `off` of a buffer and the offset after it. */
  function Field(b: Data, off: nat): (r: Option<(nat, nat)>)
    ensures r.Some? ==> off < r.value.1 <= |b|
  {
    if off > |b| || !Decode(b[off..]).Value? then None
    else
      var d := Decode(b[off..]);
      Accepted(b[off..], d.x, d.n);
      Some((d.x, off + d.n))
  }

  method ReadField(b: Data, off: nat) returns (r: Option<(nat, nat)>)
    requires off <= |b|
    ensures r == Field(b, off)
  {
    var d := DecodeUint64(b[off..]);
    match d {
      case Value(x, n) =>
        Accepted(b[off..], x, n);
        return Some((x, off + n));
      case Failed(_) =>
        return None;
    }
  }

  /** Reading an encoded field and moving past it. */
  lemma FieldAt(b: Data, off: nat, x: nat, y: Data, rest: Data) returns (next: nat)
    requires off <= |b| && x < TWO_64 && b[off..] == (Encode(x) + y) + rest
    ensures Field(b, off) == Some((x, next))
    ensures next == off + |Encode(x)| <= |b| && b[next..] == y + rest
  {
    next := off + |Encode(x)|;
    assert b[off..] == Encode(x) + (y + rest);
    RoundTrip(x, y + rest);
    Peel(b, off, Encode(x), y, rest);
  }

  // ---------- ZigZag ----------

  /** `uint64((x << 1) ^ (x >> 63))`; the arithmetic shift of the source is `-(x >> 63)` here. */
  function ZigZagEncode(x: bv64): bv64 {
    (x << 1) ^ (0 - (x >> 63))
  }

  function ZigZagDecode(u: bv64): bv64 {
    (u >> 1) ^ (0 - (u & 1))
  }

  /** Numbers from 0 up become the even ones, and -1, -2, and so on the odd ones. */
  lemma ZigZagMeans(x: bv64)
    ensures x < 0x8000_0000_0000_0000 ==> ZigZagEncode(x) == x + x
    ensures x >= 0x8000_0000_0000_0000 ==> ZigZagEncode(x) == (0 - x) + (0 - x) - 1
  {
  }

  /** A bijection: each map undoes the other on all 64-bit words. */
  lemma ZigZagBijection(x: bv64)
    ensures ZigZagDecode(ZigZagEncode(x)) == x
    ensures ZigZagEncode(ZigZagDecode(x)) == x
  {
  }
}
