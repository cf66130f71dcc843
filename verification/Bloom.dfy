/**
 The Bloom filter (`internal/bloomx`): bits set by double hashing, merged by bitwise or,
 and stored in a table file.

 The hash pair of a key and the sizing of a filter (floating point in the source) are
 arbitrary functions.
 */
module Bloom {
  import opened Bytes

  const MAGIC: nat := 0xB100F11E
  const VERSION: nat := 1
  const HEADER: nat := 25

  /** A bit count and a number of hash functions, as New computes them from a key count. */
  type Size = p: (nat, nat) | 1 <= p.0 < TWO_64 - 7 && 1 <= p.1 < TWO_32 witness (64, 1)

  datatype Hashing = Hashing(pair: Data -> (U64, U64), size: nat -> Size)

  // ---------- bits of a byte ----------

  predicate Bit(b: nat, j: nat) {
    if j == 0 then b % 2 == 1 else Bit(b / 2, j - 1)
  }

  function Or(a: nat, b: nat): (c: nat)
    ensures c == 0 ==> a == 0 && b == 0
  {
    if a == 0 then b
    else if b == 0 then a
    else (if a % 2 == 1 || b % 2 == 1 then 1 else 0) + 2 * Or(a / 2, b / 2)
  }

  function Shift(j: nat): (p: nat)
    ensures p > 0
  {
    if j == 0 then 1 else 2 * Shift(j - 1)
  }

  lemma {:induction false} OrBit(a: nat, b: nat, j: nat)
    ensures Bit(Or(a, b), j) <==> Bit(a, j) || Bit(b, j)
  {
    if a == 0 {
      ZeroBit(j);
    } else if b == 0 {
      ZeroBit(j);
    } else if j != 0 {
      OrBit(a / 2, b / 2, j - 1);
    }
  }

  lemma ZeroBit(j: nat)
    ensures !Bit(0, j)
  {
  }

  lemma {:induction false} ShiftBit(i: nat, j: nat)
    ensures Bit(Shift(i), j) <==> i == j
  {
    if i == 0 && j != 0 {
      ZeroBit(j - 1);
    } else if i != 0 && j != 0 {
      ShiftBit(i - 1, j - 1);
    }
  }

  lemma {:induction false} OrBound(a: nat, b: nat, n: nat)
    requires a < Shift(n) && b < Shift(n)
    ensures Or(a, b) < Shift(n)
  {
    if a != 0 && b != 0 {
      OrBound(a / 2, b / 2, n - 1);
    }
  }

  function OrByte(a: Byte, b: Byte): Byte {
    assert Shift(8) == 256;
    OrBound(a, b, 8);
    Or(a, b)
  }

  lemma {:induction false} ShiftBound(i: nat, n: nat)
    requires i < n
    ensures Shift(i) < Shift(n)
  {
    if i != 0 {
      ShiftBound(i - 1, n - 1);
    }
  }

  function OneBit(j: nat): Byte
    requires j < 8
  {
    assert Shift(8) == 256;
    ShiftBound(j, 8);
    Shift(j)
  }

  // ---------- bit arrays ----------

  function Bytes8(m: nat): nat {
    (m + 7) / 8
  }

  predicate Test(bits: Data, p: nat) {
    p / 8 < |bits| && Bit(bits[p / 8], p % 8)
  }

  function Mark(bits: Data, p: nat): (r: Data)
    requires p / 8 < |bits|
    ensures |r| == |bits|
  {
    bits[p / 8 := OrByte(bits[p / 8], OneBit(p % 8))]
  }

  lemma TestMark(bits: Data, p: nat, q: nat)
    requires p / 8 < |bits| && q / 8 < |bits|
    ensures Test(Mark(bits, p), q) <==> p == q || Test(bits, q)
  {
    if p / 8 == q / 8 {
      OrBit(bits[p / 8], Shift(p % 8), q % 8);
      ShiftBit(p % 8, q % 8);
    }
  }

  /** The `i`-th probe: `(h1 + uint64(i)*h2) % m`, both operations wrapping at 64 bits. */
  function Probe(h: (U64, U64), i: nat, m: nat): (p: nat)
    requires m > 0
    ensures p < m
  {
    ((h.0 + (i * h.1) % TWO_64) % TWO_64) % m
  }

  lemma ProbeByte(p: nat, m: nat)
    requires p < m
    ensures p / 8 < Bytes8(m)
  {
  }

  function MarkAll(bits: Data, h: (U64, U64), m: nat, n: nat): (r: Data)
    requires m > 0 && |bits| == Bytes8(m)
    ensures |r| == |bits|
  {
    if n == 0 then bits
    else
      var p := Probe(h, n - 1, m);
      ProbeByte(p, m);
      Mark(MarkAll(bits, h, m, n - 1), p)
  }

  /** Adding a key sets the bits it is probed at and no others. */
  lemma {:induction false} TestMarkAll(bits: Data, h: (U64, U64), m: nat, n: nat, q: nat)
    requires m > 0 && |bits| == Bytes8(m) && q < m
    ensures Test(MarkAll(bits, h, m, n), q) <==> Test(bits, q) || exists i: nat :: i < n && Probe(h, i, m) == q
  {
    if n != 0 {
      TestMarkAll(bits, h, m, n - 1, q);
      var p := Probe(h, n - 1, m);
      ProbeByte(p, m);
      TestMark(MarkAll(bits, h, m, n - 1), p, q);
    }
  }

  function OrAll(a: Data, b: Data): (r: Data)
    requires |a| == |b|
    ensures |r| == |a| && forall i :: 0 <= i < |a| ==> r[i] == OrByte(a[i], b[i])
  {
    if a == [] then [] else [OrByte(a[0], b[0])] + OrAll(a[1..], b[1..])
  }

  lemma TestOrAll(a: Data, b: Data, q: nat)
    requires |a| == |b| && q / 8 < |a|
    ensures Test(OrAll(a, b), q) <==> Test(a, q) || Test(b, q)
  {
    OrBit(a[q / 8], b[q / 8], q % 8);
  }

  /** A filter as a value: what is written into a table file. */
  datatype Image = Image(bits: Data, m: nat, k: nat, added: nat) {
    ghost predicate Valid() {
      1 <= m < TWO_64 - 7 && k < TWO_32 && added < TWO_64 && |bits| == Bytes8(m)
    }
  }

  predicate MayContain(f: Image, h: (U64, U64))
    requires f.m > 0
  {
    forall i: nat :: i < f.k ==> Test(f.bits, Probe(h, i, f.m))
  }

  method Probes(f: Image, h: (U64, U64)) returns (b: bool)
    requires f.Valid()
    ensures b <==> MayContain(f, h)
  {
    var i := 0;
    while i < f.k
      invariant 0 <= i <= f.k
      invariant forall j: nat :: j < i ==> Test(f.bits, Probe(h, j, f.m))
    {
      var p := Probe(h, i, f.m);
      ProbeByte(p, f.m);
      if !Test(f.bits, p) {
        return false;
      }
      i := i + 1;
    }
    return true;
  }

  class Filter {
    const hash: Data -> (U64, U64)
    const m: nat
    const k: nat
    const bits: array<Byte>
    var added: nat

    ghost predicate Valid()
      reads this, bits
    {
      View().Valid()
    }

    ghost function View(): Image
      reads this, bits
    {
      Image(bits[..], m, k, added)
    }

    constructor (n: nat, hashing: Hashing)
      ensures Valid() && fresh(bits) && hash == hashing.pair
      ensures (m, k) == hashing.size(if n == 0 then 1 else n)
      ensures View() == Empty(n, hashing)
    {
      var size := hashing.size(if n == 0 then 1 else n);
      hash := hashing.pair;
      m := size.0;
      k := size.1;
      bits := new Byte[Bytes8(size.0)](i => 0);
      added := 0;
      new;
      assert bits[..] == seq(Bytes8(m), i => 0);
    }

    method SetBit(p: nat)
      requires p / 8 < bits.Length
      modifies bits
      ensures bits[..] == Mark(old(bits[..]), p)
    {
      bits[p / 8] := OrByte(bits[p / 8], OneBit(p % 8));
    }

    method Add(key: Data)
      requires Valid()
      modifies bits, this`added
      ensures Valid() && View() == Added(old(View()), hash(key))
      ensures forall p: nat :: p < m ==>
        (Test(bits[..], p) <==> old(Test(bits[..], p)) || exists i: nat :: i < k && IthBit(hash(key), i, m, p))
    {
      AddedBits(View(), hash(key));
      var h := hash(key);
      var i := 0;
      while i < k
        invariant 0 <= i <= k
        invariant bits[..] == MarkAll(old(bits[..]), h, m, i) && added == old(added)
      {
        ProbeByte(Probe(h, i, m), m);
        SetBit(Probe(h, i, m));
        i := i + 1;
      }
      added := (added + 1) % TWO_64;
    }

    /** Unions another filter into this one; filters of different shape are refused. */
    method Merge(other: Filter) returns (ok: bool)
      requires Valid() && other.Valid()
      modifies bits, this`added
      ensures Valid() && (ok <==> m == other.m && k == other.k)
      ensures View() == if ok then Merged(old(View()), old(other.View())) else old(View())
    {
      if m != other.m || k != other.k || bits.Length != other.bits.Length {
        return false;
      }
      ghost var a, b := bits[..], other.bits[..];
      var n := other.added;
      for i := 0 to bits.Length
        invariant forall j :: 0 <= j < i ==> bits[j] == OrByte(a[j], b[j])
        invariant forall j :: i <= j < bits.Length ==> bits[j] == a[j] && other.bits[j] == b[j]
        invariant added == old(added)
      {
        bits[i] := OrByte(bits[i], other.bits[i]);
      }
      assert bits[..] == OrAll(a, b);
      added := (added + n) % TWO_64;
      return true;
    }

    method Reset()
      requires Valid()
      modifies bits, this`added
      ensures Valid() && View() == old(View()).(bits := seq(Bytes8(m), i => 0), added := 0)
    {
      for i := 0 to bits.Length
        invariant forall j :: 0 <= j < i ==> bits[j] == 0
      {
        bits[i] := 0;
      }
      added := 0;
      assert bits[..] == seq(Bytes8(m), i => 0);
    }

    method Contains(key: Data) returns (b: bool)
      requires Valid()
      ensures b <==> MayContain(View(), hash(key))
      ensures b <==> forall i: nat, p: nat :: i < k && IthBit(hash(key), i, m, p) ==> Test(bits[..], p)
    {
      ContainedBits(View(), hash(key));
      b := Probes(Image(bits[..], m, k, added), hash(key));
    }
  }

  // ---------- filters as values ----------

  function Empty(n: nat, hashing: Hashing): (f: Image)
    ensures f.Valid()
  {
    var size := hashing.size(if n == 0 then 1 else n);
    Image(seq(Bytes8(size.0), i => 0), size.0, size.1, 0)
  }

  function Added(f: Image, h: (U64, U64)): (r: Image)
    requires f.Valid()
    ensures r.Valid()
  {
    f.(bits := MarkAll(f.bits, h, f.m, f.k), added := (f.added + 1) % TWO_64)
  }

  function Merged(f: Image, g: Image): (r: Image)
    requires f.Valid() && g.Valid() && f.m == g.m
    ensures r.Valid()
  {
    f.(bits := OrAll(f.bits, g.bits), added := (f.added + g.added) % TWO_64)
  }

  lemma AddedContains(f: Image, h: (U64, U64), h': (U64, U64))
    requires f.Valid() && (h == h' || MayContain(f, h'))
    ensures MayContain(Added(f, h), h')
  {
    forall i: nat | i < f.k
      ensures Test(Added(f, h).bits, Probe(h', i, f.m))
    {
      TestMarkAll(f.bits, h, f.m, f.k, Probe(h', i, f.m));
    }
  }

  lemma MergedContains(f: Image, g: Image, h: (U64, U64))
    requires f.Valid() && g.Valid() && f.m == g.m && f.k == g.k
    requires MayContain(f, h) || MayContain(g, h)
    ensures MayContain(Merged(f, g), h)
  {
    forall i: nat | i < f.k
      ensures Test(Merged(f, g).bits, Probe(h, i, f.m))
    {
      ProbeByte(Probe(h, i, f.m), f.m);
      TestOrAll(f.bits, g.bits, Probe(h, i, f.m));
    }
  }

  // ---------- what a filter contains, exactly ----------

  /** Bit `p` is bit `p % 8`, counted from the lowest, of byte `p / 8`. */
  lemma BitPlace(bits: Data, p: nat)
    ensures Test(bits, p) <==> p / 8 < |bits| && bits[p / 8] / [1, 2, 4, 8, 16, 32, 64, 128][p % 8] % 2 == 1
  {
    if p / 8 < |bits| {
      BitValue(bits[p / 8], p % 8);
    }
  }

  lemma BitValue(b: nat, j: nat)
    requires j < 8
    ensures Bit(b, j) <==> b / [1, 2, 4, 8, 16, 32, 64, 128][j] % 2 == 1
  {
    BitPower(b, j);
    assert Shift(3) == 8 && Shift(6) == 8 * Shift(3);
  }

  lemma {:induction false} BitPower(b: nat, j: nat)
    ensures Bit(b, j) <==> b / Shift(j) % 2 == 1
  {
    if j != 0 {
      BitPower(b / 2, j - 1);
      HalfFirst(b, Shift(j - 1));
    }
  }

  lemma HalfFirst(b: nat, p: nat)
    requires p > 0
    ensures b / 2 / p == b / (2 * p)
  {
    var q := b / 2 / p;
    assert b == 2 * (p * q + b / 2 % p) + b % 2;
    assert 2 * (p * q) == (2 * p) * q;
    DivModUnique(b, 2 * p, q, 2 * (b / 2 % p) + b % 2);
  }

  /** Bit `p` is the `i`-th that a key with hash pair `h` sets in a filter of `m` bits. */
  predicate IthBit(h: (U64, U64), i: nat, m: nat, p: nat) {
    m > 0 && p == (h.0 + i * h.1 % 0x1_0000_0000_0000_0000) % 0x1_0000_0000_0000_0000 % m
  }

  /** Some key added has bit `p` among the `k` it sets. */
  ghost predicate Touched(keys: set<Data>, hashing: Hashing, k: nat, m: nat, p: nat) {
    exists key, j: nat :: key in keys && j < k && IthBit(hashing.pair(key), j, m, p)
  }

  lemma ProbeIs(h: (U64, U64), i: nat, m: nat, p: nat)
    requires m > 0
    ensures IthBit(h, i, m, p) <==> p == Probe(h, i, m)
  {
  }

  lemma AddedBits(f: Image, h: (U64, U64))
    requires f.Valid()
    ensures forall p: nat :: p < f.m ==>
      (Test(Added(f, h).bits, p) <==> Test(f.bits, p) || exists i: nat :: i < f.k && IthBit(h, i, f.m, p))
  {
    hide Test, MarkAll, Probe, IthBit;
    forall p: nat | p < f.m
      ensures Test(Added(f, h).bits, p) <==> Test(f.bits, p) || exists i: nat :: i < f.k && IthBit(h, i, f.m, p)
    {
      TestMarkAll(f.bits, h, f.m, f.k, p);
      forall i: nat
        ensures IthBit(h, i, f.m, p) <==> p == Probe(h, i, f.m)
      {
        ProbeIs(h, i, f.m, p);
      }
    }
  }

  lemma ContainedBits(f: Image, h: (U64, U64))
    requires f.Valid()
    ensures MayContain(f, h) <==> forall i: nat, p: nat :: i < f.k && IthBit(h, i, f.m, p) ==> Test(f.bits, p)
  {
    hide Test, Probe, IthBit;
    forall i: nat, p: nat | IthBit(h, i, f.m, p)
      ensures p == Probe(h, i, f.m)
    {
      ProbeIs(h, i, f.m, p);
    }
    forall i: nat | i < f.k
      ensures IthBit(h, i, f.m, Probe(h, i, f.m))
    {
      ProbeIs(h, i, f.m, Probe(h, i, f.m));
    }
    if MayContain(f, h) {
      forall i: nat, p: nat | i < f.k && IthBit(h, i, f.m, p)
        ensures Test(f.bits, p)
      {
        assert Test(f.bits, Probe(h, i, f.m));
      }
    }
    if forall i: nat, p: nat :: i < f.k && IthBit(h, i, f.m, p) ==> Test(f.bits, p) {
      forall i: nat | i < f.k
        ensures Test(f.bits, Probe(h, i, f.m))
      {
        assert IthBit(h, i, f.m, Probe(h, i, f.m));
      }
    }
  }

  lemma EmptyBits(n: nat, p: nat)
    ensures !Test(seq(n, i => 0), p)
  {
    ZeroBit(p % 8);
  }

  /** The bits set in a built filter are those of the keys added, and no others. */
  lemma {:induction false} BitsOfBuild(b: Build, hashing: Hashing, p: nat)
    requires p < Result(b, hashing).m
    ensures var f := Result(b, hashing); Test(f.bits, p) <==> Touched(Keys(b, hashing), hashing, f.k, f.m, p)
  {
    hide Test, MarkAll, OrAll, Probe, IthBit;
    var f := Result(b, hashing);
    match b
    case Start(n) =>
      EmptyBits(|f.bits|, p);
      assert f.bits == seq(|f.bits|, i => 0);
    case Add(c, key) =>
      var g, h := Result(c, hashing), hashing.pair(key);
      BitsOfBuild(c, hashing, p);
      TestMarkAll(g.bits, h, g.m, g.k, p);
      forall i: nat
        ensures IthBit(h, i, g.m, p) <==> p == Probe(h, i, g.m)
      {
        ProbeIs(h, i, g.m, p);
      }
      assert key in Keys(b, hashing);
    case Join(c, d) =>
      var g, h := Result(c, hashing), Result(d, hashing);
      BitsOfBuild(c, hashing, p);
      if g.m == h.m && g.k == h.k {
        BitsOfBuild(d, hashing, p);
        ProbeByte(p, g.m);
        TestOrAll(g.bits, h.bits, p);
      }
  }

  /**
   A filter says that it may contain a key if and only if each of the key's bits is also a
   bit of some key added.
   */
  lemma ContainsExactly(b: Build, hashing: Hashing, h: (U64, U64))
    ensures var f := Result(b, hashing);
            MayContain(f, h) <==>
              forall i: nat, p :: i < f.k && IthBit(h, i, f.m, p) ==> Touched(Keys(b, hashing), hashing, f.k, f.m, p)
  {
    hide Test, Probe, IthBit, Touched;
    var f := Result(b, hashing);
    forall i: nat
      ensures Test(f.bits, Probe(h, i, f.m)) <==> Touched(Keys(b, hashing), hashing, f.k, f.m, Probe(h, i, f.m))
      ensures IthBit(h, i, f.m, Probe(h, i, f.m))
    {
      BitsOfBuild(b, hashing, Probe(h, i, f.m));
      ProbeIs(h, i, f.m, Probe(h, i, f.m));
    }
    forall i: nat, p: nat | IthBit(h, i, f.m, p)
      ensures p == Probe(h, i, f.m)
    {
      ProbeIs(h, i, f.m, p);
    }
  }

  /** A filter with no key in it contains nothing. */
  lemma EmptyContainsNothing(n: nat, hashing: Hashing, h: (U64, U64))
    ensures !MayContain(Empty(n, hashing), h)
  {
    EmptyBits(|Empty(n, hashing).bits|, Probe(h, 0, Empty(n, hashing).m));
  }

  /** One key added tells apart another whose second bit is neither of the two it set. */
  lemma ToldApart(n: nat, hashing: Hashing, key: Data, h: (U64, U64))
    requires var g := hashing.pair(key); var m := Empty(n, hashing).m;
             && Empty(n, hashing).k == 2 && g.0 == h.0
             && (h.0 + h.1) % 0x1_0000_0000_0000_0000 % m != (g.0 + g.1) % 0x1_0000_0000_0000_0000 % m
             && (h.0 + h.1) % 0x1_0000_0000_0000_0000 % m != g.0 % m
    ensures !MayContain(Added(Empty(n, hashing), hashing.pair(key)), h)
  {
    hide Test, MarkAll, Probe;
    var f, g := Empty(n, hashing), hashing.pair(key);
    var p := Probe(h, 1, f.m);
    EmptyBits(|f.bits|, p);
    assert f.bits == seq(|f.bits|, i => 0);
    TestMarkAll(f.bits, g, f.m, 2, p);
    FirstProbes(h, f.m);
    FirstProbes(g, f.m);
    forall i: nat | i < 2
      ensures Probe(g, i, f.m) != p
    {
      if i != 0 {
        assert i == 1;
      }
    }
    assert !Test(Added(f, g).bits, p);
  }

  lemma FirstProbes(h: (U64, U64), m: nat)
    requires m > 0
    ensures Probe(h, 0, m) == h.0 % m && Probe(h, 1, m) == (h.0 + h.1) % 0x1_0000_0000_0000_0000 % m
  {
    var zero, one := 0 * h.1, 1 * h.1;
    assert zero % TWO_64 == 0 && one % TWO_64 == h.1 && h.0 % TWO_64 == h.0;
  }

  // ---------- the stored form ----------

  function Marshal(f: Image): (b: Data)
    ensures |b| == HEADER + |f.bits|
  {
    LE(MAGIC, 4) + ([VERSION] + (LE(f.m, 8) + (LE(f.k, 4) + (LE(f.added, 8) + f.bits))))
  }

  /** `(m + 7) / 8` in 64-bit arithmetic. */
  function Needed(m: nat): nat {
    ((m + 7) % TWO_64) / 8
  }

  lemma NeededExact(f: Image)
    requires f.Valid()
    ensures Needed(f.m) == |f.bits|
  {
  }

  function Unmarshal(b: Data): Option<Image> {
    if |b| < HEADER || FromLE(b[..4]) != MAGIC || b[4] != VERSION then None
    else
      var m, k, added := FromLE(b[5..13]), FromLE(b[13..17]), FromLE(b[17..25]);
      var need := Needed(m);
      if |b| < HEADER + need then None
      else Some(Image(b[HEADER..HEADER + need], m, k, added))
  }

  lemma MarshalRoundTrip(f: Image, rest: Data)
    requires f.Valid()
    ensures Unmarshal(Marshal(f) + rest) == Some(f)
  {
    var b := Marshal(f) + rest;
    NeededExact(f);
    LE32(MAGIC);
    LE64(f.m);
    LE32(f.k);
    LE64(f.added);
    HeaderFields(b, LE(MAGIC, 4), LE(f.m, 8), LE(f.k, 4), LE(f.added, 8), f.bits, rest);
  }

  /** In any file a filter is read exactly when the file starts with its stored form. */
  lemma ReadsExactly(b: Data, f: Image)
    requires f.Valid()
    ensures Unmarshal(b) == Some(f) <==> Marshal(f) <= b
  {
    hide LE, FromLE;
    if Marshal(f) <= b {
      assert b == Marshal(f) + b[|Marshal(f)|..];
      MarshalRoundTrip(f, b[|Marshal(f)|..]);
    }
    if Unmarshal(b) == Some(f) {
      NeededExact(f);
      LEInverse(b[..4]);
      LEInverse(b[5..13]);
      LEInverse(b[13..17]);
      LEInverse(b[17..25]);
      StoredParts(b, HEADER + |f.bits|);
    }
  }

  lemma StoredParts(b: Data, n: nat)
    requires HEADER <= n <= |b|
    ensures b[..n] == b[..4] + ([b[4]] + (b[5..13] + (b[13..17] + (b[17..25] + b[HEADER..n]))))
  {
  }

  lemma HeaderFields(b: Data, magic: Data, m: Data, k: Data, added: Data, bits: Data, rest: Data)
    requires |magic| == |k| == 4 && |m| == |added| == 8
    requires b == (magic + ([VERSION] + (m + (k + (added + bits))))) + rest
    ensures |b| >= HEADER + |bits|
    ensures b[..4] == magic && b[4] == VERSION && b[5..13] == m && b[13..17] == k && b[17..25] == added
    ensures b[HEADER..HEADER + |bits|] == bits
  {
    Peel(b, 0, magic, [VERSION] + (m + (k + (added + bits))), rest);
    Peel(b, 4, [VERSION], m + (k + (added + bits)), rest);
    Peel(b, 5, m, k + (added + bits), rest);
    Peel(b, 13, k, added + bits, rest);
    Peel(b, 17, added, bits, rest);
    Peel(b, 25, bits, [], rest);
  }

  // ---------- no false negatives ----------

  /** Any way of building a filter: adding keys, and merging filters built alike. */
  datatype Build = Start(n: nat) | Add(b: Build, key: Data) | Join(a: Build, b: Build)

  /** The filter a build ends with; a merge of filters of different shape changes nothing. */
  function Result(b: Build, hashing: Hashing): (f: Image)
    ensures f.Valid()
  {
    match b
    case Start(n) => Empty(n, hashing)
    case Add(c, key) => Added(Result(c, hashing), hashing.pair(key))
    case Join(c, d) =>
      var f, g := Result(c, hashing), Result(d, hashing);
      if f.m == g.m && f.k == g.k then Merged(f, g) else f
  }

  /** The keys added; a refused merge contributes none. */
  function Keys(b: Build, hashing: Hashing): set<Data> {
    match b
    case Start(_) => {}
    case Add(c, key) => Keys(c, hashing) + {key}
    case Join(c, d) =>
      var f, g := Result(c, hashing), Result(d, hashing);
      if f.m == g.m && f.k == g.k then Keys(c, hashing) + Keys(d, hashing) else Keys(c, hashing)
  }

  /** However a filter was built, stored and read back, it admits every key added on either side. */
  lemma NoFalseNegatives(b: Build, hashing: Hashing, rest: Data, key: Data)
    requires key in Keys(b, hashing)
    ensures var f := Unmarshal(Marshal(Result(b, hashing)) + rest);
            f.Some? && f.value.Valid() && MayContain(f.value, hashing.pair(key))
  {
    BuildContains(b, hashing, key);
    MarshalRoundTrip(Result(b, hashing), rest);
  }

  lemma {:induction false} BuildContains(b: Build, hashing: Hashing, key: Data)
    requires key in Keys(b, hashing)
    ensures MayContain(Result(b, hashing), hashing.pair(key))
  {
    match b
    case Start(_) =>
    case Add(c, k) =>
      if key != k {
        BuildContains(c, hashing, key);
      }
      AddedContains(Result(c, hashing), hashing.pair(k), hashing.pair(key));
    case Join(c, d) =>
      var f, g := Result(c, hashing), Result(d, hashing);
      if key in Keys(c, hashing) {
        BuildContains(c, hashing, key);
      } else {
        BuildContains(d, hashing, key);
      }
      if f.m == g.m && f.k == g.k {
        MergedContains(f, g, hashing.pair(key));
      }
  }
}
