/**
 Byte strings as the store uses them: the lexicographic key order, shared
 prefixes, and little-endian fixed-width integers.
 */
module Bytes {

  type Byte = b: int | 0 <= b < 256
  type Data = seq<Byte>

  const TWO_16: nat := 0x1_0000
  const TWO_32: nat := 0x1_0000_0000
  const TWO_63: nat := 0x8000_0000_0000_0000
  const TWO_64: nat := 0x1_0000_0000_0000_0000

  type U32 = x: int | 0 <= x < TWO_32
  type U64 = x: int | 0 <= x < TWO_64

  datatype Option<+T> = None | Some(value: T)

  /** `Less(a, b)` is `bytes.Compare(a, b) < 0`. */
  predicate Less(a: Data, b: Data) {
    LessFrom(a, b, 0)
  }

  predicate LessFrom(a: Data, b: Data, i: nat)
    decreases |b| - i
  {
    i < |b| && (i >= |a| || a[i] < b[i] || (a[i] == b[i] && LessFrom(a, b, i + 1)))
  }

  /** The first byte that differs decides, and a proper prefix comes first. */
  lemma LessMeans(a: Data, b: Data)
    ensures Less(a, b) <==> SharedPrefix(a, b) < |b|
                            && (SharedPrefix(a, b) == |a| || a[SharedPrefix(a, b)] < b[SharedPrefix(a, b)])
  {
    LessBehind(a, b, 0);
  }

  lemma {:induction false} LessBehind(a: Data, b: Data, i: nat)
    requires i <= SharedPrefix(a, b)
    ensures LessFrom(a, b, i) <==> LessFrom(a, b, SharedPrefix(a, b))
    decreases SharedPrefix(a, b) - i
  {
    var n := SharedPrefix(a, b);
    if i < n {
      assert a[..n][i] == b[..n][i];
      LessBehind(a, b, i + 1);
    }
  }

  lemma LessTransitive(a: Data, b: Data, c: Data)
    requires Less(a, b) && Less(b, c)
    ensures Less(a, c)
  {
    TransitiveFrom(a, b, c, 0);
  }

  lemma {:induction false} TransitiveFrom(a: Data, b: Data, c: Data, i: nat)
    requires LessFrom(a, b, i) && LessFrom(b, c, i)
    ensures LessFrom(a, c, i)
    decreases |c| - i
  {
    if i < |a| && a[i] == b[i] == c[i] {
      TransitiveFrom(a, b, c, i + 1);
    }
  }

  lemma LessIrreflexive(a: Data)
    ensures !Less(a, a)
  {
    LessTrichotomy(a, a);
  }

  /** Exactly one of `a < b`, `a == b`, `b < a`. */
  lemma LessTrichotomy(a: Data, b: Data)
    ensures Less(a, b) || a == b || Less(b, a)
    ensures !(Less(a, b) && Less(b, a))
    ensures a == b ==> !Less(a, b)
  {
    TrichotomyFrom(a, b, 0);
  }

  lemma {:induction false} TrichotomyFrom(a: Data, b: Data, i: nat)
    requires i <= |a| && i <= |b| && forall j :: 0 <= j < i ==> a[j] == b[j]
    ensures LessFrom(a, b, i) || a == b || LessFrom(b, a, i)
    ensures !(LessFrom(a, b, i) && LessFrom(b, a, i))
    ensures a == b ==> !LessFrom(a, b, i)
    decreases |b| - i
  {
    if i < |a| && i < |b| && a[i] == b[i] {
      TrichotomyFrom(a, b, i + 1);
    }
  }

  /** The negated order is transitive too: `c <= b` and `b <= a` give `c <= a`. */
  lemma NotLessTransitive(a: Data, b: Data, c: Data)
    requires !Less(a, b) && !Less(b, c)
    ensures !Less(a, c)
  {
    LessTrichotomy(a, b);
    LessTrichotomy(b, c);
    LessTrichotomy(a, c);
    if Less(a, c) {
      if b == c {
      } else {
        LessTransitive(a, c, b);
      }
    }
  }

  /** Length of the longest common prefix. */
  function SharedPrefix(a: Data, b: Data): (n: nat)
    ensures n <= |a| && n <= |b| && a[..n] == b[..n]
    ensures n == |a| || n == |b| || a[n] != b[n]
  {
    if a == [] || b == [] || a[0] != b[0] then 0
    else
      var m := SharedPrefix(a[1..], b[1..]);
      assert a[..m + 1] == [a[0]] + a[1..][..m];
      assert b[..m + 1] == [b[0]] + b[1..][..m];
      m + 1
  }

  lemma SharedPrefixUnique(a: Data, b: Data, n: nat)
    requires n <= |a| && n <= |b| && a[..n] == b[..n]
    requires n == |a| || n == |b| || a[n] != b[n]
    ensures n == SharedPrefix(a, b)
  {
    var m := SharedPrefix(a, b);
    assert forall i :: 0 <= i < m ==> a[..m][i] == b[..m][i];
    assert forall i :: 0 <= i < n ==> a[..n][i] == b[..n][i];
  }

  method SharedPrefixLen(a: Data, b: Data) returns (i: nat)
    ensures i == SharedPrefix(a, b)
  {
    var n := |a|;
    if |b| < n {
      n := |b|;
    }
    i := 0;
    while i < n && a[i] == b[i]
      invariant i <= n
      invariant a[..i] == b[..i]
    {
      i := i + 1;
    }
    SharedPrefixUnique(a, b, i);
  }

  /** One field read off an encoding: what stands at `n`, and what follows it. */
  lemma Peel(b: Data, n: nat, x: Data, y: Data, rest: Data)
    requires n <= |b| && b[n..] == (x + y) + rest
    ensures n + |x| <= |b| && b[n..n + |x|] == x && b[n + |x|..] == y + rest
  {
    assert (x + y) + rest == x + (y + rest);
    assert b[n + |x|..] == b[n..][|x|..];
    assert b[n..n + |x|] == b[n..][..|x|];
  }

  // ---------- results of reading a list ----------

  /** Items already read in front of the outcome of reading the others. */
  function After<T>(xs: seq<T>, rest: Option<seq<T>>): Option<seq<T>> {
    if rest.None? then None else Some(xs + rest.value)
  }

  lemma AfterNone<T>(rest: Option<seq<T>>)
    ensures After([], rest) == rest
  {
    if rest.Some? {
      assert [] + rest.value == rest.value;
    }
  }

  lemma AfterStep<T>(xs: seq<T>, x: T, rest: Option<seq<T>>)
    ensures After(xs + [x], rest) == After(xs, After([x], rest))
  {
    if rest.Some? {
      assert xs + [x] + rest.value == xs + ([x] + rest.value);
    }
  }

  // ---------- fixed-width little-endian integers ----------

  function Pow256(n: nat): (p: nat)
    ensures p > 0
  {
    if n == 0 then 1 else 256 * Pow256(n - 1)
  }

  /** The low `n` bytes of `x`, least significant first: a cast to `8n` bits and a PutUint. */
  function LE(x: nat, n: nat): (b: Data)
    ensures |b| == n
  {
    if n == 0 then [] else [x % 256] + LE(x / 256, n - 1)
  }

  function FromLE(b: Data): (x: nat)
    ensures x < Pow256(|b|)
  {
    if b == [] then 0 else b[0] + 256 * FromLE(b[1..])
  }

  /** Writing `x` in `n` bytes and reading it back is truncation to `8n` bits. */
  lemma {:induction false} LERoundTrip(x: nat, n: nat)
    ensures FromLE(LE(x, n)) == x % Pow256(n)
  {
    if n != 0 {
      LERoundTrip(x / 256, n - 1);
      var p := Pow256(n - 1);
      assert LE(x, n)[1..] == LE(x / 256, n - 1);
      ModSplit(x, p);
    }
  }

  /** Reading bytes and writing the number back gives the bytes. */
  lemma {:induction false} LEInverse(b: Data)
    ensures LE(FromLE(b), |b|) == b
  {
    if b != [] {
      LEInverse(b[1..]);
      LowByte(b[0], FromLE(b[1..]));
      assert b == [b[0]] + b[1..];
    }
  }

  lemma LowByte(a: Byte, x: nat)
    ensures (a + 256 * x) % 256 == a && (a + 256 * x) / 256 == x
  {
  }

  lemma ModSplit(x: nat, p: nat)
    requires p > 0
    ensures x % (256 * p) == x % 256 + 256 * ((x / 256) % p)
  {
    var q := x / 256;
    var r := x % 256 + 256 * (q % p);
    assert q % p <= p - 1;
    assert 0 <= r < 256 * p;
    assert x == 256 * (p * (q / p) + q % p) + x % 256;
    assert x == (256 * p) * (q / p) + r;
    DivModUnique(x, 256 * p, q / p, r);
  }

  lemma DivModUnique(x: nat, d: nat, q: nat, r: nat)
    requires r < d && x == d * q + r
    ensures x / d == q && x % d == r
  {
    var k := x / d - q;
    assert x == d * (x / d) + x % d;
    assert d * k == d * (x / d) - d * q;
    assert d * k == r - x % d;
    MulAtLeast(d, k);
  }

  lemma MulAtLeast(d: int, k: int)
    requires d >= 0
    ensures k >= 1 ==> d * k >= d
    ensures k <= -1 ==> d * k <= -d
  {
    if k >= 1 {
      assert d * k == d + d * (k - 1) && d * (k - 1) >= 0;
    } else if k <= -1 {
      assert d * k == -d + d * (k + 1) && d * (k + 1) <= 0;
    }
  }

  /** Two, four and eight bytes, written out: the lowest byte comes first. */
  lemma LowestFirst(x: nat)
    ensures LE(x, 2) == [x % 256, x / 256 % 256]
    ensures LE(x, 4) == LE(x, 2) + [x / 256 / 256 % 256, x / 256 / 256 / 256 % 256]
    ensures LE(x, 8) == LE(x, 4) + LE(x / 256 / 256 / 256 / 256, 4)
  {
    assert forall y: nat :: LE(y, 1) == [y % 256] + LE(y / 256, 0);
    assert LE(x, 2) == [x % 256] + LE(x / 256, 1);
    LowestSplit(x, 2, 2);
    LowestSplit(x, 4, 4);
    ShiftedTwice(x);
    ShiftedTwice(x / 256 / 256);
    assert Shifted(x, 4) == Shifted(x / 256 / 256, 2) by {
      assert Shifted(x, 4) == Shifted(x / 256, 3);
    }
    assert LE(x / 256 / 256, 2) == [x / 256 / 256 % 256] + LE(x / 256 / 256 / 256, 1);
  }

  function Shifted(x: nat, n: nat): nat {
    if n == 0 then x else Shifted(x / 256, n - 1)
  }

  lemma ShiftedTwice(x: nat)
    ensures Shifted(x, 2) == x / 256 / 256
  {
    assert Shifted(x, 2) == Shifted(x / 256, 1);
  }

  lemma {:induction false} LowestSplit(x: nat, m: nat, n: nat)
    ensures LE(x, m + n) == LE(x, m) + LE(Shifted(x, m), n)
  {
    if m == 0 {
      Associates([], [], LE(x, n));
    } else {
      LowestSplit(x / 256, m - 1, n);
      Associates([x % 256], LE(x / 256, m - 1), LE(Shifted(x / 256, m - 1), n));
    }
  }

  lemma Associates(a: Data, b: Data, c: Data)
    ensures a + (b + c) == (a + b) + c && [] + c == c
  {
  }

  lemma Widths()
    ensures Pow256(2) == TWO_16 && Pow256(4) == TWO_32 && Pow256(8) == TWO_64
  {
    assert Pow256(2) == 256 * 256;
    assert Pow256(4) == 256 * 256 * Pow256(2);
    assert Pow256(8) == 256 * 256 * 256 * 256 * Pow256(4) by {
      assert Pow256(6) == 256 * 256 * Pow256(4);
    }
  }

  lemma LE32(x: U32)
    ensures FromLE(LE(x, 4)) == x
  {
    LERoundTrip(x, 4);
    Widths();
  }

  lemma LE64(x: U64)
    ensures FromLE(LE(x, 8)) == x
  {
    LERoundTrip(x, 8);
    Widths();
  }
}
