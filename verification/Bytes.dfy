/** Bytes and the fixed-width little-endian integers every on-disk format of bpy uses. */
module Bytes {
  newtype byte = x: int | 0 <= x < 256

  const TWO_63: nat := 0x8000_0000_0000_0000
  const TWO_64: nat := 0x1_0000_0000_0000_0000

  type Int64 = x: int | -0x8000_0000_0000_0000 <= x < 0x8000_0000_0000_0000

  /** The 64 bits of a signed number read as unsigned, in two's complement. */
  function Unsigned(x: Int64): (n: nat)
    ensures n < TWO_64
  {
    if x < 0 then x + TWO_64 else x
  }

  function Signed(n: nat): (x: Int64)
    requires n < TWO_64
    ensures Unsigned(x) == n
  {
    if n < TWO_63 then n else n - TWO_64
  }

  function Min(a: nat, b: nat): nat {
    if a < b then a else b
  }

  function Zeros(n: nat): (s: seq<byte>)
    ensures |s| == n && forall i | 0 <= i < n :: s[i] == 0
  {
    if n == 0 then [] else [0] + Zeros(n - 1)
  }

  /** Reordering a list keeps its elements. */
  lemma SameMembers<T>(a: seq<T>, b: seq<T>, x: T)
    requires multiset(a) == multiset(b)
    ensures x in a <==> x in b
  {
    assert x in multiset(a) <==> x in a;
    assert x in multiset(b) <==> x in b;
  }

  /** Taking out the element at `k` takes it out of the multiset. */
  lemma DropMultiset<T>(s: seq<T>, k: nat)
    requires k < |s|
    ensures multiset(s[..k] + s[k + 1..]) == multiset(s) - multiset{s[k]}
  {
    var a, b := s[..k], s[k + 1..];
    assert s == a + [s[k]] + b;
  }

  lemma TailMultiset<T>(s: seq<T>)
    requires s != []
    ensures multiset(s[1..]) == multiset(s) - multiset{s[0]}
  {
    assert s == [s[0]] + s[1..];
  }

  lemma InitMultiset<T>(s: seq<T>)
    requires s != []
    ensures multiset(s[..|s| - 1]) == multiset(s) - multiset{s[|s| - 1]}
  {
    assert s == s[..|s| - 1] + [s[|s| - 1]];
  }

  lemma SameLength<T>(a: seq<T>, b: seq<T>)
    requires multiset(a) == multiset(b)
    ensures |a| == |b|
  {
    assert |a| == |multiset(a)| && |b| == |multiset(b)|;
  }

  /** A slice of the second of two joined lists. */
  lemma SliceRight<T>(a: seq<T>, b: seq<T>, lo: nat, hi: nat)
    requires lo <= hi <= |b|
    ensures (a + b)[|a| + lo..|a| + hi] == b[lo..hi]
  {
    var l, r := (a + b)[|a| + lo..|a| + hi], b[lo..hi];
    assert forall i | 0 <= i < hi - lo :: l[i] == r[i];
  }

  lemma SliceSlice<T>(s: seq<T>, i: nat, end: nat, a: nat, b: nat)
    requires i <= end <= |s| && a <= b <= end - i
    ensures s[i..end][a..b] == s[i + a..i + b]
  {
    var l, r := s[i..end][a..b], s[i + a..i + b];
    assert forall k | 0 <= k < b - a :: l[k] == r[k];
  }

  lemma JoinSlices<T>(d: seq<T>, a: nat, b: nat, c: nat)
    requires a <= b <= c <= |d|
    ensures d[a..b] + d[b..c] == d[a..c]
  {
  }

  /** 256 to the power `k`. */
  function Pow256(k: nat): (p: nat)
    ensures p >= 1
  {
    if k == 0 then 1 else 256 * Pow256(k - 1)
  }

  /** `n` modulo 256^k as `k` little-endian bytes (encoding/binary's PutUint16/32/64). */
  function LE(n: nat, k: nat): (s: seq<byte>)
    ensures |s| == k
  {
    if k == 0 then [] else [(n % 256) as byte] + LE(n / 256, k - 1)
  }

  function FromLE(s: seq<byte>): (n: nat)
    ensures n < Pow256(|s|)
  {
    if s == [] then 0 else s[0] as nat + 256 * FromLE(s[1..])
  }

  lemma {:induction false} LERoundTrip(n: nat, k: nat)
    ensures n < Pow256(k) ==> FromLE(LE(n, k)) == n
  {
    if k > 0 {
      LERoundTrip(n / 256, k - 1);
      assert LE(n, k)[1..] == LE(n / 256, k - 1);
    }
  }

  lemma {:induction false} FromLERoundTrip(s: seq<byte>)
    ensures LE(FromLE(s), |s|) == s
  {
    if s != [] {
      FromLERoundTrip(s[1..]);
      Digit(s[0], FromLE(s[1..]), |s| - 1);
    }
  }

  lemma Digit(x: byte, n: nat, k: nat)
    ensures LE(x as nat + 256 * n, k + 1) == [x] + LE(n, k)
  {
    var sum := x as nat + 256 * n;
    assert sum % 256 == x as nat && sum / 256 == n;
  }

  lemma Pow256Values()
    ensures Pow256(1) == 0x100 && Pow256(2) == 0x1_0000 && Pow256(3) == 0x100_0000
    ensures Pow256(4) == 0x1_0000_0000 && Pow256(8) == TWO_64
  {
    assert Pow256(4) == 256 * Pow256(3) == 256 * 256 * Pow256(2);
    assert Pow256(8) == 256 * Pow256(7) == 256 * 256 * Pow256(6) == 256 * 256 * 256 * Pow256(5);
  }

  lemma Assoc(a: seq<byte>, b: seq<byte>, c: seq<byte>)
    ensures (a + b) + c == a + (b + c)
  {
  }

  /** The encodings of `xs`, one after the other. */
  function Flat<T>(f: T -> seq<byte>, xs: seq<T>): seq<byte> {
    if xs == [] then [] else f(xs[0]) + Flat(f, xs[1..])
  }

  lemma FlatCons<T>(f: T -> seq<byte>, x: T, xs: seq<T>)
    ensures Flat(f, [x] + xs) == f(x) + Flat(f, xs) && Flat(f, [x]) == f(x)
  {
    assert ([x] + xs)[1..] == xs;
    assert [x][1..] == [];
  }

  lemma {:induction false} FlatAppend<T>(f: T -> seq<byte>, a: seq<T>, b: seq<T>)
    ensures Flat(f, a + b) == Flat(f, a) + Flat(f, b)
  {
    if a == [] {
      assert a + b == b;
    } else {
      var x, xs := a[0], a[1..];
      FlatAppend(f, xs, b);
      assert a == [x] + xs && a + b == [x] + (xs + b);
      FlatJoin(f, x, xs, b);
    }
  }

  lemma FlatJoin<T>(f: T -> seq<byte>, x: T, xs: seq<T>, b: seq<T>)
    requires Flat(f, xs + b) == Flat(f, xs) + Flat(f, b)
    ensures Flat(f, [x] + (xs + b)) == Flat(f, [x] + xs) + Flat(f, b)
  {
    hide Flat;
    FlatCons(f, x, xs);
    FlatCons(f, x, xs + b);
    Assoc(f(x), Flat(f, xs), Flat(f, b));
  }

  lemma FlatSnoc<T>(f: T -> seq<byte>, xs: seq<T>, i: nat)
    requires i < |xs|
    ensures Flat(f, xs[..i + 1]) == Flat(f, xs[..i]) + f(xs[i])
  {
    hide Flat;
    assert xs[..i + 1] == xs[..i] + [xs[i]];
    FlatAppend(f, xs[..i], [xs[i]]);
    FlatCons(f, xs[i], []);
  }
}
