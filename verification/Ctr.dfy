/**
 The counter of CTR mode: a big-endian vector of any length, advanced by adding with carry from the
 last byte (the incrementing function of Appendix B.1 of NIST SP 800-38A, over the whole block).
 */
module Ctr {
  import opened Bytes

  /** The number a big-endian vector stands for. */
  function BE(s: seq<byte>): (n: nat)
    ensures n < Pow256(|s|)
  {
    if s == [] then 0 else 256 * BE(s[..|s| - 1]) + s[|s| - 1] as nat
  }

  function ToBE(n: nat, len: nat): (s: seq<byte>)
    ensures |s| == len
  {
    if len == 0 then [] else ToBE(n / 256, len - 1) + [(n % 256) as byte]
  }

  lemma {:induction false} BEToBE(n: nat, len: nat)
    ensures n < Pow256(len) ==> BE(ToBE(n, len)) == n
  {
    if len > 0 {
      BEToBE(n / 256, len - 1);
      assert ToBE(n, len)[..len - 1] == ToBE(n / 256, len - 1);
    }
  }

  lemma {:induction false} ToBEBE(s: seq<byte>)
    ensures ToBE(BE(s), |s|) == s
  {
    if s != [] {
      var p, last := s[..|s| - 1], s[|s| - 1];
      ToBEBE(p);
      assert (256 * BE(p) + last as nat) / 256 == BE(p);
    }
  }

  /** The counter block for block number `k` of a file with initial vector `iv`. */
  function CtrVec(iv: seq<byte>, k: nat): (s: seq<byte>)
    ensures |s| == |iv|
  {
    ToBE((BE(iv) + k) % Pow256(|iv|), |iv|)
  }

  /** Schoolbook addition: add `val`'s bytes from the last one on, with carry `c`. */
  function AddVec(s: seq<byte>, val: nat, c: nat): (r: seq<byte>)
    ensures |r| == |s|
  {
    if s == [] then []
    else
      var newb := s[|s| - 1] as nat + val % 256 + c;
      AddVec(s[..|s| - 1], val / 256, newb / 256) + [(newb % 256) as byte]
  }

  lemma AddVecStep(p: seq<byte>, x: byte, val: nat, c: nat)
    ensures var newb := x as nat + val % 256 + c;
            AddVec(p + [x], val, c) == AddVec(p, val / 256, newb / 256) + [(newb % 256) as byte]
  {
    assert (p + [x])[..|p|] == p;
  }

  lemma BEStep(p: seq<byte>, x: byte)
    ensures BE(p + [x]) == 256 * BE(p) + x as nat && Pow256(|p| + 1) == 256 * Pow256(|p|)
  {
    assert (p + [x])[..|p|] == p;
  }

  lemma {:induction false} AddNothing(s: seq<byte>)
    ensures AddVec(s, 0, 0) == s
  {
    if s != [] { AddNothing(s[..|s| - 1]); }
  }

  lemma ModStep(x: nat, p: nat, r: nat)
    requires p >= 1 && r < 256
    ensures (256 * x + r) % (256 * p) == 256 * (x % p) + r
  {
    var q, m := x / p, x % p;
    assert x == q * p + m;
    assert 256 * x + r == q * (256 * p) + (256 * m + r);
    assert 256 * m + r < 256 * p;
    DivModUnique(256 * x + r, 256 * p, q, 256 * m + r);
  }

  lemma MulMono(x: nat, y: nat, d: nat)
    ensures x <= y ==> x * d <= y * d
  {
  }

  lemma DivModUnique(a: nat, d: nat, q: nat, r: nat)
    requires a == q * d + r && r < d
    ensures a % d == r && a / d == q
  {
    assert a == a / d * d + a % d;
    MulMono(a / d + 1, q, d);
    MulMono(q + 1, a / d, d);
    assert a / d == q;
  }

  /** Schoolbook addition is addition modulo 256^n, for vectors of any length n. */
  lemma {:induction false} AddVecSum(s: seq<byte>, val: nat, c: nat)
    ensures BE(AddVec(s, val, c)) == (BE(s) + val + c) % Pow256(|s|)
  {
    if s == [] {
      assert AddVec(s, val, c) == [];
    } else {
      hide *;
      var p, x := s[..|s| - 1], s[|s| - 1];
      AddVecSum(p, val / 256, (x as nat + val % 256 + c) / 256);
      assert s == p + [x];
      SumStep(p, x, val, c);
    }
  }

  lemma SumStep(p: seq<byte>, x: byte, val: nat, c: nat)
    requires var carry := (x as nat + val % 256 + c) / 256;
             BE(AddVec(p, val / 256, carry)) == (BE(p) + val / 256 + carry) % Pow256(|p|)
    ensures BE(AddVec(p + [x], val, c)) == (BE(p + [x]) + val + c) % Pow256(|p| + 1)
  {
    hide AddVec, BE, Pow256;
    var newb := x as nat + val % 256 + c;
    var up := BE(p) + val / 256 + newb / 256;
    AddVecStep(p, x, val, c);
    BEStep(p, x);
    BEStep(AddVec(p, val / 256, newb / 256), (newb % 256) as byte);
    assert BE(p + [x]) + val + c == 256 * up + newb % 256;
    ModStep(up, Pow256(|p|), newb % 256);
  }

  lemma ModAdd(a: nat, b: nat, d: nat)
    requires d >= 1
    ensures (a % d + b) % d == (a + b) % d
  {
    var x := a % d + b;
    assert a + b == (a / d) * d + x;
    assert a + b == (a / d + x / d) * d + x % d;
    DivModUnique(a + b, d, a / d + x / d, x % d);
  }

  /** Adding `n` to the counter of block `k` gives the counter of block `k + n`. */
  lemma CtrVecAdd(iv: seq<byte>, k: nat, n: nat)
    ensures AddVec(CtrVec(iv, k), n, 0) == CtrVec(iv, k + n)
  {
    hide *;
    var v := CtrVec(iv, k);
    CtrVecBE(iv, k);
    CtrVecBE(iv, k + n);
    AddVecSum(v, n, 0);
    ModAdd(BE(iv) + k, n, Pow256(|iv|));
    SameNumber(AddVec(v, n, 0), CtrVec(iv, k + n));
  }

  lemma SameNumber(a: seq<byte>, b: seq<byte>)
    requires |a| == |b| && BE(a) == BE(b)
    ensures a == b
  {
    hide BE, ToBE;
    ToBEBE(a);
    ToBEBE(b);
  }

  lemma CtrVecBE(iv: seq<byte>, k: nat)
    ensures BE(CtrVec(iv, k)) == (BE(iv) + k) % Pow256(|iv|)
  {
    hide BE, ToBE, Pow256;
    BEToBE((BE(iv) + k) % Pow256(|iv|), |iv|);
  }

  lemma CtrVecZero(iv: seq<byte>)
    ensures CtrVec(iv, 0) == iv
  {
    ToBEBE(iv);
    DivModUnique(BE(iv), Pow256(|iv|), 0, BE(iv));
  }

  /** In `v` the sum `whole` is done behind byte `idx`; `val` and `carry` are still to be added to the
      bytes of `s` up to it. */
  ghost predicate Carrying(whole: seq<byte>, s: seq<byte>, v: seq<byte>, idx: int, val: nat, carry: nat) {
    && -1 <= idx < |s| == |v| && v[..idx + 1] == s[..idx + 1]
    && whole == AddVec(s[..idx + 1], val, carry) + v[idx + 1..]
  }

  lemma CarryStart(s: seq<byte>, n: nat)
    ensures Carrying(AddVec(s, n, 0), s, s, |s| - 1, n, 0)
  {
    hide AddVec;
    assert s[..|s|] == s;
  }

  /** One step of the carry loop. */
  lemma CarryStep(whole: seq<byte>, s: seq<byte>, v: seq<byte>, idx: nat, val: nat, carry: nat)
    requires Carrying(whole, s, v, idx, val, carry)
    ensures v[idx] == s[idx]
    ensures var newb := s[idx] as nat + val % 256 + carry;
            Carrying(whole, s, v[idx := (newb % 256) as byte], idx - 1, val / 256, newb / 256)
  {
    hide AddVec;
    assert v[idx] == v[..idx + 1][idx] == s[..idx + 1][idx];
    assert s[..idx + 1] == s[..idx] + [s[idx]];
    AddVecStep(s[..idx], s[idx], val, carry);
    var b := ((s[idx] as nat + val % 256 + carry) % 256) as byte;
    assert v[idx := b][idx..] == [b] + v[idx + 1..];
    assert v[idx := b][..idx] == s[..idx];
  }

  lemma CarryEnd(whole: seq<byte>, s: seq<byte>, v: seq<byte>, idx: int, val: nat, carry: nat)
    requires Carrying(whole, s, v, idx, val, carry) && (idx < 0 || (val == 0 && carry == 0))
    ensures whole == v
  {
    hide AddVec;
    assert v == v[..idx + 1] + v[idx + 1..];
    if idx >= 0 { AddNothing(s[..idx + 1]); }
  }

  class CtrState {
    const iv: seq<byte>
    const vec: array<byte>

    constructor (iv: seq<byte>)
      ensures fresh(vec) && this.iv == iv && vec[..] == iv
    {
      this.iv := iv;
      vec := new byte[|iv|](i requires 0 <= i < |iv| => iv[i]);
    }

    method Reset()
      requires vec.Length == |iv|
      modifies vec
      ensures vec[..] == iv
    {
      for i := 0 to |iv|
        invariant vec[..i] == iv[..i]
      {
        vec[i] := iv[i];
      }
    }

    method Add(n: nat)
      modifies vec
      ensures vec[..] == AddVec(old(vec[..]), n, 0)
      ensures BE(vec[..]) == (BE(old(vec[..])) + n) % Pow256(vec.Length)
    {
      hide AddVec, BE, Pow256, Carrying;
      ghost var s, whole := vec[..], AddVec(vec[..], n, 0);
      AddVecSum(s, n, 0);
      CarryStart(s, n);
      var idx := vec.Length - 1;
      var val, carry := n, 0;
      while val != 0 || carry != 0
        invariant -1 <= idx < vec.Length && 0 <= carry <= 1 && val >= 0
        invariant Carrying(whole, s, vec[..], idx, val, carry)
        decreases idx
      {
        var b := val % 256;
        if idx < 0 { break; }
        CarryStep(whole, s, vec[..], idx, val, carry);
        var newb := vec[idx] as nat + b + carry;
        ghost var v := vec[..];
        vec[idx] := (newb % 256) as byte;
        assert vec[..] == v[idx := (newb % 256) as byte];
        val := val / 256;
        carry := if newb >= 256 then 1 else 0;
        idx := idx - 1;
      }
      CarryEnd(whole, s, vec[..], idx, val, carry);
    }
  }
}
