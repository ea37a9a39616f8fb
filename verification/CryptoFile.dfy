/**
 The encrypted file format: a random initial vector, then the padded plaintext in CTR mode (section
 6.5 of NIST SP 800-38A). Padding is a single 0x80 byte and then zeros up to the block size
 (Appendix A), always at least one byte. The block cipher is a parameter.
 */
module CryptoFile {
  import opened Bytes
  import opened Ctr

  /** A block cipher under a fixed key: only its forward direction is used. */
  datatype Cipher = Cipher(size: nat, encrypt: seq<byte> -> seq<byte>)
  {
    ghost predicate Proper() {
      size > 0 && forall s: seq<byte> :: |s| == size ==> |encrypt(s)| == size
    }
  }

  // ---------------------------------------------------------------- exclusive or

  function XorBits(a: nat, b: nat, bits: nat): (r: nat)
    ensures r < Pow2(bits)
  {
    if bits == 0 then 0 else 2 * XorBits(a / 2, b / 2, bits - 1) + (a + b) % 2
  }

  function Pow2(k: nat): nat {
    if k == 0 then 1 else 2 * Pow2(k - 1)
  }

  function XorByte(a: byte, b: byte): byte {
    assert Pow2(8) == 256 by { assert Pow2(8) == 2 * Pow2(7) == 4 * Pow2(6) == 8 * Pow2(5); }
    XorBits(a as nat, b as nat, 8) as byte
  }

  lemma {:induction false} XorBitsTwice(a: nat, b: nat, bits: nat)
    requires a < Pow2(bits)
    ensures XorBits(XorBits(a, b, bits), b, bits) == a
  {
    if bits > 0 {
      XorBitsTwice(a / 2, b / 2, bits - 1);
      BitTwice(a, b, XorBits(a / 2, b / 2, bits - 1));
    }
  }

  lemma BitTwice(a: nat, b: nat, h: nat)
    ensures var r := 2 * h + (a + b) % 2;
            r / 2 == h && (r + b) % 2 == a % 2
  {
    var x, y := a % 2, b % 2;
    assert (a + b) % 2 == if x == y then 0 else 1;
  }

  function XorSeq(a: seq<byte>, b: seq<byte>): (r: seq<byte>)
    requires |a| == |b|
    ensures |r| == |a|
  {
    seq(|a|, i requires 0 <= i < |a| => XorByte(a[i], b[i]))
  }

  lemma XorTwice(a: seq<byte>, b: seq<byte>)
    requires |a| == |b|
    ensures XorSeq(XorSeq(a, b), b) == a
  {
    assert Pow2(8) == 2 * Pow2(7) == 4 * Pow2(6) == 8 * Pow2(5);
    forall i | 0 <= i < |a| ensures XorByte(XorByte(a[i], b[i]), b[i]) == a[i] {
      XorBitsTwice(a[i] as nat, b[i] as nat, 8);
    }
  }

  // ---------------------------------------------------------------- format

  /** Length of the padded plaintext. */
  function PaddedLen(len: nat, bs: nat): nat
    requires bs > 0
  {
    (len / bs + 1) * bs
  }

  lemma PaddedLenSpec(len: nat, bs: nat)
    requires bs > 0
    ensures len < PaddedLen(len, bs) <= len + bs && PaddedLen(len, bs) % bs == 0
    ensures PaddedLen(len, bs) - bs == len / bs * bs <= len
  {
    assert len == len / bs * bs + len % bs;
    assert (len / bs + 1) * bs == len / bs * bs + bs;
    DivModUnique(PaddedLen(len, bs), bs, len / bs + 1, 0);
  }

  function Pad(plain: seq<byte>, bs: nat): (p: seq<byte>)
    requires bs > 0
    ensures |p| == PaddedLen(|plain|, bs)
  {
    PaddedLenSpec(|plain|, bs);
    plain + [0x80] + Zeros(PaddedLen(|plain|, bs) - |plain| - 1)
  }

  /** Byte `j` of the key stream: byte `j % size` of the encrypted counter of block `j / size`. */
  ghost function KeyByte(c: Cipher, iv: seq<byte>, j: nat): byte
    requires c.Proper() && |iv| == c.size
  {
    c.encrypt(CtrVec(iv, j / c.size))[j % c.size]
  }

  /** CTR mode: the key stream is combined with the data byte by byte. Its own inverse. */
  ghost function Crypt(c: Cipher, iv: seq<byte>, data: seq<byte>): (r: seq<byte>)
    requires c.Proper() && |iv| == c.size
    ensures |r| == |data|
  {
    seq(|data|, j requires 0 <= j < |data| => XorByte(data[j], KeyByte(c, iv, j)))
  }

  ghost function File(c: Cipher, iv: seq<byte>, plain: seq<byte>): seq<byte>
    requires c.Proper() && |iv| == c.size
  {
    iv + Crypt(c, iv, Pad(plain, c.size))
  }

  lemma DivMul(n: nat, bs: nat, i: nat)
    requires i < bs
    ensures (n * bs + i) / bs == n && (n * bs + i) % bs == i
  {
    var a := n * bs + i;
    DivModUnique(a, bs, n, i);
  }

  /** Block `n` of the key stream is one encrypted counter. */
  lemma KeyBlock(c: Cipher, iv: seq<byte>, n: nat)
    requires c.Proper() && |iv| == c.size
    ensures forall i | 0 <= i < c.size :: KeyByte(c, iv, n * c.size + i) == c.encrypt(CtrVec(iv, n))[i]
  {
    forall i | 0 <= i < c.size ensures KeyByte(c, iv, n * c.size + i) == c.encrypt(CtrVec(iv, n))[i] {
      DivMul(n, c.size, i);
    }
  }

  /** Encryption can go block by block at the end of the file. */
  lemma CryptAppend(c: Cipher, iv: seq<byte>, data: seq<byte>, n: nat, block: seq<byte>)
    requires c.Proper() && |iv| == c.size && |block| == c.size && |data| == n * c.size
    ensures Crypt(c, iv, data + block) == Crypt(c, iv, data) + XorSeq(block, c.encrypt(CtrVec(iv, n)))
  {
    hide CtrVec, XorByte;
    KeyBlock(c, iv, n);
    var l, r := Crypt(c, iv, data + block), Crypt(c, iv, data) + XorSeq(block, c.encrypt(CtrVec(iv, n)));
    forall j | 0 <= j < |l| ensures l[j] == r[j] {
      if j >= |data| {
        var i := j - |data|;
        assert KeyByte(c, iv, n * c.size + i) == c.encrypt(CtrVec(iv, n))[i];
      }
    }
  }

  /** Any single block can be decrypted on its own from its number. */
  lemma CryptBlock(c: Cipher, iv: seq<byte>, data: seq<byte>, n: nat)
    requires c.Proper() && |iv| == c.size && n * c.size + c.size <= |data|
    ensures var bs, p := c.size, n * c.size;
            XorSeq(Crypt(c, iv, data)[p..p + bs], c.encrypt(CtrVec(iv, n))) == data[p..p + bs]
  {
    hide CtrVec, XorSeq, Crypt;
    CryptSlice(c, iv, data, n);
    XorTwice(data[n * c.size..n * c.size + c.size], c.encrypt(CtrVec(iv, n)));
  }

  lemma CryptSlice(c: Cipher, iv: seq<byte>, data: seq<byte>, n: nat)
    requires c.Proper() && |iv| == c.size && n * c.size + c.size <= |data|
    ensures var bs, p := c.size, n * c.size;
            Crypt(c, iv, data)[p..p + bs] == XorSeq(data[p..p + bs], c.encrypt(CtrVec(iv, n)))
  {
    hide CtrVec, XorByte;
    KeyBlock(c, iv, n);
    var p, k := n * c.size, c.encrypt(CtrVec(iv, n));
    var block := data[p..p + c.size];
    var l := Crypt(c, iv, data)[p..p + c.size];
    forall i | 0 <= i < c.size ensures l[i] == XorSeq(block, k)[i] {
      assert KeyByte(c, iv, p + i) == k[i];
    }
  }

  /** The last 0x80 of the padded text marks where the plaintext ends, whatever bytes it holds. */
  lemma PadMark(plain: seq<byte>, bs: nat)
    requires bs > 0
    ensures var p := Pad(plain, bs);
            && |plain| < |p| && p[..|plain|] == plain && p[|plain|] == 0x80
            && forall i | |plain| < i < |p| :: p[i] != 0x80
  {
    PaddedLenSpec(|plain|, bs);
  }
}
