/** Writing an encrypted file: one block is buffered, encrypted in place and passed on. */
module CryptoWriter {
  import opened Bytes
  import opened Ctr
  import opened CryptoFile

  /** Xor `src` into `dest[at..at + |src|]`, in place. */
  method Xor(dest: array<byte>, at: nat, src: seq<byte>)
    requires at + |src| <= dest.Length
    modifies dest
    ensures dest[at..at + |src|] == XorSeq(old(dest[at..at + |src|]), src)
    ensures forall j | 0 <= j < dest.Length && !(at <= j < at + |src|) :: dest[j] == old(dest[j])
  {
    var i := 0;
    while i < |src|
      invariant 0 <= i <= |src|
      invariant forall j | 0 <= j < i :: dest[at + j] == XorByte(old(dest[at + j]), src[j])
      invariant forall j | at + i <= j < dest.Length :: dest[j] == old(dest[j])
      invariant forall j | 0 <= j < at :: dest[j] == old(dest[j])
    {
      dest[at + i] := XorByte(dest[at + i], src[i]);
      i := i + 1;
    }
    ghost var was, now := old(dest[at..at + |src|]), dest[at..at + |src|];
    forall j | 0 <= j < |src| ensures now[j] == XorSeq(was, src)[j] {
      assert was[j] == old(dest[at + j]) && now[j] == dest[at + j];
    }
  }

  /** `len` bytes are exactly `n` blocks. */
  ghost predicate Whole(n: nat, len: nat, bs: nat) {
    len == n * bs
  }

  /** `out` is the file so far: the vector, then `n` encrypted blocks holding `done`. */
  ghost predicate Encrypted(c: Cipher, iv: seq<byte>, n: nat, done: seq<byte>, out: seq<byte>) {
    && c.Proper() && |iv| == c.size && Whole(n, |done|, c.size)
    && out == iv + Crypt(c, iv, done)
  }

  lemma EncryptedEmpty(c: Cipher, iv: seq<byte>)
    requires c.Proper() && |iv| == c.size
    ensures Encrypted(c, iv, 0, [], iv) && CtrVec(iv, 0) == iv
  {
    CtrVecZero(iv);
    assert Crypt(c, iv, []) == [];
  }

  lemma EncryptedStep(c: Cipher, iv: seq<byte>, n: nat, done: seq<byte>, out: seq<byte>, block: seq<byte>)
    requires Encrypted(c, iv, n, done, out) && |block| == c.size
    ensures |c.encrypt(CtrVec(iv, n))| == c.size
    ensures Encrypted(c, iv, n + 1, done + block, out + XorSeq(block, c.encrypt(CtrVec(iv, n))))
    ensures AddVec(CtrVec(iv, n), 1, 0) == CtrVec(iv, n + 1)
  {
    hide Crypt, CtrVec, AddVec;
    CryptAppend(c, iv, done, n, block);
    CtrVecAdd(iv, n, 1);
    assert (n + 1) * c.size == n * c.size + c.size;
    var e := XorSeq(block, c.encrypt(CtrVec(iv, n)));
    assert (iv + Crypt(c, iv, done)) + e == iv + (Crypt(c, iv, done) + e);
  }

  lemma EncryptedPadded(c: Cipher, iv: seq<byte>, n: nat, done: seq<byte>, part: seq<byte>, block: seq<byte>,
                        out: seq<byte>)
    requires |part| < c.size == |block| && Encrypted(c, iv, n + 1, done + block, out)
    requires block[..|part|] == part && block[|part|] == 0x80
    requires forall j | |part| < j < c.size :: block[j] == 0
    ensures out == File(c, iv, done + part)
  {
    hide Crypt;
    var plain := done + part;
    assert (n + 1) * c.size == n * c.size + c.size;
    assert |done| == n * c.size;
    assert plain[n * c.size..] == part && plain[..n * c.size] == done;
    PadFromBlock(plain, c.size, n, block);
  }

  class Writer {
    const cipher: Cipher
    const buf: array<byte>
    const ctr: CtrState
    var nbuf: nat
    var out: seq<byte>            // what the underlying file has received
    ghost var done: seq<byte>     // the plaintext of the blocks passed on
    ghost var nblocks: nat

    ghost predicate Flushed()
      reads this, ctr.vec
    {
      && buf.Length == cipher.size && ctr.vec != buf
      && ctr.vec[..] == CtrVec(ctr.iv, nblocks)
      && Encrypted(cipher, ctr.iv, nblocks, done, out)
    }

    ghost predicate Valid()
      reads this, buf, ctr.vec
      ensures Valid() ==> nbuf < buf.Length
    {
      Flushed() && nbuf < cipher.size
    }

    /** Everything written so far. */
    ghost function Plain(): seq<byte>
      requires nbuf <= buf.Length
      reads this, buf
    {
      done + buf[..nbuf]
    }

    constructor (cipher: Cipher, iv: seq<byte>)
      requires cipher.Proper() && |iv| == cipher.size
      ensures Valid() && fresh(buf) && fresh(ctr) && fresh(ctr.vec)
      ensures this.cipher == cipher && ctr.iv == iv && Plain() == []
    {
      this.cipher := cipher;
      buf := new byte[cipher.size];
      ctr := new CtrState(iv);
      nbuf, nblocks := 0, 0;
      out, done := iv, [];
      new;
      EncryptedEmpty(cipher, iv);
    }

    method FlushBlock()
      requires Flushed()
      modifies this`nbuf, this`out, this`nblocks, this`done, buf, ctr.vec
      ensures Flushed() && nbuf == 0 && done == old(done) + old(buf[..])
      ensures nblocks == old(nblocks) + 1
    {
      hide Encrypted, CtrVec, AddVec, BE, XorSeq;
      ghost var block := buf[..];
      assert cipher.Proper() by { ProperOf(cipher, ctr.iv, nblocks, done, out); }
      EncryptedStep(cipher, ctr.iv, nblocks, done, out, block);
      var enc := cipher.encrypt(ctr.vec[..]);
      Xor(buf, 0, enc);
      assert buf[..] == buf[0..0 + |enc|] && block[0..|enc|] == block;
      out := out + buf[..];
      nbuf := 0;
      ctr.Add(1);
      nblocks := nblocks + 1;
      done := done + block;
    }

    method Write(data: seq<byte>)
      requires Valid()
      modifies this`nbuf, this`out, this`nblocks, this`done, buf, ctr.vec
      ensures Valid() && Plain() == old(Plain()) + data
      decreases |data|
    {
      hide Encrypted, CtrVec;
      var n := if |data| < buf.Length - nbuf then |data| else buf.Length - nbuf;
      CopyIn(data[..n]);
      ghost var mid := Plain();
      if nbuf != buf.Length {
        assert data[..n] == data;
        return;
      }
      FlushBlock();
      assert Plain() == mid;
      Write(data[n..]);
      assert data == data[..n] + data[n..];
    }

    /** Copy bytes that fit into the block buffer. */
    method CopyIn(part: seq<byte>)
      requires nbuf + |part| <= buf.Length
      modifies this`nbuf, buf
      ensures nbuf == old(nbuf) + |part| && Plain() == old(Plain()) + part
    {
      ghost var held := buf[..nbuf];
      for i := 0 to |part|
        invariant forall j | 0 <= j < nbuf :: buf[j] == held[j]
        invariant forall j | nbuf <= j < nbuf + i :: buf[j] == part[j - nbuf]
        modifies buf
      {
        buf[nbuf + i] := part[i];
      }
      nbuf := nbuf + |part|;
      assert buf[..nbuf] == held + part;
      Assoc(done, held, part);
    }

    /** Pad, and flush the last block. */
    method Close()
      requires Valid()
      modifies this`nbuf, this`out, this`nblocks, this`done, buf, ctr.vec
      ensures cipher.Proper() && |ctr.iv| == cipher.size
      ensures out == File(cipher, ctr.iv, old(Plain()))
    {
      hide CtrVec, Encrypted, File;
      ProperOf(cipher, ctr.iv, nblocks, done, out);
      var i := nbuf;
      while i < buf.Length
        invariant nbuf <= i <= buf.Length && buf[..nbuf] == old(buf[..nbuf])
        invariant forall j | nbuf <= j < i :: buf[j] == 0
        modifies buf
      {
        buf[i] := 0;
        i := i + 1;
      }
      buf[nbuf] := 0x80;
      ghost var block, part := buf[..], buf[..nbuf];
      FlushBlock();
      EncryptedPadded(cipher, ctr.iv, old(nblocks), old(done), part, block, out);
    }
  }

  lemma ProperOf(c: Cipher, iv: seq<byte>, n: nat, done: seq<byte>, out: seq<byte>)
    requires Encrypted(c, iv, n, done, out)
    ensures c.Proper() && |iv| == c.size
  {
  }

  lemma PadFromBlock(plain: seq<byte>, bs: nat, n: nat, block: seq<byte>)
    requires n * bs <= |plain| < n * bs + bs == n * bs + |block|
    requires block[..|plain| - n * bs] == plain[n * bs..] && block[|plain| - n * bs] == 0x80
    requires forall j | |plain| - n * bs < j < bs :: block[j] == 0
    ensures Pad(plain, bs) == plain[..n * bs] + block
  {
    DivModUnique(|plain|, bs, n, |plain| - n * bs);
    assert (n + 1) * bs == n * bs + bs;
    var l, r := Pad(plain, bs), plain[..n * bs] + block;
    forall j | 0 <= j < |l| ensures l[j] == r[j] {
      if n * bs <= j < |plain| {
        assert block[..|plain| - n * bs][j - n * bs] == plain[n * bs..][j - n * bs];
      }
    }
  }
}
