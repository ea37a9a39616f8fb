/** Random access to an encrypted file: whole blocks are read, decrypted in place and trimmed. */
module CryptoReader {
  import opened Bytes
  import opened Ctr
  import opened CryptoFile
  import opened CryptoWriter

  /** What a read can come to. `Panic` is a slice expression out of range. */
  datatype Outcome = Bytes(data: seq<byte>) | Eof | Panic

  lemma MultGap(i: nat, k: nat, bs: nat)
    requires i < k
    ensures i * bs + bs <= k * bs
  {
    MulMono(i + 1, k, bs);
  }

  lemma WholeDiv(len: nat, bs: nat)
    requires bs > 0 && len % bs == 0
    ensures Whole(len / bs, len, bs)
  {
  }

  /** A request for `n` blocks from block `idx` on, of a file of `total` blocks whose plaintext ends
      in the last one. */
  lemma WholeWindow(idx: nat, n: nat, total: nat, bs: nat, len: nat)
    requires bs > 0 && n * bs > 0 && idx * bs < total * bs <= len + bs
    ensures idx < total && idx * bs <= len
    ensures var k := Min(n, total - idx);
            var m := Min(n * bs, total * bs - idx * bs);
            && Whole(k, m, bs) && 0 < k && 0 < m
            && (idx * bs + m == total * bs || idx * bs + m <= len)
  {
    MulMono(total, idx, bs);
    MulMono(n, total - idx, bs);
    MulMono(total - idx, n, bs);
    assert (total - idx) * bs == total * bs - idx * bs;
    MulMono(idx + 1, total, bs);
    assert (idx + 1) * bs == idx * bs + bs;
    MulMono(n + 1, total - idx, bs);
    assert (n + 1) * bs == n * bs + bs;
  }

  /** `buf[lo..hi]` shows `text` as it is from `start` on. */
  ghost predicate Shows(buf: array<byte>, text: seq<byte>, start: nat, lo: nat, hi: nat)
    reads buf
  {
    hi <= buf.Length && start + hi <= |text| && forall j | lo <= j < hi :: buf[j] == text[start + j]
  }

  lemma ShowsSlice(buf: array<byte>, text: seq<byte>, start: nat, m: nat)
    requires m <= buf.Length && start + m <= |text| && buf[..m] == text[start..start + m]
    ensures Shows(buf, text, start, 0, m)
  {
    forall j | 0 <= j < m ensures buf[j] == text[start + j] { assert buf[..m][j] == text[start..start + m][j]; }
  }

  lemma ShownSlice(buf: array<byte>, text: seq<byte>, start: nat, m: nat)
    requires Shows(buf, text, start, 0, m)
    ensures m <= buf.Length && start + m <= |text| && buf[..m] == text[start..start + m]
  {
  }

  lemma ShowsNothing(buf: array<byte>, text: seq<byte>, start: nat)
    requires start <= |text|
    ensures Shows(buf, text, start, 0, 0)
  {
  }

  /** Decrypt one block of `buf` in place, if it is among the `m` bytes that were read. */
  method DecryptBlock(buf: array<byte>, pos: nat, enc: seq<byte>, ghost text: seq<byte>, ghost crypt: seq<byte>,
                      ghost start: nat, ghost m: nat)
    requires pos + |enc| <= buf.Length && (pos + |enc| <= m || m <= pos)
    requires Shows(buf, text, start, 0, Min(m, pos)) && Shows(buf, crypt, start, pos, m) && |text| == |crypt|
    requires pos + |enc| <= m ==>
      XorSeq(crypt[start + pos..start + pos + |enc|], enc) == text[start + pos..start + pos + |enc|]
    modifies buf
    ensures Shows(buf, text, start, 0, Min(m, pos + |enc|)) && Shows(buf, crypt, start, pos + |enc|, m)
  {
    hide XorSeq;
    ghost var at, bs := start + pos, |enc|;
    ghost var was := buf[pos..pos + bs];
    Xor(buf, pos, enc);
    if pos + bs <= m {
      assert was == crypt[at..at + bs];
      ghost var now := buf[pos..pos + bs];
      assert now == text[at..at + bs];
      forall j | pos <= j < pos + bs ensures buf[j] == text[start + j] { assert now[j - pos] == buf[j]; }
    }
  }

  lemma CryptAt(c: Cipher, iv: seq<byte>, data: seq<byte>, n: nat, at: nat)
    requires c.Proper() && |iv| == c.size && Whole(n, at, c.size) && at + c.size <= |data|
    ensures XorSeq(Crypt(c, iv, data)[at..at + c.size], c.encrypt(CtrVec(iv, n))) == data[at..at + c.size]
  {
    hide Crypt, CtrVec, XorSeq;
    CryptBlock(c, iv, data, n);
  }

  lemma WholeNone(bs: nat)
    ensures Whole(0, 0, bs)
  {
  }

  lemma WholeStep(i: nat, pos: nat, n: nat, len: nat, bs: nat)
    requires Whole(i, pos, bs) && Whole(n, len, bs) && i < n
    ensures Whole(i + 1, pos + bs, bs) && pos + bs <= len
  {
    MultGap(i, n, bs);
  }

  lemma WholeGap(i: nat, pos: nat, k: nat, m: nat, bs: nat)
    requires Whole(i, pos, bs) && Whole(k, m, bs)
    ensures pos + bs <= m || m <= pos
  {
    if i < k { MultGap(i, k, bs); } else { MulMono(k, i, bs); }
  }

  lemma WholeSum(a: nat, x: nat, b: nat, y: nat, bs: nat)
    requires Whole(a, x, bs) && Whole(b, y, bs)
    ensures Whole(a + b, x + y, bs)
  {
    assert (a + b) * bs == a * bs + b * bs;
  }

  lemma WholeEnd(i: nat, pos: nat, len: nat, bs: nat)
    requires Whole(i, pos, bs) && Whole(i, len, bs)
    ensures pos == len
  {
  }

  class Reader {
    const file: seq<byte>
    const cipher: Cipher
    const ctr: CtrState
    const size: nat
    var offset: nat
    ghost const plain: seq<byte>

    ghost predicate Valid()
      reads this, ctr.vec
    {
      && cipher.Proper() && |ctr.iv| == ctr.vec.Length == cipher.size
      && file == File(cipher, ctr.iv, plain)
      && size == PaddedLen(|plain|, cipher.size)
      && offset <= size
    }

    ghost function Padded(): (p: seq<byte>)
      requires cipher.size > 0
    {
      Pad(plain, cipher.size)
    }

    constructor (file: seq<byte>, cipher: Cipher, ghost iv: seq<byte>, ghost plain: seq<byte>)
      requires cipher.Proper() && |iv| == cipher.size && file == File(cipher, iv, plain)
      ensures Valid() && fresh(ctr) && fresh(ctr.vec)
      ensures this.cipher == cipher && this.plain == plain && offset == 0
    {
      this.file := file;
      this.cipher := cipher;
      this.plain := plain;
      ctr := new CtrState(file[..cipher.size]);
      size := |file| - cipher.size;
      offset := 0;
      new;
      assert file[..cipher.size] == iv;
    }

    /** Seek from the start, clamped to the encrypted (padded) size. */
    method Seek(off: int) returns (r: nat)
      requires Valid()
      modifies this`offset
      ensures Valid() && r == offset == if off < 0 then 0 else Min(off, size)
    {
      offset := if off < 0 then 0 else if off > size then size else off;
      r := offset;
    }

    /** Decrypt `nblocks` blocks of `buf`, the first of which is block `idx` of the file and starts at
        `start`. Blocks past the `m` bytes that were read are scratch. */
    method Decrypt(idx: nat, buf: array<byte>, nblocks: nat, ghost start: nat, ghost k: nat, ghost m: nat)
      requires Valid() && buf != ctr.vec && Whole(nblocks, buf.Length, cipher.size) && Whole(idx, start, cipher.size)
      requires Whole(k, m, cipher.size) && start + m <= size && m <= buf.Length
      requires buf[..m] == Crypt(cipher, ctr.iv, Padded())[start..start + m]
      modifies buf, ctr.vec
      ensures Valid()
      ensures buf[..m] == Padded()[start..start + m]
    {
      hide Pad, Crypt, CtrVec, AddVec, BE, XorSeq, File, Shows, Whole, PaddedLen;
      var bs := cipher.size;
      ghost var text := Padded();
      ghost var crypt := Crypt(cipher, ctr.iv, text);
      ShowsSlice(buf, crypt, start, m);
      ctr.Reset();
      ctr.Add(idx);
      CtrVecZero(ctr.iv);
      CtrVecAdd(ctr.iv, 0, idx);
      ShowsNothing(buf, text, start);
      WholeNone(bs);
      var i, pos := 0, 0;
      while i < nblocks
        invariant 0 <= i <= nblocks && 0 <= pos && Valid() && ctr.vec[..] == CtrVec(ctr.iv, idx + i)
        invariant Whole(i, pos, bs) && Shows(buf, text, start, 0, Min(m, pos)) && Shows(buf, crypt, start, pos, m)
      {
        WholeStep(i, pos, nblocks, buf.Length, bs);
        WholeGap(i, pos, k, m, bs);
        WholeSum(idx, start, i, pos, bs);
        var enc := cipher.encrypt(ctr.vec[..]);
        if pos + bs <= m { CryptAt(cipher, ctr.iv, text, idx + i, start + pos); }
        DecryptBlock(buf, pos, enc, text, crypt, start, m);
        CtrVecAdd(ctr.iv, idx + i, 1);
        ctr.Add(1);
        i, pos := i + 1, pos + bs;
      }
      WholeEnd(i, pos, buf.Length, bs);
      ShownSlice(buf, text, start, m);
    }

    /**
     Fill `buf`, a whole number of blocks, with the plaintext from block `idx` on. The last block is
     cut at its padding mark, so `nread` bytes are plaintext and nothing beyond is.
     */
    method ReadBlocks(idx: nat, buf: array<byte>, ghost start: nat) returns (nread: nat, eof: bool)
      requires Valid() && buf != ctr.vec && buf.Length > 0 && buf.Length % cipher.size == 0
      requires Whole(idx, start, cipher.size)
      modifies buf, ctr.vec
      ensures Valid() && nread <= buf.Length && (eof <==> nread == 0)
      ensures start >= size ==> nread == 0
      ensures start < size ==>
                && start <= |plain|
                && nread == Min(buf.Length, |plain| - start)
                && buf[..nread] == plain[start..start + nread]
    {
      hide Pad, Crypt, CtrVec, PaddedLen, File;
      var bs := cipher.size;
      var at := idx * bs;
      if at >= size { return 0, true; }
      ghost var k := FindWindow(idx, buf.Length);
      hide Whole;
      var m := if size < at + buf.Length then size - at else buf.Length;
      Fetch(idx, buf, m, k, start);
      nread := m;
      if at + m == size {
        nread := TrimPad(buf, m, start);
      } else {
        PadPrefix(plain, bs, start, m);
      }
      eof := nread == 0;
    }

    /** Read `m` bytes of the file, `k` blocks from block `idx` on, into `buf` and decrypt them. */
    method Fetch(idx: nat, buf: array<byte>, m: nat, ghost k: nat, ghost start: nat)
      requires Valid() && buf != ctr.vec && buf.Length % cipher.size == 0 && m <= buf.Length
      requires Whole(k, m, cipher.size) && Whole(idx, start, cipher.size) && start + m <= size
      modifies buf, ctr.vec
      ensures Valid()
      ensures buf[..m] == Padded()[start..start + m]
    {
      hide Pad, Crypt, CtrVec, PaddedLen;
      var bs := cipher.size;
      var nblocks, at := buf.Length / bs, idx * bs;
      var src := file[bs + at..bs + at + m];
      for j := 0 to m
        invariant forall l | 0 <= l < j :: buf[l] == src[l]
        modifies buf
      {
        buf[j] := src[j];
      }
      assert buf[..m] == src;
      assert src == Crypt(cipher, ctr.iv, Padded())[start..start + m];
      WholeDiv(buf.Length, bs);
      Decrypt(idx, buf, nblocks, start, k, m);
    }

    /** How many blocks the file has for a request of `len` bytes from block `idx` on. */
    lemma FindWindow(idx: nat, len: nat) returns (k: nat)
      requires Valid() && idx * cipher.size < size && len > 0 && len % cipher.size == 0
      ensures var bs, start := cipher.size, idx * cipher.size;
              var m := Min(len, size - start);
              && 0 < k <= len / bs && Whole(k, m, bs) && 0 < m && start <= |plain|
              && (start + m == size || start + m <= |plain|)
    {
      var bs := cipher.size;
      var total := |plain| / bs + 1;
      WholeDiv(len, bs);
      PaddedLenSpec(|plain|, bs);
      WholeWindow(idx, len / bs, total, bs, |plain|);
      k := Min(len / bs, total - idx);
    }

    /** Scan back for the padding mark. */
    method TrimPad(buf: array<byte>, m: nat, ghost start: nat) returns (end: nat)
      requires cipher.size > 0 && 0 < m <= buf.Length && start + m == |Padded()|
      requires start <= |plain| && buf[..m] == Padded()[start..start + m]
      ensures end == |plain| - start && end < m && buf[..end] == plain[start..]
    {
      PadMark(plain, cipher.size);
      ghost var text := Padded();
      assert forall j | 0 <= j < m :: buf[j] == buf[..m][j] == text[start + j];
      end := m - 1;
      while buf[end] != 0x80
        invariant |plain| - start <= end < m
        decreases end
      {
        end := end - 1;
      }
      assert buf[..end] == text[..|plain|][start..start + end];
    }

    /**
     Read up to `n` bytes at the current offset.

     Seek clamps to the padded size, so the offset can lie in the padding; a read there slices the
     block at a point past its plaintext and panics. That is the only way a read can panic.
     */
    method Read(n: nat) returns (r: Outcome)
      requires Valid()
      modifies this`offset, ctr.vec
      ensures Valid()
      ensures n == 0 ==> r == Bytes([])
      ensures r == Panic <==> n > 0 && |plain| < old(offset) < size
      ensures r == Eof <==> n > 0 && (old(offset) == |plain| || old(offset) == size)
      ensures n > 0 && old(offset) < |plain| ==>
                r == Bytes(plain[old(offset)..Min(old(offset) + n, |plain|)])
      ensures offset == old(offset) + if r.Bytes? then |r.data| else 0
    {
      hide Pad, Crypt, CtrVec, File, PaddedLen, Whole;
      if n == 0 { return Bytes([]); }
      ghost var total := Blocks();
      var startidx, shift, buflen := Window(n, total);
      var buf := new byte[buflen];
      ghost var start := offset - shift;
      var nread, eof := ReadBlocks(startidx, buf, start);
      if shift > nread { return Panic; }
      var got := buf[shift..nread];
      var k := if n < |got| then n else |got|;
      ghost var all := buf[..nread];
      assert got == all[shift..nread];
      if k > 0 { TakePlain(plain, start, all, shift, k); }
      offset := offset + k;
      r := if k == 0 then Eof else Bytes(got[..k]);
    }

    /** One byte behind the end of a plaintext with at least two bytes of padding: reading there panics. */
    method PaddingPanics() returns (r: Outcome)
      requires Valid() && |plain| + 1 < size
      modifies this`offset, ctr.vec
      ensures r == Panic
    {
      hide Pad, Crypt, CtrVec, File, PaddedLen;
      var plainSize := Size();
      var at := Seek(plainSize + 1);
      r := Read(1);
    }

    /** The padded file is whole blocks, and the plaintext ends inside the last one. */
    lemma Blocks() returns (total: nat)
      requires Valid()
      ensures cipher.size > 0 && |plain| < size <= |plain| + cipher.size && Whole(total, size, cipher.size)
    {
      total := |plain| / cipher.size + 1;
      PaddedLenSpec(|plain|, cipher.size);
    }

    /** Bytes of a window that starts `shift` bytes before the offset. */
    static lemma TakePlain(plain: seq<byte>, start: nat, all: seq<byte>, shift: nat, k: nat)
      requires start + |all| <= |plain| && all == plain[start..start + |all|] && shift + k <= |all|
      ensures all[shift..][..k] == plain[start + shift..start + shift + k]
    {
      SliceSlice(plain, start, start + |all|, shift, shift + k);
      assert all[shift..][..k] == all[shift..shift + k];
    }

    /** The whole blocks that cover `n` bytes at the current offset. */
    method Window(n: nat, ghost total: nat) returns (startidx: nat, shift: nat, buflen: nat)
      requires cipher.size > 0 && n > 0 && Whole(total, size, cipher.size)
      ensures shift <= offset && Whole(startidx, offset - shift, cipher.size) && shift < cipher.size
      ensures offset == size ==> shift == 0
      ensures buflen > 0 && buflen % cipher.size == 0 && buflen >= n + shift
    {
      var bs := cipher.size;
      var aligned := if offset % bs != 0 then offset - offset % bs else offset;
      shift := offset - aligned;
      buflen := n + offset - aligned;
      Aligned(offset, bs);
      RoundedUp(buflen, bs);
      if offset == size { DivModUnique(size, bs, total, 0); }
      if buflen % bs != 0 {
        buflen := buflen + (bs - buflen % bs);
      }
      startidx := aligned / bs;
    }

    /** Read exactly `n` bytes, in as many reads as it takes; Eof if the plaintext ends before. */
    method ReadFull(n: nat) returns (r: Outcome)
      requires Valid()
      modifies this`offset, ctr.vec
      ensures Valid()
      ensures r == Panic <==> n > 0 && |plain| < old(offset) < size
      ensures old(offset) + n <= |plain| ==> r == Bytes(plain[old(offset)..old(offset) + n])
      ensures n > 0 && old(offset) <= |plain| < old(offset) + n ==> r == Eof
      ensures r.Bytes? ==> |r.data| == n && offset == old(offset) + n
    {
      hide Pad, File, PaddedLen;
      var got := [];
      ghost var o := offset;
      while |got| < n
        invariant Valid() && |got| <= n && offset == o + |got|
        invariant |got| > 0 ==> offset <= |plain| && got == plain[o..offset]
        decreases n - |got|
      {
        ghost var mid := offset;
        var part := Read(n - |got|);
        match part
        case Bytes(data) =>
          JoinSlices(plain, if |got| > 0 then o else mid, mid, offset);
          got := got + data;
        case Eof => return Eof;
        case Panic => return Panic;
      }
      r := Bytes(got);
    }

    /** The exact length of the plaintext. */
    method Size() returns (n: nat)
      requires Valid()
      modifies ctr.vec
      ensures Valid() && n == |plain|
    {
      hide Pad, Crypt, CtrVec, File;
      var bs := cipher.size;
      PaddedLenSpec(|plain|, bs);
      var buf := new byte[bs];
      DivModUnique(size, bs, |plain| / bs + 1, 0);
      var nread, eof := ReadBlocks(size / bs - 1, buf, size - bs);
      n := size - bs + nread;
    }
  }

  lemma PadPrefix(plain: seq<byte>, bs: nat, start: nat, m: nat)
    requires bs > 0 && start + m <= |plain|
    ensures Pad(plain, bs)[start..start + m] == plain[start..start + m]
  {
    PadMark(plain, bs);
    assert Pad(plain, bs)[start..start + m] == Pad(plain, bs)[..|plain|][start..start + m];
  }

  /** Rounding an offset down to a whole number of blocks. */
  lemma Aligned(offset: nat, bs: nat)
    requires bs > 0
    ensures var aligned := if offset % bs != 0 then offset - offset % bs else offset;
            && aligned <= offset < aligned + bs && aligned / bs * bs == aligned
            && (offset % bs == 0 ==> aligned == offset)
  {
    var q := offset / bs;
    assert offset == q * bs + offset % bs;
    DivModUnique(q * bs, bs, q, 0);
  }

  /** Rounding a length up to a whole number of blocks. */
  lemma RoundedUp(len: nat, bs: nat)
    requires bs > 0
    ensures var up := if len % bs != 0 then len + (bs - len % bs) else len;
            up >= len && up % bs == 0
  {
    var q := len / bs;
    assert len == q * bs + len % bs;
    assert (q + 1) * bs == q * bs + bs;
    DivModUnique((q + 1) * bs, bs, q + 1, 0);
  }
}
