/** Reading an encrypted pack: the index is found through the last eight bytes, then searched. */
module BPackReader {
  import opened Bytes
  import opened BPack
  import opened CryptoFile
  import opened CryptoReader

  datatype GetResult = Found(val: seq<byte>) | NotFound | Failed

  /** Every number of the index fits its field. */
  ghost predicate Fits(e: IndexEnt) {
    |e.key| < Pow256(3) && e.size < Pow256(3) && e.offset < Pow256(8)
  }

  ghost predicate FitsAll(idx: Index) {
    |idx| < Pow256(8) && forall e <- idx :: Fits(e)
  }

  /** `s` is what is left of the plaintext at the current position. */
  ghost predicate Facing(r: Reader, s: seq<byte>)
    reads r
  {
    r.offset <= |r.plain| && r.plain[r.offset..] == s
  }

  method ReadBytes(r: Reader, len: nat, ghost want: seq<byte>, ghost tail: seq<byte>) returns (ok: bool, v: seq<byte>)
    requires r.Valid()
    modifies r`offset, r.ctr.vec
    ensures r.Valid()
    ensures |want| == len && old(Facing(r, want + tail)) ==> ok && v == want && Facing(r, tail)
  {
    hide Reader.Valid;
    var got := r.ReadFull(len);
    Taken(r.plain, old(r.offset), want, tail);
    match got
    case Bytes(data) => ok, v := true, data;
    case Eof => ok, v := false, [];
    case Panic => ok, v := false, [];
  }

  method ReadUint(r: Reader, width: nat, ghost n: nat, ghost tail: seq<byte>) returns (ok: bool, v: nat)
    requires r.Valid()
    modifies r`offset, r.ctr.vec
    ensures r.Valid()
    ensures n < Pow256(width) && old(Facing(r, LE(n, width) + tail)) ==> ok && v == n && Facing(r, tail)
  {
    hide Reader.Valid;
    LERoundTrip(n, width);
    var data;
    ok, data := ReadBytes(r, width, LE(n, width), tail);
    v := FromLE(data);
  }

  /** One index entry: key length, key, size, offset. */
  method ReadEnt(r: Reader, ghost want: IndexEnt, ghost tail: seq<byte>) returns (ok: bool, e: IndexEnt)
    requires r.Valid()
    modifies r`offset, r.ctr.vec
    ensures r.Valid()
    ensures Fits(want) && old(Facing(r, EncodeEnt(want) + tail)) ==> ok && e == want && Facing(r, tail)
  {
    hide Reader.Valid, LE, Facing;
    e := IndexEnt([], 0, 0);
    var n, key, size, off;
    ghost var c := LE(want.offset, 8) + tail;
    ghost var b := LE(want.size, 3) + c;
    ghost var a := want.key + b;
    EntSplit(want, tail);
    ok, n := ReadUint(r, 3, |want.key|, a);
    if !ok { return; }
    ok, key := ReadBytes(r, n, want.key, b);
    if !ok { return; }
    ok, size := ReadUint(r, 3, want.size, c);
    if !ok { return; }
    ok, off := ReadUint(r, 8, want.offset, tail);
    e := IndexEnt(key, size, off);
  }

  lemma EntSplit(e: IndexEnt, tail: seq<byte>)
    ensures EncodeEnt(e) + tail == LE(|e.key|, 3) + (e.key + (LE(e.size, 3) + (LE(e.offset, 8) + tail)))
  {
    hide LE;
  }

  /** A count, then that many entries. */
  method ReadIndex(r: Reader, ghost want: Index, ghost tail: seq<byte>) returns (ok: bool, idx: Index)
    requires r.Valid()
    modifies r`offset, r.ctr.vec
    ensures r.Valid()
    ensures FitsAll(want) && old(Facing(r, EncodeIndex(want) + tail)) ==> ok && idx == want
  {
    hide Reader.Valid, LE, Facing, EncodeEnt, Fits;
    idx := [];
    ghost var good := FitsAll(want) && Facing(r, EncodeIndex(want) + tail);
    Assoc(LE(|want|, 8), Flat(EncodeEnt, want), tail);
    var n: nat;
    ok, n := ReadUint(r, 8, |want|, Flat(EncodeEnt, want) + tail);
    if !ok { return; }
    while n != 0
      invariant r.Valid()
      invariant good ==> n + |idx| == |want| && idx == want[..|idx|] && Facing(r, Flat(EncodeEnt, want[|idx|..]) + tail)
      decreases n
    {
      ghost var i := |idx|;
      ghost var w := if good then want[i] else IndexEnt([], 0, 0);
      ghost var after := if good then Flat(EncodeEnt, want[i + 1..]) + tail else [];
      if good {
        assert want[i..] == [w] + want[i + 1..] && w in want;
        FlatCons(EncodeEnt, w, want[i + 1..]);
        Assoc(EncodeEnt(w), Flat(EncodeEnt, want[i + 1..]), tail);
      }
      var e;
      ok, e := ReadEnt(r, w, after);
      if !ok { return; }
      idx := idx + [e];
      n := n - 1;
    }
  }

  lemma Taken(plain: seq<byte>, off: nat, want: seq<byte>, tail: seq<byte>)
    ensures off <= |plain| && plain[off..] == want + tail ==>
              off + |want| <= |plain| && plain[off..off + |want|] == want && plain[off + |want|..] == tail
  {
    if off <= |plain| && plain[off..] == want + tail {
      assert |plain| - off == |want| + |tail|;
      assert plain[off..off + |want|] == plain[off..][..|want|];
      assert plain[off + |want|..] == plain[off..][|want|..];
    }
  }

  /** The last eight bytes of a pack. */
  lemma PackTail(es: seq<Entry>)
    ensures var p, v, i := PackBytes(es), |Values(es)|, EncodeIndex(Sort(IndexOf(es, 0)));
            && |p| == v + |i| + 8 && p[|p| - 8..] == LE(v, 8) + []
            && p[v..] == i + LE(v, 8)
  {
    hide Flat, Sort, IndexOf, EncodeEnt, EncodeIndex, LE;
  }

  /** A pack small enough for 64-bit offsets has an index whose numbers fit their fields. */
  lemma IndexFits(es: seq<Entry>)
    requires |PackBytes(es)| < TWO_63
    requires forall e <- es :: |e.key| <= MAX_ENTRY && |e.val| <= MAX_ENTRY
    ensures FitsAll(Sort(IndexOf(es, 0))) && |Values(es)| < Pow256(8)
  {
    var raw := IndexOf(es, 0);
    var idx := Sort(raw);
    Pow256Values();
    forall e <- idx ensures Fits(e) {
      SameMembers(idx, raw, e);
      var i :| 0 <= i < |raw| && raw[i] == e;
      IndexAt(es, 0, i);
      assert es[i] in es;
    }
    FlatLen(idx);
  }

  lemma {:induction false} FlatLen(idx: Index)
    ensures |Flat(EncodeEnt, idx)| >= |idx|
  {
    if idx != [] { FlatLen(idx[1..]); }
  }

  class Pack {
    const r: Reader
    const size: nat
    var idx: Index
    ghost const es: seq<Entry>

    ghost predicate Valid()
      reads this, r, r.ctr.vec
    {
      && r.Valid() && size == |r.plain| < TWO_63 && r.plain == PackBytes(es)
      && Distinct(es) && forall e <- es :: |e.key| <= MAX_ENTRY && |e.val| <= MAX_ENTRY
    }

    /** The index has been read. */
    ghost predicate Indexed()
      reads this
    {
      idx == Sort(IndexOf(es, 0))
    }

    /** Open the file a pack writer left. */
    constructor (file: seq<byte>, cipher: Cipher, ghost iv: seq<byte>, ghost es: seq<Entry>)
      requires cipher.Proper() && |iv| == cipher.size && file == File(cipher, iv, PackBytes(es))
      requires |PackBytes(es)| < TWO_63 && Distinct(es)
      requires forall e <- es :: |e.key| <= MAX_ENTRY && |e.val| <= MAX_ENTRY
      ensures Valid() && this.es == es && fresh(r) && fresh(r.ctr) && fresh(r.ctr.vec)
    {
      var rd := new Reader(file, cipher, iv, PackBytes(es));
      var n := rd.Size();
      r := rd;
      size := n;
      idx := [];
      this.es := es;
    }

    /** Find and read the index. */
    method LoadIndex() returns (ok: bool)
      requires Valid()
      modifies this`idx, r`offset, r.ctr.vec
      ensures Valid() && ok && Indexed()
    {
      hide PackBytes, EncodeIndex, Sort, IndexOf, LE, Flat, File, Pad, Reader.Valid;
      ghost var want := Sort(IndexOf(es, 0));
      PackTail(es);
      IndexFits(es);
      SizeBound(r);
      var p := r.Seek(size - 8);
      var off;
      ok, off := ReadUint(r, 8, |Values(es)|, []);
      if !ok { return; }
      p := r.Seek(off);
      ok, idx := ReadIndex(r, want, LE(|Values(es)|, 8));
    }

    method GetAt(off: nat, sz: nat) returns (o: Outcome)
      requires Valid()
      modifies r`offset, r.ctr.vec
      ensures Valid()
      ensures off + sz <= |r.plain| ==> o == Bytes(r.plain[off..off + sz])
    {
      hide PackBytes, Reader.Valid;
      SizeBound(r);
      var p := r.Seek(off);
      o := r.ReadFull(sz);
    }

    /** The value first added under `key`, or NotFound if nothing was. */
    method Get(key: Key) returns (g: GetResult)
      requires Valid() && Indexed()
      modifies r`offset, r.ctr.vec
      ensures Valid()
      ensures forall e <- es :: e.key == key ==> g == Found(e.val)
      ensures !HasKey(es, key) ==> g == NotFound
    {
      hide Reader.Valid, Flat, PackBytes, Values, Sort, IndexOf;
      IndexSorted(es);
      var at, found := Search(idx, key);
      if !found {
        forall e <- es ensures e.key != key { KeyIndexed(es, e); }
        return NotFound;
      }
      var x := idx[at];
      ghost var e := EntryOf(es, x);
      var o := GetAt(x.offset, x.size);
      g := match o case Bytes(data) => Found(data) case Eof => Failed case Panic => Failed;
    }
  }

  lemma SizeBound(r: Reader)
    requires r.Valid()
    ensures |r.plain| <= r.size
  {
    PaddedLenSpec(|r.plain|, r.cipher.size);
  }

  lemma IndexSorted(es: seq<Entry>)
    requires Distinct(es)
    ensures Sorted(Sort(IndexOf(es, 0)))
  {
    var raw := IndexOf(es, 0);
    forall i | 0 <= i < |es| ensures raw[i].key == es[i].key { IndexAt(es, 0, i); }
    SortSorts(raw);
  }

  lemma KeyIndexed(es: seq<Entry>, e: Entry)
    requires e in es
    ensures exists x <- Sort(IndexOf(es, 0)) :: x.key == e.key
  {
    var i :| 0 <= i < |es| && es[i] == e;
    IndexAt(es, 0, i);
    var x := IndexOf(es, 0)[i];
    SameMembers(Sort(IndexOf(es, 0)), IndexOf(es, 0), x);
  }

  /** The entry an index entry was written for, and where its bytes are. */
  lemma EntryOf(es: seq<Entry>, x: IndexEnt) returns (e: Entry)
    requires Distinct(es) && x in Sort(IndexOf(es, 0))
    ensures e in es && e.key == x.key && (forall e' <- es :: e'.key == x.key ==> e' == e)
    ensures x.offset + x.size <= |PackBytes(es)| && PackBytes(es)[x.offset..x.offset + x.size] == e.val
  {
    hide Flat, Sort, IndexOf, PackBytes, Values;
    SameMembers(Sort(IndexOf(es, 0)), IndexOf(es, 0), x);
    var i :| 0 <= i < |es| && IndexOf(es, 0)[i] == x;
    IndexAt(es, 0, i);
    e := es[i];
    PackSlice(es, x.offset, x.size);
  }

  lemma PackSlice(es: seq<Entry>, off: nat, sz: nat)
    requires off + sz <= |Values(es)|
    ensures off + sz <= |PackBytes(es)| && PackBytes(es)[off..off + sz] == Values(es)[off..off + sz]
  {
    hide Values, EncodeIndex, Sort, LE;
  }
}
