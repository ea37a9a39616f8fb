/** Writing an encrypted pack: values stream out as they are added, the index follows on Close. */
module BPackWriter {
  import opened Bytes
  import opened BPack
  import CryptoFile
  import CryptoWriter

  class Writer {
    const w: CryptoWriter.Writer
    var keys: set<Key>
    var index: Index
    var offset: nat
    ghost var es: seq<Entry>      // the values of the pack, in the order they were added

    ghost predicate Valid()
      reads this, w, w.buf, w.ctr.vec
    {
      && w.Valid() && w.Plain() == Values(es)
      && Distinct(es) && (forall e <- es :: |e.val| <= MAX_ENTRY)
      && keys == (set e <- es :: e.key)
      && index == IndexOf(es, 0) && offset == |Values(es)|
    }

    constructor (cipher: CryptoFile.Cipher, iv: seq<byte>)
      requires cipher.Proper() && |iv| == cipher.size
      ensures Valid() && fresh(w) && fresh(w.buf) && fresh(w.ctr) && fresh(w.ctr.vec)
      ensures w.cipher == cipher && w.ctr.iv == iv && es == []
    {
      w := new CryptoWriter.Writer(cipher, iv);
      keys, index, offset := {}, [], 0;
      es := [];
    }

    predicate Has(key: Key)
      reads this
    {
      key in keys
    }

    /** Append a value under a new key; a key that is there already keeps its value. */
    method Add(key: Key, val: seq<byte>) returns (ok: bool)
      requires Valid()
      modifies this, w, w.buf, w.ctr.vec
      ensures Valid()
      ensures ok <==> HasKey(old(es), key) || |val| <= MAX_ENTRY
      ensures es == if ok then AddEntry(old(es), key, val) else old(es)
    {
      hide Flat, IndexOf, Values, Distinct, CryptoWriter.Writer.Valid, CryptoWriter.Writer.Plain;
      assert key in keys <==> HasKey(es, key);
      if key in keys { return true; }
      if |val| > MAX_ENTRY { return false; }
      w.Write(val);
      AddDistinct(es, key, val);
      IndexAppend(es, Entry(key, val), 0);
      keys := keys + {key};
      index := index + [IndexEnt(key, |val|, offset)];
      offset := offset + |val|;
      es := es + [Entry(key, val)];
      ok := true;
    }

    method WriteUint(n: nat, width: nat)
      requires w.Valid()
      modifies w, w.buf, w.ctr.vec
      ensures w.Valid() && w.Plain() == old(w.Plain()) + LE(n, width)
    {
      w.Write(LE(n, width));
    }

    /** A length-prefixed byte string, if its length fits in 24 bits. */
    method WriteSlice(s: seq<byte>) returns (ok: bool)
      requires w.Valid()
      modifies w, w.buf, w.ctr.vec
      ensures w.Valid() && (ok <==> |s| <= MAX_ENTRY)
      ensures ok ==> w.Plain() == old(w.Plain()) + (LE(|s|, 3) + s)
    {
      if |s| > MAX_ENTRY { return false; }
      WriteUint(|s|, 3);
      w.Write(s);
      ok := true;
    }

    /** Sort the index and write it. */
    method WriteIndex() returns (ok: bool)
      requires w.Valid()
      modifies this`index, w, w.buf, w.ctr.vec
      ensures w.Valid() && index == Sort(old(index))
      ensures ok <==> forall e <- index :: |e.key| <= MAX_ENTRY
      ensures ok ==> w.Plain() == old(w.Plain()) + EncodeIndex(index)
    {
      hide EncodeEnt, Flat, Sort, CryptoWriter.Writer.Valid, CryptoWriter.Writer.Plain;
      index := Sort(index);
      WriteUint(|index|, 8);
      ok := WriteEnts(index);
      Assoc(old(w.Plain()), LE(|index|, 8), Flat(EncodeEnt, index));
    }

    method WriteEnts(idx: Index) returns (ok: bool)
      requires w.Valid()
      modifies w, w.buf, w.ctr.vec
      ensures w.Valid()
      ensures ok <==> forall e <- idx :: |e.key| <= MAX_ENTRY
      ensures ok ==> w.Plain() == old(w.Plain()) + Flat(EncodeEnt, idx)
    {
      hide EncodeEnt, Flat, CryptoWriter.Writer.Valid, CryptoWriter.Writer.Plain;
      ghost var start := w.Plain();
      FlatNone(start, idx);
      var i := 0;
      while i < |idx|
        invariant 0 <= i <= |idx| && w.Valid()
        invariant forall j | 0 <= j < i :: |idx[j].key| <= MAX_ENTRY
        invariant w.Plain() == start + Flat(EncodeEnt, idx[..i])
      {
        FlatSnoc(EncodeEnt, idx, i);
        Assoc(start, Flat(EncodeEnt, idx[..i]), EncodeEnt(idx[i]));
        ok := WriteEnt(idx[i]);
        if !ok { return; }
        i := i + 1;
      }
      assert idx[..i] == idx;
      ok := true;
    }

    method WriteEnt(e: IndexEnt) returns (ok: bool)
      requires w.Valid()
      modifies w, w.buf, w.ctr.vec
      ensures w.Valid() && (ok <==> |e.key| <= MAX_ENTRY)
      ensures ok ==> w.Plain() == old(w.Plain()) + EncodeEnt(e)
    {
      hide CryptoWriter.Writer.Valid, CryptoWriter.Writer.Plain, LE;
      ok := WriteSlice(e.key);
      if ok {
        WriteUint(e.size, 3);
        WriteUint(e.offset, 8);
        Assoc(old(w.Plain()), LE(|e.key|, 3) + e.key, LE(e.size, 3));
        Assoc(old(w.Plain()), LE(|e.key|, 3) + e.key + LE(e.size, 3), LE(e.offset, 8));
      }
    }

    /** Finish the file. A key too long for its length field is only noticed here. */
    method Close() returns (ok: bool)
      requires Valid()
      modifies this, w, w.buf, w.ctr.vec
      ensures ok <==> forall e <- old(es) :: |e.key| <= MAX_ENTRY
      ensures ok ==> w.cipher.Proper() && |w.ctr.iv| == w.cipher.size
      ensures ok ==> w.out == CryptoFile.File(w.cipher, w.ctr.iv, PackBytes(old(es)))
      ensures ok ==> index == Sort(IndexOf(old(es), 0))
    {
      var idxoffset := offset;
      ghost var vals := es;
      ok := WriteIndex();
      KeysOfIndex(vals, 0, index);
      if !ok { return; }
      WriteUint(idxoffset, 8);
      assert w.Plain() == PackBytes(vals);
      w.Close();
    }
  }

  lemma FlatNone(start: seq<byte>, idx: Index)
    ensures start + Flat(EncodeEnt, idx[..0]) == start
  {
    assert idx[..0] == [];
  }

  /** The keys of an index, in any order, are those of its entries. */
  lemma KeysOfIndex(es: seq<Entry>, off: nat, idx: Index)
    requires idx == Sort(IndexOf(es, off))
    ensures (forall e <- idx :: |e.key| <= MAX_ENTRY) <==> (forall e <- es :: |e.key| <= MAX_ENTRY)
  {
    hide IndexOf, Sort, Values;
    var raw := IndexOf(es, off);
    if forall e <- idx :: |e.key| <= MAX_ENTRY {
      forall e <- es ensures |e.key| <= MAX_ENTRY {
        var i :| 0 <= i < |es| && es[i] == e;
        IndexAt(es, off, i);
        SameMembers(idx, raw, raw[i]);
      }
    }
    if forall e <- es :: |e.key| <= MAX_ENTRY {
      forall x <- idx ensures |x.key| <= MAX_ENTRY {
        SameMembers(idx, raw, x);
        var i :| 0 <= i < |raw| && raw[i] == x;
        IndexAt(es, off, i);
        assert es[i] in es;
      }
    }
  }
}
