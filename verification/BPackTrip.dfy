/** An encrypted pack from end to end: write, close, reopen, look up. */
module BPackTrip {
  import opened Bytes
  import opened BPack
  import CryptoFile
  import BPackWriter
  import opened BPackReader

  /** The value of the first entry under `key`. */
  function First(adds: seq<Entry>, key: Key): GetResult {
    if adds == [] then NotFound
    else if adds[0].key == key then Found(adds[0].val)
    else First(adds[1..], key)
  }

  lemma {:induction false} FirstSnoc(adds: seq<Entry>, e: Entry, key: Key)
    ensures First(adds + [e], key)
         == if First(adds, key).Found? then First(adds, key) else if e.key == key then Found(e.val) else NotFound
  {
    if adds == [] {
      assert adds + [e] == [e];
    } else {
      FirstSnoc(adds[1..], e, key);
      assert (adds + [e])[1..] == adds[1..] + [e];
    }
  }

  /** `es` holds the first value added under each key, and nothing else. */
  ghost predicate Keeps(es: seq<Entry>, adds: seq<Entry>) {
    && (forall e <- es :: e in adds && First(adds, e.key) == Found(e.val))
    && (forall key :: First(adds, key).Found? ==> HasKey(es, key))
  }

  lemma KeepsAdd(es: seq<Entry>, adds: seq<Entry>, a: Entry)
    requires Keeps(es, adds)
    ensures Keeps(AddEntry(es, a.key, a.val), adds + [a])
  {
    var es' := AddEntry(es, a.key, a.val);
    forall key ensures First(adds + [a], key).Found? ==> HasKey(es', key) {
      FirstSnoc(adds, a, key);
      if HasKey(es, key) {
        var e :| e in es && e.key == key;
        assert e in es';
      } else if key == a.key {
        assert es' == es + [a] && a in es';
      }
    }
    forall e <- es' ensures First(adds + [a], e.key) == Found(e.val) {
      FirstSnoc(adds, a, e.key);
      if e !in es {
        assert e == a && !HasKey(es, a.key);
      }
    }
  }

  /** Add all of `adds`, close the pack, reopen the file and look `key` up. */
  method StoreAndFetch(cipher: CryptoFile.Cipher, iv: seq<byte>, adds: seq<Entry>, key: Key)
    returns (ok: bool, file: seq<byte>, g: GetResult)
    requires cipher.Proper() && |iv| == cipher.size
    ensures ok ==> g == First(adds, key)
    ensures !ok ==> |file| >= TWO_63 || exists e <- adds :: |e.key| > MAX_ENTRY || |e.val| > MAX_ENTRY
  {
    hide Flat, PackBytes, CryptoFile.File, BPackWriter.Writer.Valid, Pack.Valid, First;
    file, g := [], Failed;
    var w := new BPackWriter.Writer(cipher, iv);
    var i := 0;
    assert adds[..0] == [];
    KeepsNothing();
    while i < |adds|
      invariant 0 <= i <= |adds| && w.Valid() && w.w.cipher == cipher && w.w.ctr.iv == iv
      invariant fresh(w) && fresh(w.w) && fresh(w.w.buf) && fresh(w.w.ctr) && fresh(w.w.ctr.vec)
      invariant Keeps(w.es, adds[..i])
    {
      assert adds[..i + 1] == adds[..i] + [adds[i]];
      KeepsAdd(w.es, adds[..i], adds[i]);
      ok := w.Add(adds[i].key, adds[i].val);
      if !ok {
        assert adds[i] in adds;
        return;
      }
      i := i + 1;
    }
    assert adds[..i] == adds;
    ghost var es := w.es;
    ValsFit(w);
    ok := w.Close();
    if !ok { return; }
    file := w.w.out;
    FileLen(cipher, iv, PackBytes(es));
    if |file| >= TWO_63 { return false, file, Failed; }
    var p := new Pack(file, cipher, iv, es);
    ok := p.LoadIndex();
    g := p.Get(key);
    KeepsFinds(es, adds, key);
  }

  lemma KeepsNothing()
    ensures Keeps([], [])
  {
  }

  lemma ValsFit(w: BPackWriter.Writer)
    requires w.Valid()
    ensures Distinct(w.es) && forall e <- w.es :: |e.val| <= MAX_ENTRY
  {
  }

  lemma FileLen(c: CryptoFile.Cipher, iv: seq<byte>, plain: seq<byte>)
    requires c.Proper() && |iv| == c.size
    ensures |CryptoFile.File(c, iv, plain)| > |plain|
  {
    CryptoFile.PaddedLenSpec(|plain|, c.size);
  }

  lemma KeepsFinds(es: seq<Entry>, adds: seq<Entry>, key: Key)
    requires Keeps(es, adds)
    ensures HasKey(es, key) ==> exists e <- es :: e.key == key && First(adds, key) == Found(e.val)
    ensures !HasKey(es, key) ==> First(adds, key) == NotFound
  {
    FoundOrNot(adds, key);
  }

  lemma {:induction false} FoundOrNot(adds: seq<Entry>, key: Key)
    ensures First(adds, key).Found? || First(adds, key) == NotFound
  {
    if adds != [] { FoundOrNot(adds[1..], key); }
  }
}
