/**
 The content store a client writes through: a working set, a pack being written, closed packs, and a
 meta index that says which closed pack has which key and may be out of date. Together they act as
 one map from hash to bytes. Packs are taken at the level of their entries; that writing and reading
 a pack file gives back its entries is proved in BPackTrip.
 */
module CStore {
  import opened Bytes
  import opened ChunkStore
  import opened BPack
  import opened BPackReader
  import GcRun
  import GcState
  import GcSweep

  const FLUSH_SIZE: nat := 128 * 1024 * 1024
  const MAX_READERS: nat := 5

  type Name = nat
  type Packs = map<Name, seq<Entry>>
  type Contents = map<Key, seq<byte>>
  datatype Codec = Codec(compress: seq<byte> -> seq<byte>, decompress: seq<byte> -> seq<byte>)
  datatype PackInfo = PackInfo(name: Name, idx: Index)
  type MetaIndex = map<Key, PackInfo>
  datatype OpenPack = NoPack | OpenPack(name: Name, es: seq<Entry>)
  datatype Fetched = Missing | Fetched(data: seq<byte>)

  /** What is asked of DEFLATE: it is undone by its inverse, and its output is never empty. */
  ghost predicate Proper(c: Codec) {
    forall x :: c.decompress(c.compress(x)) == x && c.compress(x) != []
  }

  function PackIndex(es: seq<Entry>): Index {
    Sort(IndexOf(es, 0))
  }

  /** A pack of the store: one compressed chunk per key. */
  ghost predicate PackHolds(c: Codec, es: seq<Entry>, contents: Contents) {
    && Distinct(es)
    && forall e <- es ::
         e.key in contents && e.val == c.compress(contents[e.key]) && |e.val| <= MAX_ENTRY && |e.key| == 32
  }

  /** The store closes a pack soon after FLUSH_SIZE; the collector's packs may be larger. */
  ghost predicate ClosedOk(c: Codec, packs: Packs, contents: Contents) {
    forall n <- packs :: PackHolds(c, packs[n], contents) && |Values(packs[n])| < GcSweep.TWO_32
  }

  ghost predicate OpenOk(c: Codec, pack: OpenPack, packs: Packs, ws: map<Key, seq<byte>>, sz: nat, contents: Contents) {
    && (forall k <- ws :: k in contents && contents[k] == ws[k])
    && match pack
       case NoPack => ws == map[] && sz == 0
       case OpenPack(name, es) =>
         name !in packs && PackHolds(c, es, contents) && Keys(es) == ws.Keys && sz == |Values(es)|
  }

  /** Every chunk is in the working set or in a closed pack. */
  ghost predicate Complete(packs: Packs, ws: map<Key, seq<byte>>, contents: Contents) {
    forall k <- contents :: k in ws || exists n <- packs :: k in Keys(packs[n])
  }

  /** The meta index says nothing wrong, but need not know every closed pack. */
  ghost predicate IndexOk(midx: MetaIndex, packs: Packs) {
    forall k <- midx ::
      midx[k].name in packs && midx[k].idx == PackIndex(packs[midx[k].name]) && k in Keys(packs[midx[k].name])
  }

  /** The meta index knows every closed pack. */
  ghost predicate UpToDate(midx: MetaIndex, packs: Packs) {
    forall n <- packs, k <- Keys(packs[n]) :: k in midx
  }

  ghost predicate ReadersOk(lru: seq<Name>, packs: Packs) {
    |lru| <= MAX_READERS && (forall n <- lru :: n in packs) && forall i, j | 0 <= i < j < |lru| :: lru[i] != lru[j]
  }

  // ---------------------------------------------------------------- meta index

  /** Look a key up. A key the meta index has is always found in the index of its pack: the panic
      about a corrupt meta index cannot happen. */
  method SearchMetaIndex(midx: MetaIndex, key: Key, ghost c: Codec, ghost packs: Packs, ghost contents: Contents)
    returns (found: bool, info: PackInfo, ent: IndexEnt)
    requires IndexOk(midx, packs) && ClosedOk(c, packs, contents)
    ensures found <==> key in midx
    ensures found ==> info == midx[key] && ent in info.idx && ent.key == key
  {
    hide Sort, IndexOf, Values;
    info, ent := PackInfo(0, []), IndexEnt([], 0, 0);
    found := key in midx;
    if found {
      info := midx[key];
      ghost var es := packs[info.name];
      IndexSorted(es);
      var at, ok := Search(info.idx, key);
      ghost var e: Entry :| e in es && e.key == key;
      KeyIndexed(es, e);
      assert ok;
      ent := info.idx[at];
    }
  }

  /** `midx` as it is after the packs listed so far. */
  ghost predicate Indexed(midx: MetaIndex, packs: Packs, listed: seq<Name>) {
    IndexOk(midx, packs) && forall n <- listed :: n in packs ==> forall k <- Keys(packs[n]) :: k in midx
  }

  /** Build the meta index; where packs share a key the last one listed wins. */
  method ReadMetaIndex(packs: Packs, listing: seq<Name>) returns (midx: MetaIndex)
    requires packs.Keys == set n <- listing
    ensures IndexOk(midx, packs) && UpToDate(midx, packs)
  {
    hide PackIndex, IndexOk, Keys;
    midx := map[];
    NoneIndexed(packs);
    var i := 0;
    while i < |listing|
      invariant 0 <= i <= |listing| && Indexed(midx, packs, listing[..i])
    {
      assert listing[i] in packs.Keys;
      midx := AddPack(midx, packs, listing[..i], listing[i]);
      assert listing[..i + 1] == listing[..i] + [listing[i]];
      i := i + 1;
    }
    assert listing[..i] == listing;
  }

  lemma NoneIndexed(packs: Packs)
    ensures Indexed(map[], packs, [])
  {
  }

  method AddPack(midx: MetaIndex, packs: Packs, ghost listed: seq<Name>, name: Name) returns (r: MetaIndex)
    requires name in packs && Indexed(midx, packs, listed)
    ensures Indexed(r, packs, listed + [name])
  {
    hide Sort, IndexOf;
    var idx := PackIndex(packs[name]);
    var info := PackInfo(name, idx);
    SameKeys(packs[name]);
    r := midx;
    for i := 0 to |idx|
      invariant Indexed(r, packs, listed) && forall j | 0 <= j < i :: idx[j].key in r
    {
      assert idx[i] in idx;
      r := r[idx[i].key := info];
    }
    forall k <- Keys(packs[name]) ensures k in r {
      var x :| x in idx && x.key == k;
    }
  }

  /** A pack's index has the keys of the pack. */
  lemma SameKeys(es: seq<Entry>)
    ensures forall x <- PackIndex(es) :: x.key in Keys(es)
    ensures forall k <- Keys(es) :: exists x <- PackIndex(es) :: x.key == k
  {
    hide Sort, IndexOf;
    forall x <- PackIndex(es) ensures x.key in Keys(es) {
      SameMembers(PackIndex(es), IndexOf(es, 0), x);
      var i :| 0 <= i < |es| && IndexOf(es, 0)[i] == x;
      IndexAt(es, 0, i);
      assert es[i] in es;
    }
    forall k <- Keys(es) ensures exists x <- PackIndex(es) :: x.key == k {
      var e :| e in es && e.key == k;
      KeyIndexed(es, e);
    }
  }

  // ---------------------------------------------------------------- the store

  /** Nothing that was there has changed or gone. */
  ghost predicate Extends(m: Contents, m': Contents) {
    forall k <- m :: k in m' && m'[k] == m[k]
  }

  lemma HoldsMore(c: Codec, es: seq<Entry>, m: Contents, m': Contents)
    requires PackHolds(c, es, m) && Extends(m, m')
    ensures PackHolds(c, es, m')
  {
  }

  lemma ClosedMore(c: Codec, packs: Packs, m: Contents, m': Contents)
    requires ClosedOk(c, packs, m) && Extends(m, m')
    ensures ClosedOk(c, packs, m')
  {
    hide PackHolds, Extends;
    forall n <- packs ensures PackHolds(c, packs[n], m') { HoldsMore(c, packs[n], m, m'); }
  }

  /** The entry of a new chunk at the end of the open pack. */
  lemma AddOk(c: Codec, pack: OpenPack, packs: Packs, ws: map<Key, seq<byte>>, sz: nat, m: Contents,
              h: Key, data: seq<byte>)
    requires pack.OpenPack? && OpenOk(c, pack, packs, ws, sz, m) && h !in ws && |h| == 32
    requires |c.compress(data)| <= MAX_ENTRY && (h in m ==> m[h] == data)
    ensures var es := pack.es + [Entry(h, c.compress(data))];
      OpenOk(c, pack.(es := es), packs, ws[h := data], sz + |c.compress(data)|, m[h := data])
  {
    hide Values, PackHolds, Keys;
    var e := Entry(h, c.compress(data));
    IndexAppend(pack.es, e, 0);
    HoldsSnoc(c, pack.es, m, h, data);
    KeysSnoc(pack.es, e);
  }

  lemma HoldsSnoc(c: Codec, es: seq<Entry>, m: Contents, h: Key, data: seq<byte>)
    requires PackHolds(c, es, m) && h !in Keys(es) && |h| == 32
    requires |c.compress(data)| <= MAX_ENTRY && (h in m ==> m[h] == data)
    ensures PackHolds(c, es + [Entry(h, c.compress(data))], m[h := data])
  {
    HoldsMore(c, es, m, m[h := data]);
    forall i | 0 <= i < |es| ensures es[i].key != h { assert es[i] in es; }
    forall x <- es + [Entry(h, c.compress(data))] ensures x in es || x == Entry(h, c.compress(data)) { }
  }

  lemma CompleteMore(packs: Packs, ws: map<Key, seq<byte>>, m: Contents, h: Key, data: seq<byte>)
    requires Complete(packs, ws, m)
    ensures Complete(packs, ws[h := data], m[h := data])
  {
  }

  /** Closing the open pack moves the working set into a closed pack. */
  lemma FlushOk(c: Codec, pack: OpenPack, packs: Packs, ws: map<Key, seq<byte>>, sz: nat, m: Contents)
    requires pack.OpenPack? && OpenOk(c, pack, packs, ws, sz, m) && sz <= FLUSH_SIZE + MAX_ENTRY
    requires ClosedOk(c, packs, m) && Complete(packs, ws, m)
    ensures var p := packs[pack.name := pack.es];
      ClosedOk(c, p, m) && Complete(p, map[], m) && OpenOk(c, NoPack, p, map[], 0, m)
  {
    hide PackHolds, Values, Keys;
    var p := packs[pack.name := pack.es];
    forall k <- m ensures exists n <- p :: k in Keys(p[n]) {
      if k in ws {
        assert k in Keys(p[pack.name]);
      } else {
        var n :| n in packs && k in Keys(packs[n]);
        assert k in Keys(p[n]);
      }
    }
  }

  lemma CompletePack(packs: Packs, ws: map<Key, seq<byte>>, m: Contents, m': Contents, name: Name, es: seq<Entry>)
    requires Complete(packs, ws, m) && name !in packs && m'.Keys == m.Keys + Keys(es)
    ensures Complete(packs[name := es], ws, m')
  {
    hide Keys;
    var p := packs[name := es];
    forall k <- m' ensures k in ws || exists n <- p :: k in Keys(p[n]) {
      if k in Keys(es) {
        assert k in Keys(p[name]);
      } else if k !in ws {
        var n :| n in packs && k in Keys(packs[n]);
        assert k in Keys(p[n]);
      }
    }
  }

  lemma IndexMore(midx: MetaIndex, packs: Packs, name: Name, es: seq<Entry>)
    requires IndexOk(midx, packs) && name !in packs
    ensures IndexOk(midx, packs[name := es])
  {
    hide PackIndex, Keys;
  }

  /** What a closed pack gives for a key, by way of its index. */
  lemma FetchOk(c: Codec, packs: Packs, m: Contents, n: Name, ent: IndexEnt)
    requires Proper(c) && ClosedOk(c, packs, m) && n in packs && ent in PackIndex(packs[n])
    ensures ent.key in m && ent.offset + ent.size <= |PackBytes(packs[n])|
    ensures c.decompress(PackBytes(packs[n])[ent.offset..ent.offset + ent.size]) == m[ent.key]
  {
    hide Sort, IndexOf, PackBytes, Values;
    var e := EntryOf(packs[n], ent);
  }

  class Store {
    const H: Hasher
    const codec: Codec
    var packs: Packs                     // the closed packs at the remote
    var pack: OpenPack
    var workingSet: map<Key, seq<byte>>
    var workingSetSz: nat
    var midx: MetaIndex
    var lru: seq<Name>                   // packs with an open reader, most recent first
    ghost var contents: Contents

    ghost predicate Valid()
      reads this
    {
      && Proper(codec) && ClosedOk(codec, packs, contents)
      && OpenOk(codec, pack, packs, workingSet, workingSetSz, contents) && workingSetSz <= FLUSH_SIZE
      && Complete(packs, workingSet, contents)
      && IndexOk(midx, packs) && ReadersOk(lru, packs)
    }

    /** Start on packs that are already there. */
    constructor (H: Hasher, codec: Codec, packs: Packs, ghost contents: Contents)
      requires Proper(codec) && ClosedOk(codec, packs, contents) && Complete(packs, map[], contents)
      ensures Valid() && this.H == H && this.codec == codec && this.packs == packs && this.contents == contents
      ensures UpToDate(midx, packs)
    {
      hide ClosedOk, OpenOk, Complete, IndexOk, UpToDate, ReadersOk, Proper;
      this.H, this.codec := H, codec;
      this.packs, this.contents := packs, contents;
      pack, workingSet, workingSetSz := NoPack, map[], 0;
      lru := [];
      var listing := List(packs);
      var read := ReadMetaIndex(packs, listing);
      midx := read;
      new;
      NothingOpen(codec, packs, contents);
    }

    method Put(data: seq<byte>) returns (h: Hash, ok: bool)
      requires Valid() && (H(data) in contents ==> contents[H(data)] == data)
      modifies this
      ensures Valid() && h == H(data)
      ensures ok <==> |codec.compress(data)| <= MAX_ENTRY
      ensures contents == if ok then old(contents)[h := data] else old(contents)
      ensures midx == old(midx) && Grown(old(packs), packs)
      ensures ok ==> (h in workingSet || h in midx <==>
        h in old(workingSet) || h in old(midx) || old(workingSetSz) + |codec.compress(data)| <= FLUSH_SIZE)
    {
      hide OpenOk, ClosedOk, Complete, IndexOk, ReadersOk, Proper, Keys, Grown;
      h := H(data);
      PacksSame(packs);
      if h in workingSet {
        WorkingOk(codec, pack, packs, workingSet, workingSetSz, contents, h);
        WorkingFits(codec, pack, packs, workingSet, workingSetSz, contents, h);
        return h, true;
      }
      if h in midx {
        IndexedOk(codec, packs, midx, contents, h);
        return h, true;
      }
      if pack.NoPack? {
        ghost var n := GcSweep.FreshName(packs.Keys);
        var name: Name :| name !in packs;
        OpenEmpty(codec, packs, workingSet, workingSetSz, contents, name);
        pack := OpenPack(name, []);
      }
      var compressed := codec.compress(data);
      if |compressed| > MAX_ENTRY { return h, false; }
      AddOk(codec, pack, packs, workingSet, workingSetSz, contents, h, data);
      CompleteMore(packs, workingSet, contents, h, data);
      ClosedMore(codec, packs, contents, contents[h := data]);
      pack := pack.(es := pack.es + [Entry(h, compressed)]);
      workingSetSz := workingSetSz + |compressed|;
      workingSet := workingSet[h := data];
      contents := contents[h := data];
      if workingSetSz > FLUSH_SIZE {
        FlushWorkingSet();
      }
      ok := true;
    }

    /** Between the two bounds only inside Put. */
    method FlushWorkingSet()
      requires Proper(codec) && ClosedOk(codec, packs, contents)
      requires OpenOk(codec, pack, packs, workingSet, workingSetSz, contents) && workingSetSz <= FLUSH_SIZE + MAX_ENTRY
      requires Complete(packs, workingSet, contents) && IndexOk(midx, packs) && ReadersOk(lru, packs)
      modifies this
      ensures Valid() && contents == old(contents) && midx == old(midx) && workingSet == map[]
      ensures Grown(old(packs), packs)
    {
      hide ClosedOk, Complete, IndexOk, Proper, Keys, PackHolds, Values;
      PacksSame(packs);
      if pack.OpenPack? {
        FlushOk(codec, pack, packs, workingSet, workingSetSz, contents);
        IndexMore(midx, packs, pack.name, pack.es);
        packs := packs[pack.name := pack.es];
        pack := NoPack;
        workingSetSz := 0;
        workingSet := map[];
      }
    }

    /** Explicit flush: the reader is opened anew, so the meta index is up to date afterwards. */
    method Flush()
      requires Valid()
      modifies this
      ensures Valid() && contents == old(contents) && workingSet == map[]
      ensures UpToDate(midx, packs) && Grown(old(packs), packs)
    {
      hide OpenOk, ClosedOk, Complete, IndexOk, Proper, Keys, UpToDate, Grown;
      FlushWorkingSet();
      var listing := List(packs);
      midx := ReadMetaIndex(packs, listing);
      lru := [];
    }

    /** The store is one map, however stale the meta index. */
    method Get(h: Hash) returns (r: Fetched)
      requires Valid()
      modifies this`midx, this`lru
      ensures Valid()
      ensures r == if h in contents then Fetched(contents[h]) else Missing
      ensures r == Missing ==> UpToDate(midx, packs)
    {
      hide OpenOk, ClosedOk, Complete, IndexOk, Proper, Keys, UpToDate, ReadersOk, PackBytes, PackIndex;
      if h in workingSet {
        WorkingOk(codec, pack, packs, workingSet, workingSetSz, contents, h);
        return Fetched(workingSet[h]);
      }
      var found, info, ent := SearchMetaIndex(midx, h, codec, packs, contents);
      if !found {
        var listing := List(packs);
        midx := ReadMetaIndex(packs, listing);
        found, info, ent := SearchMetaIndex(midx, h, codec, packs, contents);
        if !found {
          NowhereElse(packs, midx, workingSet, contents, h);
          return Missing;
        }
      }
      InfoOk(midx, packs, h);
      GetPackReader(info.name);
      FetchOk(codec, packs, contents, info.name, ent);
      var buf := PackBytes(packs[info.name])[ent.offset..ent.offset + ent.size];
      r := Fetched(codec.decompress(buf));
    }

    /** Answers from the working set and the meta index as it is. */
    method Has(h: Hash) returns (b: bool)
      requires Valid()
      ensures b <==> h in workingSet || h in midx
      ensures b ==> h in contents
      ensures UpToDate(midx, packs) ==> (b <==> h in contents)
    {
      hide OpenOk, ClosedOk, Complete, IndexOk, Proper, Keys, UpToDate, ReadersOk;
      b := h in workingSet || h in midx;
      if h in workingSet { WorkingOk(codec, pack, packs, workingSet, workingSetSz, contents, h); }
      if h in midx { IndexedOk(codec, packs, midx, contents, h); }
      if !b && UpToDate(midx, packs) { NowhereElse(packs, midx, workingSet, contents, h); }
    }

    /** Keep at most five packs open, dropping the one unused the longest. */
    method GetPackReader(name: Name)
      requires ReadersOk(lru, packs) && name in packs
      modifies this`lru
      ensures ReadersOk(lru, packs) && lru != [] && lru[0] == name
      ensures forall i | 0 <= i < |old(lru)| && old(lru)[i] == name ::
        lru == [name] + (old(lru)[..i] + old(lru)[i + 1..])
      ensures name !in old(lru) ==> lru == [name] + old(lru)[..Min(|old(lru)|, MAX_READERS - 1)]
    {
      hide ReadersOk;
      var i := 0;
      while i < |lru|
        invariant 0 <= i <= |lru| && lru == old(lru) && forall j | 0 <= j < i :: lru[j] != name
      {
        if lru[i] == name {
          FrontOk(lru, packs, i);
          lru := [name] + (lru[..i] + lru[i + 1..]);
          return;
        }
        i := i + 1;
      }
      PushOk(lru, packs, name);
      lru := [name] + lru;
      if |lru| > MAX_READERS {
        lru := lru[..|lru| - 1];
      }
    }

    /** Another client's pack appears at the remote. */
    method Arrive(name: Name, es: seq<Entry>, ghost more: Contents)
      requires Valid() && name !in packs && (pack.OpenPack? ==> name != pack.name)
      requires PackHolds(codec, es, more) && |Values(es)| < GcSweep.TWO_32
      requires Extends(contents, more) && more.Keys == contents.Keys + Keys(es)
      modifies this`packs, this`contents
      ensures Valid() && contents == more && packs == old(packs)[name := es]
    {
      hide Proper, Keys, PackHolds, Values, IndexOk, Complete;
      ClosedMore(codec, packs, contents, more);
      if pack.OpenPack? { HoldsMore(codec, pack.es, contents, more); }
      IndexMore(midx, packs, name, es);
      CompletePack(packs, workingSet, contents, more, name, es);
      packs, contents := packs[name := es], more;
    }

    /** A Put that fills the pack is forgotten by Has, though Get still finds it. */
    method HasForgets(data: seq<byte>) returns (has: bool, got: Fetched)
      requires Valid() && H(data) !in contents
      requires |codec.compress(data)| <= MAX_ENTRY && workingSetSz + |codec.compress(data)| > FLUSH_SIZE
      modifies this
      ensures !has && got == Fetched(data)
    {
      hide OpenOk, ClosedOk, Complete, IndexOk, Proper, Keys, UpToDate, ReadersOk, Grown;
      var before := Has(H(data));
      var h, ok := Put(data);
      has := Has(h);
      got := Get(h);
    }
  }

  lemma FrontOk(l: seq<Name>, packs: Packs, i: nat)
    requires ReadersOk(l, packs) && i < |l|
    ensures ReadersOk([l[i]] + (l[..i] + l[i + 1..]), packs) && forall j | 0 <= j < |l| && l[j] == l[i] :: j == i
  {
    var rest := l[..i] + l[i + 1..];
    assert l == l[..i] + [l[i]] + l[i + 1..];
    forall j | 0 <= j < |rest| ensures rest[j] == l[if j < i then j else j + 1] { }
  }

  lemma PushOk(l: seq<Name>, packs: Packs, name: Name)
    requires ReadersOk(l, packs) && name in packs && name !in l
    ensures var r, kept := [name] + l, [name] + l[..Min(|l|, MAX_READERS - 1)];
      ReadersOk(kept, packs) && kept == if |r| > MAX_READERS then r[..|r| - 1] else r
  {
    assert forall j | 0 <= j < |l| :: l[j] in l;
  }

  /** Closed packs stay. */
  ghost predicate Grown(packs: Packs, packs': Packs) {
    forall n <- packs :: n in packs' && packs'[n] == packs[n]
  }

  lemma PacksSame(packs: Packs)
    ensures Grown(packs, packs)
  {
  }

  /** The remote's listing, in any order. */
  method List(packs: Packs) returns (listing: seq<Name>)
    ensures packs.Keys == set n <- listing
  {
    listing := [];
    var rest := packs.Keys;
    while rest != {}
      invariant forall n :: n in packs <==> n in rest || n in listing
      decreases rest
    {
      var n :| n in rest;
      listing := listing + [n];
      rest := rest - {n};
    }
  }

  lemma NothingOpen(c: Codec, packs: Packs, m: Contents)
    ensures OpenOk(c, NoPack, packs, map[], 0, m) && ReadersOk([], packs)
  {
  }

  lemma OpenEmpty(c: Codec, packs: Packs, ws: map<Key, seq<byte>>, sz: nat, m: Contents, name: Name)
    requires OpenOk(c, NoPack, packs, ws, sz, m) && name !in packs
    ensures OpenOk(c, OpenPack(name, []), packs, ws, sz, m)
  {
  }

  lemma WorkingOk(c: Codec, pack: OpenPack, packs: Packs, ws: map<Key, seq<byte>>, sz: nat, m: Contents, h: Key)
    requires OpenOk(c, pack, packs, ws, sz, m) && h in ws
    ensures h in m && m[h] == ws[h]
  {
  }

  lemma IndexedOk(c: Codec, packs: Packs, midx: MetaIndex, m: Contents, h: Key)
    requires ClosedOk(c, packs, m) && IndexOk(midx, packs) && h in midx
    ensures h in m && |c.compress(m[h])| <= MAX_ENTRY
  {
    hide PackIndex, Keys, PackHolds;
    HoldsKey(c, packs[midx[h].name], m, h);
  }

  /** A chunk that is in a pack fits an entry. */
  lemma HoldsKey(c: Codec, es: seq<Entry>, m: Contents, h: Key)
    requires PackHolds(c, es, m) && h in Keys(es)
    ensures h in m && |c.compress(m[h])| <= MAX_ENTRY
  {
    var e :| e in es && e.key == h;
  }

  lemma WorkingFits(c: Codec, pack: OpenPack, packs: Packs, ws: map<Key, seq<byte>>, sz: nat, m: Contents, h: Key)
    requires OpenOk(c, pack, packs, ws, sz, m) && h in ws
    ensures h in m && |c.compress(m[h])| <= MAX_ENTRY
  {
    hide Keys, PackHolds;
    HoldsKey(c, pack.es, m, h);
  }

  lemma InfoOk(midx: MetaIndex, packs: Packs, h: Key)
    requires IndexOk(midx, packs) && h in midx
    ensures midx[h].name in packs && midx[h].idx == PackIndex(packs[midx[h].name])
  {
    hide PackIndex;
  }

  lemma NowhereElse(packs: Packs, midx: MetaIndex, ws: map<Key, seq<byte>>, m: Contents, h: Key)
    requires Complete(packs, ws, m) && UpToDate(midx, packs)
    ensures h in m ==> h in ws || h in midx
  {
    hide Keys;
  }

  lemma ClosedAt(c: Codec, packs: Packs, m: Contents, n: Name)
    requires ClosedOk(c, packs, m) && n in packs
    ensures PackHolds(c, packs[n], m) && |Values(packs[n])| < GcSweep.TWO_32
  {
    hide PackHolds, Values;
  }

  /** A closed pack can be swept if its entries are genuine: its values are distinct and never empty, and
      its sizes cannot overflow 32 bits. */
  lemma Sweepable(c: Codec, packs: Packs, m: Contents, n: Name, good: GcState.Genuine, size: nat)
    requires Proper(c) && ClosedOk(c, packs, m) && n in packs && forall e <- packs[n] :: good(e)
    ensures GcSweep.PackOk(good, GcState.Pack(packs[n], size)) && forall e <- packs[n] :: e.val != []
  {
    hide Values;
    var es := packs[n];
    assert PackHolds(c, es, m);
    forall i | 0 <= i < |es| ensures es[i].val != [] { assert es[i] in es; }
  }
}
