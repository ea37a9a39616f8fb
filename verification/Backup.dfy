/**
 From one version to the next. Taking a snapshot extends a whole archive by a whole version, and a
 flushed store is one a collection can start from.
 */
module Backup {
  import opened Bytes
  import opened ChunkStore
  import opened Directory
  import opened DirCodec
  import opened HTree
  import opened FsTree
  import opened FsStore
  import opened Refs
  import opened GcMark
  import Fs
  import Gc
  import CStore
  import CStoreRun
  import BPack
  import GcState
  import GcSweep

  // ---------------------------------------------------------------- files survive updates

  ghost predicate ItemsFiles(H: Hasher, m: Chunks, files: Files, items: seq<Item>) {
    forall i | 0 <= i < |items| :: FilesKept(H, m, files, items[i].body)
  }

  lemma FilesMake(H: Hasher, m: Chunks, files: Files, mode: Mode, items: seq<Item>)
    requires ItemsFiles(H, m, files, items)
    ensures MakeDir(mode, items).Ok? ==> FilesKept(H, m, files, MakeDir(mode, items).node)
  {
    hide Sort, Accepts;
    forall i | 0 <= i < |items| ensures FilesKept(H, m, files, Sort(items)[i].body) {
      SameMembers(items, Sort(items), Sort(items)[i]);
    }
  }

  /** Every file of the new tree is kept if those of the old tree and of the new entry are. */
  lemma {:induction false} FilesInsert(H: Hasher, m: Chunks, files: Files, d: FsTree.Node, path: Path, e: Item)
    requires d.Dir? && FilesKept(H, m, files, d) && FilesKept(H, m, files, e.body)
    ensures InsertAt(d, path, e).Ok? ==> FilesKept(H, m, files, InsertAt(d, path, e).node)
    decreases path
  {
    hide Accepts, Sort, MakeDir;
    if path == [] {
      FilesMake(H, m, files, d.mode, [e] + d.ents);
    } else {
      var i := Find(d.ents, path[0]);
      if i < |d.ents| && d.ents[i].body.Dir? {
        FilesInsert(H, m, files, d.ents[i].body, path[1..], e);
        var r := InsertAt(d.ents[i].body, path[1..], e);
        if r.Ok? { FilesMake(H, m, files, d.mode, d.ents[i := d.ents[i].(body := r.node)]); }
      }
    }
  }

  lemma {:induction false} FilesRemove(H: Hasher, m: Chunks, files: Files, d: FsTree.Node, path: Path)
    requires d.Dir? && path != [] && FilesKept(H, m, files, d)
    ensures RemoveAt(d, path).Ok? ==> FilesKept(H, m, files, RemoveAt(d, path).node)
    decreases path
  {
    hide Accepts, Sort, MakeDir, Without;
    if |path| == 1 {
      WithoutItems(d.ents, path[0]);
      var rest := Without(d.ents, path[0]);
      forall j | 0 <= j < |rest| ensures FilesKept(H, m, files, rest[j].body) { assert rest[j] in d.ents; }
      FilesMake(H, m, files, d.mode, rest);
    } else {
      var i := Find(d.ents, path[0]);
      if i < |d.ents| && d.ents[i].body.Dir? {
        FilesRemove(H, m, files, d.ents[i].body, path[1..]);
        var r := RemoveAt(d.ents[i].body, path[1..]);
        if r.Ok? { FilesMake(H, m, files, d.mode, d.ents[i := d.ents[i].(body := r.node)]); }
      }
    }
  }

  // ---------------------------------------------------------------- snapshots

  lemma GrowsAgree(m: Chunks, m': Chunks, s: set<Hash>)
    requires Grows(m, m')
    ensures Agree(m, m', s)
  {
  }

  /** Record a file system as the newest version. Everything recorded before stays whole. */
  method Commit(store: Store, createdAt: Int64, root: Hash, prev: Option<Hash>,
                ghost node: FsTree.Node, ghost files: Files, ghost hist: History, ghost nodes: seq<FsTree.Node>)
    returns (h: Hash)
    requires |hist| == |nodes| && Archive(store.H, store.m, files, hist, nodes)
    requires Fs.Holds(store, root, node) && FilesKept(store.H, store.m, files, node)
    requires prev == if hist == [] then None else Some(RefAddr(store.H, hist))
    modifies store
    ensures h == RefAddr(store.H, [Version(createdAt, root)] + hist)
    ensures store.clean ==> Archive(store.H, store.m, files, [Version(createdAt, root)] + hist, [node] + nodes)
    ensures Grows(old(store.m), store.m) && (store.clean ==> old(store.clean))
  {
    hide Archive, Kept, FilesKept, Canonical, NodeRoot, CanonTree, Addr, EncodeRef, Grows, RefStored;
    hide HistoryAddrs, NodeAddrs;
    ghost var hist' := [Version(createdAt, root)] + hist;
    var ref := Ref(createdAt, root, prev);
    assert hist'[1..] == hist;
    assert ref == RefOf(store.H, hist');
    h := PutRef(store, ref);
    GrowsAgree(old(store.m), store.m, HistoryAddrs(store.H, files, hist, nodes));
    ArchiveOn(store.H, old(store.m), store.m, files, hist, nodes);
    GrowsAgree(old(store.m), store.m, NodeAddrs(store.H, files, node));
    KeptOn(store.H, old(store.m), store.m, files, node);
    if store.clean { ArchiveCons(store.H, store.m, files, Version(createdAt, root), node, hist, nodes); }
  }

  lemma ArchiveCons(H: Hasher, m: Chunks, files: Files, v: Version, node: FsTree.Node, hist: History,
                    nodes: seq<FsTree.Node>)
    requires Archive(H, m, files, hist, nodes) && RefStored(H, m, RefOf(H, [v] + hist))
    requires node.Dir? && Canonical(node) && v.root == NodeRoot(H, node).addr
    requires Kept(H, m, node) && FilesKept(H, m, files, node)
    ensures Archive(H, m, files, [v] + hist, [node] + nodes)
  {
    hide Kept, FilesKept, Canonical, NodeRoot, RefStored, RefOf, HistoryStored;
    var hist', nodes' := [v] + hist, [node] + nodes;
    StoredCons(H, m, v, hist);
    assert forall i | 1 <= i < |hist'| :: hist'[i] == hist[i - 1] && nodes'[i] == nodes[i - 1];
  }

  lemma StoredCons(H: Hasher, m: Chunks, v: Version, hist: History)
    requires HistoryStored(H, m, hist) && RefStored(H, m, RefOf(H, [v] + hist))
    ensures HistoryStored(H, m, [v] + hist)
  {
    hide RefStored, RefOf;
    assert ([v] + hist)[1..] == hist;
  }

  // ---------------------------------------------------------------- flushed stores

  /** The closed packs of a store as the collector lists them. */
  ghost function Listed(packs: CStore.Packs): GcState.Packs {
    map n | n in packs :: GcState.Pack(packs[n], |BPack.PackBytes(packs[n])|)
  }

  /** The values the store writes: each chunk compressed, under its hash. */
  ghost function Packed(m: Chunks, c: CStore.Codec): GcState.Genuine {
    (e: BPack.Entry) => |e.key| == 32 && e.key in m && e.val == c.compress(m[e.key])
  }

  lemma PackedFaithful(m: Chunks, c: CStore.Codec)
    requires CStore.Proper(c)
    ensures Gc.Faithful(Packed(m, c), m, c.decompress)
  {
  }

  ghost predicate SameChunks(contents: CStore.Contents, m: Chunks) {
    && (forall k <- contents :: |k| == 32 && k in m && m[k] == contents[k])
    && forall h <- m :: h in contents
  }

  /** A store with nothing in its working set, as Flush leaves it, can be collected. */
  lemma Flushed(H: Hasher, c: CStore.Codec, packs: CStore.Packs, contents: CStore.Contents, m: Chunks,
                files: Files, hist: History, nodes: seq<FsTree.Node>)
    requires CStore.Proper(c) && CStore.ClosedOk(c, packs, contents) && CStore.Complete(packs, map[], contents)
    requires SameChunks(contents, m) && |hist| == |nodes| && Archive(H, m, files, hist, nodes)
    ensures Gc.Collectable(H, m, c.decompress, Packed(m, c), files, hist, nodes, Listed(packs))
  {
    hide Archive, HistoryAddrs, CStore.Proper, CStore.ClosedOk, CStore.Complete, GcSweep.PackOk, GcState.Held;
    hide Packed, SameChunks, Gc.Faithful;
    var good := Packed(m, c);
    PackedFaithful(m, c);
    forall n <- Listed(packs) ensures GcSweep.PackOk(good, Listed(packs)[n]) {
      AllGood(c, packs, contents, m, n);
    }
    ArchiveAddrs(H, m, files, hist, nodes);
    forall h <- HistoryAddrs(H, files, hist, nodes) ensures GcState.Held(good, Listed(packs), h) {
      HeldChunk(c, packs, contents, m, h);
    }
  }

  lemma EntryGood(c: CStore.Codec, es: seq<BPack.Entry>, contents: CStore.Contents, m: Chunks, e: BPack.Entry)
    requires CStore.Proper(c) && CStore.PackHolds(c, es, contents) && SameChunks(contents, m) && e in es
    ensures Packed(m, c)(e)
  {
    assert c.decompress(c.compress(contents[e.key])) == contents[e.key] && c.compress(contents[e.key]) != [];
  }

  lemma AllGood(c: CStore.Codec, packs: CStore.Packs, contents: CStore.Contents, m: Chunks, n: CStore.Name)
    requires CStore.Proper(c) && CStore.ClosedOk(c, packs, contents) && SameChunks(contents, m) && n in packs
    ensures GcSweep.PackOk(Packed(m, c), Listed(packs)[n])
  {
    hide CStore.Proper, SameChunks, Packed, CStore.PackHolds, CStore.ClosedOk, BPack.Values, BPack.PackBytes;
    CStore.ClosedAt(c, packs, contents, n);
    forall e <- packs[n] ensures Packed(m, c)(e) { EntryGood(c, packs[n], contents, m, e); }
    CStore.Sweepable(c, packs, contents, n, Packed(m, c), |BPack.PackBytes(packs[n])|);
  }

  lemma HeldChunk(c: CStore.Codec, packs: CStore.Packs, contents: CStore.Contents, m: Chunks, h: Hash)
    requires CStore.Proper(c) && CStore.ClosedOk(c, packs, contents) && CStore.Complete(packs, map[], contents)
    requires SameChunks(contents, m) && h in m
    ensures GcState.Held(Packed(m, c), Listed(packs), h)
  {
    hide CStore.Proper, Packed, CStore.PackHolds, CStore.ClosedOk, BPack.PackBytes;
    var n :| n in packs && h in BPack.Keys(packs[n]);
    var e :| e in packs[n] && e.key == h;
    CStore.ClosedAt(c, packs, contents, n);
    EntryGood(c, packs[n], contents, m, e);
    assert n in Listed(packs) && e in Listed(packs)[n].es;
  }

  // ---------------------------------------------------------------- after a collection

  /** The packs of the remote as a store sees them. */
  ghost function Seen(p: GcState.Packs): CStore.Packs {
    map n | n in p :: p[n].es
  }

  /** The chunks the packs hold. */
  ghost function Remaining(m: Chunks, p: GcState.Packs): CStore.Contents {
    map h: Hash | h in m && exists n <- p :: h in BPack.Keys(p[n].es) :: m[h]
  }

  /** The contents of a store as chunks under 32-byte hashes. */
  ghost function AsChunks(contents: CStore.Contents): Chunks {
    map h: Hash | h in contents :: contents[h]
  }

  lemma SeenHolds(c: CStore.Codec, m: Chunks, p: GcState.Packs, n: CStore.Name)
    requires n in p && GcSweep.PackOk(Packed(m, c), p[n])
    ensures CStore.PackHolds(c, p[n].es, Remaining(m, p)) && |BPack.Values(p[n].es)| < GcSweep.TWO_32
  {
    hide BPack.Values;
    forall e <- p[n].es ensures e.key in Remaining(m, p) { assert e.key in BPack.Keys(p[n].es); }
  }

  /** Packs a collection can start from are packs a store can be opened on. */
  lemma Reopenable(c: CStore.Codec, m: Chunks, p: GcState.Packs)
    requires forall n <- p :: GcSweep.PackOk(Packed(m, c), p[n])
    ensures CStore.ClosedOk(c, Seen(p), Remaining(m, p)) && CStore.Complete(Seen(p), map[], Remaining(m, p))
  {
    hide BPack.Values, CStore.PackHolds, GcSweep.PackOk, BPack.Keys;
    forall n <- Seen(p) ensures CStore.PackHolds(c, Seen(p)[n], Remaining(m, p)) { SeenHolds(c, m, p, n); }
    forall n <- Seen(p) ensures |BPack.Values(Seen(p)[n])| < GcSweep.TWO_32 { SeenHolds(c, m, p, n); }
    forall k <- Remaining(m, p) ensures exists n <- Seen(p) :: k in BPack.Keys(Seen(p)[n]) {
      var n :| n in p && k in BPack.Keys(p[n].es);
      assert n in Seen(p) && Seen(p)[n] == p[n].es;
    }
  }

  lemma RemainingHeld(c: CStore.Codec, m: Chunks, p: GcState.Packs, h: Hash)
    requires GcState.Held(Packed(m, c), p, h)
    ensures h in m && h in Remaining(m, p) && Remaining(m, p)[h] == m[h]
  {
    var n, e :| n in p && e in p[n].es && e.key == h && Packed(m, c)(e);
    assert h in BPack.Keys(p[n].es);
  }

  /** A store opened on packs a collection can start from, in particular on any state a collection
      passes through, has every chunk of every version. */
  method Reopen(H: Hasher, c: CStore.Codec, packs: CStore.Packs, ghost m: Chunks, ghost p: GcState.Packs,
                ghost files: Files, ghost hist: History, ghost nodes: seq<FsTree.Node>)
    returns (s: CStore.Store)
    requires CStore.Proper(c) && packs == Seen(p)
    requires Gc.Collectable(H, m, c.decompress, Packed(m, c), files, hist, nodes, p)
    ensures fresh(s) && s.Valid() && s.H == H && s.codec == c && s.contents == Remaining(m, p)
    ensures forall h <- HistoryAddrs(H, files, hist, nodes) :: h in m && h in s.contents && s.contents[h] == m[h]
  {
    hide CStore.Store.Valid, CStore.Proper, CStore.ClosedOk, CStore.Complete, CStore.UpToDate, Packed, Seen, Remaining;
    hide Archive, HistoryAddrs, GcSweep.PackOk, GcState.Held, Gc.Faithful;
    Reopenable(c, m, p);
    s := new CStore.Store(H, c, packs, Remaining(m, p));
    forall h <- HistoryAddrs(H, files, hist, nodes) ensures h in m && h in s.contents && s.contents[h] == m[h] {
      RemainingHeld(c, m, p, h);
    }
  }

  /** Reading any chunk of any version back after a collection, or after any part of one. */
  method ReadCollected(H: Hasher, c: CStore.Codec, packs: CStore.Packs, h: Hash, ghost m: Chunks,
                       ghost p: GcState.Packs, ghost files: Files, ghost hist: History, ghost nodes: seq<FsTree.Node>)
    returns (r: CStore.Fetched)
    requires CStore.Proper(c) && packs == Seen(p)
    requires Gc.Collectable(H, m, c.decompress, Packed(m, c), files, hist, nodes, p)
    requires h in HistoryAddrs(H, files, hist, nodes)
    ensures h in m && r == CStore.Fetched(m[h])
  {
    hide CStore.Store.Valid, CStore.Proper, CStore.UpToDate, HistoryAddrs, Packed, Remaining, Seen;
    var s := Reopen(H, c, packs, m, p, files, hist, nodes);
    r := s.Get(h);
  }

  /** A store opened after a collection, used in any way and flushed, can be collected again. */
  method NextCycle(H: Hasher, c: CStore.Codec, packs: CStore.Packs, ops: seq<CStoreRun.Op>, ghost m: Chunks,
                   ghost p: GcState.Packs, ghost files: Files, ghost hist: History, ghost nodes: seq<FsTree.Node>)
    returns (s: CStore.Store)
    requires CStore.Proper(c) && packs == Seen(p)
    requires Gc.Collectable(H, m, c.decompress, Packed(m, c), files, hist, nodes, p)
    requires CStoreRun.FairRun(H, c, Remaining(m, p), ops)
    ensures s.Valid() && s.contents == CStoreRun.After(H, c, Remaining(m, p), ops)
    ensures var m' := AsChunks(s.contents);
      Gc.Collectable(H, m', c.decompress, Packed(m', c), files, hist, nodes, Listed(s.packs))
  {
    hide CStore.Store.Valid, CStore.Proper, CStore.UpToDate, CStore.Grown, Packed, Remaining, Seen;
    hide CStoreRun.FairRun, CStoreRun.After, CStoreRun.Reply, HistoryAddrs, GcState.Held, GcSweep.PackOk, Archive;
    s := Reopen(H, c, packs, m, p, files, hist, nodes);
    var outs := CStoreRun.Run(s, ops);
    CStoreRun.RunExtends(H, c, Remaining(m, p), ops);
    s.Flush();
    StillWhole(H, m, Remaining(m, p), s.contents, files, hist, nodes);
    FlushedStore(s, files, hist, nodes);
  }

  lemma StillWhole(H: Hasher, m: Chunks, was: CStore.Contents, now: CStore.Contents, files: Files, hist: History,
                   nodes: seq<FsTree.Node>)
    requires |hist| == |nodes| && Archive(H, m, files, hist, nodes) && CStore.Extends(was, now)
    requires forall h <- HistoryAddrs(H, files, hist, nodes) :: h in m && h in was && was[h] == m[h]
    ensures Archive(H, AsChunks(now), files, hist, nodes)
  {
    hide Archive, HistoryAddrs;
    ArchiveOn(H, m, AsChunks(now), files, hist, nodes);
  }

  lemma FlushedStore(s: CStore.Store, files: Files, hist: History, nodes: seq<FsTree.Node>)
    requires s.Valid() && s.workingSet == map[] && |hist| == |nodes|
    requires Archive(s.H, AsChunks(s.contents), files, hist, nodes)
    ensures var m := AsChunks(s.contents);
      Gc.Collectable(s.H, m, s.codec.decompress, Packed(m, s.codec), files, hist, nodes, Listed(s.packs))
  {
    hide Archive, Gc.Collectable, Packed, Listed, CStore.Proper;
    HashKeys(s.codec, s.packs, s.contents);
    Flushed(s.H, s.codec, s.packs, s.contents, AsChunks(s.contents), files, hist, nodes);
  }

  /** With everything in closed packs every key is a hash. */
  lemma HashKeys(c: CStore.Codec, packs: CStore.Packs, contents: CStore.Contents)
    requires CStore.ClosedOk(c, packs, contents) && CStore.Complete(packs, map[], contents)
    ensures SameChunks(contents, AsChunks(contents))
  {
    hide BPack.Values;
    forall k <- contents ensures |k| == 32 {
      var n :| n in packs && k in BPack.Keys(packs[n]);
      CStore.ClosedAt(c, packs, contents, n);
      var e :| e in packs[n] && e.key == k;
    }
  }

  // ---------------------------------------------------------------- what is marked is stored

  lemma {:induction false} TreeInStore(H: Hasher, m: Chunks, t: Tree)
    requires Stored(H, m, t)
    ensures TreeAddrs(H, t) <= m.Keys
    decreases t, 1
  {
    hide Addr, Encode;
    if t.Node? { TreesInStore(H, m, t.kids); }
  }

  lemma {:induction false} TreesInStore(H: Hasher, m: Chunks, ts: seq<Tree>)
    requires forall t <- ts :: Stored(H, m, t)
    ensures AddrsOf(H, ts) <= m.Keys
    decreases ts, 0
  {
    hide Stored, TreeAddrs;
    if ts != [] {
      TreeInStore(H, m, ts[0]);
      TreesInStore(H, m, ts[1..]);
    }
  }

  lemma {:induction false} NodeInStore(H: Hasher, m: Chunks, files: Files, n: FsTree.Node)
    requires Kept(H, m, n) && FilesKept(H, m, files, n)
    ensures NodeAddrs(H, files, n) <= m.Keys
    decreases n, 1
  {
    hide Stored, TreeAddrs, TreeOf, WellFormed, DirKept;
    NodeTree(H, m, files, n);
    TreeInStore(H, m, TreeOf(H, files, n));
    if n.Dir? { ItemsInStore(H, m, files, n.ents); }
  }

  lemma {:induction false} ItemsInStore(H: Hasher, m: Chunks, files: Files, es: seq<Item>)
    requires forall i | 0 <= i < |es| :: Kept(H, m, es[i].body) && FilesKept(H, m, files, es[i].body)
    ensures ItemsAddrs(H, files, es) <= m.Keys
    decreases es, 0
  {
    hide Kept, FilesKept, NodeAddrs;
    if es != [] {
      NodeInStore(H, m, files, es[0].body);
      ItemsInStore(H, m, files, es[1..]);
    }
  }

  /** Every chunk of a whole archive is in the store. */
  lemma {:induction false} ArchiveAddrs(H: Hasher, m: Chunks, files: Files, hist: History, nodes: seq<FsTree.Node>)
    requires |hist| == |nodes| && Archive(H, m, files, hist, nodes)
    ensures HistoryAddrs(H, files, hist, nodes) <= m.Keys
    decreases |hist|
  {
    hide Stored, TreeAddrs, NodeAddrs, CanonTree, EncodeRef, RefOf, Kept, FilesKept, Canonical, NodeRoot;
    if hist != [] {
      TreeInStore(H, m, CanonTree(EncodeRef(RefOf(H, hist))));
      NodeInStore(H, m, files, nodes[0]);
      ArchiveTail(H, m, files, hist, nodes);
      ArchiveAddrs(H, m, files, hist[1..], nodes[1..]);
    }
  }
}
