/** A whole collection, mark then sweep: no state it passes through loses any version. */
module Gc {
  import opened Bytes
  import opened ChunkStore
  import opened FsTree
  import opened Refs
  import opened GcMark
  import GcState
  import GcSweep
  import BPack

  type Decoder = seq<byte> -> seq<byte>

  /** Genuine values are not empty and decode to the chunk their key names. */
  ghost predicate Faithful(good: GcState.Genuine, m: Chunks, decode: Decoder) {
    forall e: BPack.Entry :: good(e) ==> e.val != [] && |e.key| == 32 && e.key in m && decode(e.val) == m[e.key]
  }

  /** The chunks of `m` that the packs can still produce. */
  ghost function Present(m: Chunks, good: GcState.Genuine, packs: GcState.Packs): Chunks {
    map h | h in m && GcState.Held(good, packs, h) :: m[h]
  }

  /** What a collection needs of the remote: every version is whole in `m`, the packs can be read, and
      they hold every chunk of every version. */
  ghost predicate Collectable(H: Hasher, m: Chunks, decode: Decoder, good: GcState.Genuine, files: Files,
                              hist: History, nodes: seq<Node>, packs: GcState.Packs) {
    && |hist| == |nodes| && Archive(H, m, files, hist, nodes) && Faithful(good, m, decode)
    && (forall n <- packs :: GcSweep.PackOk(good, packs[n]))
    && forall h <- HistoryAddrs(H, files, hist, nodes) :: GcState.Held(good, packs, h)
  }

  /** Every state the remote passes through, at whatever call it fails, is one a collection can start
      from. */
  method Collect(store: Store, remote: GcSweep.Remote, root: Hash, cache: GcSweep.Cache, listing: seq<GcState.Name>,
                 ghost decode: Decoder, ghost good: GcState.Genuine, ghost files: Files, ghost hist: History,
                 ghost nodes: seq<Node>)
    returns (ok: bool)
    requires hist != [] && Collectable(store.H, store.m, decode, good, files, hist, nodes, remote.packs)
    requires root == RefAddr(store.H, hist)
    requires cache.Cache? ==> forall k <- cache.vals :: good(BPack.Entry(k, cache.vals[k]))
    requires (forall i, j | 0 <= i < j < |listing| :: listing[i] != listing[j]) && remote.packs.Keys == set n <- listing
    requires remote.trace == [remote.packs]
    modifies remote
    ensures forall p <- remote.trace :: Collectable(store.H, store.m, decode, good, files, hist, nodes, p)
    ensures remote.packs in remote.trace
    ensures ok ==> GcState.Collected(good, old(remote.packs), HistoryAddrs(store.H, files, hist, nodes), remote.packs)
  {
    hide Archive, HistoryAddrs, GcSweep.PackOk, GcState.Held, GcState.Collected, GcState.Inv, GcSweep.Fine;
    hide RefAddr, Faithful, Present;
    var marker := new Marker(store);
    marker.MarkRef(root, files, hist, nodes);
    ghost var all := HistoryAddrs(store.H, files, hist, nodes);
    assert marker.visited == all;
    var gc := new GcSweep.Gc(remote, marker.visited, cache, good);
    GcSweep.InvFine(good, gc.State());
    ok := gc.SweepAll(listing);
    forall p <- remote.trace ensures Collectable(store.H, store.m, decode, good, files, hist, nodes, p) {
      StillThere(store.m, decode, good, old(remote.packs), all, p);
    }
  }

  lemma StillThere(m: Chunks, decode: Decoder, good: GcState.Genuine, start: GcState.Packs, all: set<Hash>,
                   p: GcState.Packs)
    requires Faithful(good, m, decode) && GcSweep.Fine(good, start, all, p)
    requires forall h <- all :: GcState.Held(good, start, h)
    ensures forall h <- all :: GcState.Held(good, p, h)
    ensures forall n <- p :: GcSweep.PackOk(good, p[n])
  {
    hide GcState.Held, GcSweep.PackOk;
    assert GcSweep.Solid(good);
  }

  /** The genuine values of chunks in `m`. */
  ghost function Only(good: GcState.Genuine, m: Chunks): GcState.Genuine {
    (e: BPack.Entry) => good(e) && |e.key| == 32 && e.key in m
  }

  /** A collection can be started again from nothing but what the packs can produce. */
  lemma Restart(H: Hasher, m: Chunks, decode: Decoder, good: GcState.Genuine, files: Files, hist: History,
                nodes: seq<Node>, packs: GcState.Packs)
    requires Collectable(H, m, decode, good, files, hist, nodes, packs)
    ensures var m' := Present(m, good, packs); Collectable(H, m', decode, Only(good, m'), files, hist, nodes, packs)
  {
    hide Archive, HistoryAddrs;
    var m' := Present(m, good, packs);
    var good' := Only(good, m');
    ArchiveOn(H, m, m', files, hist, nodes);
    forall n, e | n in packs && e in packs[n].es ensures good(e) && good'(e) {
      assert GcSweep.PackOk(good, packs[n]);
      assert GcState.Held(good, packs, e.key);
    }
    forall h <- HistoryAddrs(H, files, hist, nodes) ensures GcState.Held(good', packs, h) {
      var n, e :| n in packs && e in packs[n].es && e.key == h && good(e);
      assert good'(e);
    }
  }
}
