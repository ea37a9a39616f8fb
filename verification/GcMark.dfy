/**
 Marking: every chunk reachable from a ref. A hash enters the visited set only once everything below
 it is in, so finding a hash there is reason enough to stop.
 */
module GcMark {
  import opened Bytes
  import opened ChunkStore
  import opened Directory
  import opened DirCodec
  import opened HTree
  import opened HTreeWriter
  import opened HTreeReader
  import opened FsTree
  import opened FsStore
  import Fs
  import opened Refs

  /** The hash tree behind the root of each file. */
  type Files = Root -> Tree

  // ---------------------------------------------------------------- what is reachable

  ghost function TreeAddrs(H: Hasher, t: Tree): set<Hash>
    decreases t, 1
  {
    {Addr(H, t)} + if t.Node? then AddrsOf(H, t.kids) else {}
  }

  ghost function AddrsOf(H: Hasher, ts: seq<Tree>): set<Hash>
    decreases ts, 0
  {
    if ts == [] then {} else TreeAddrs(H, ts[0]) + AddrsOf(H, ts[1..])
  }

  ghost function TreeOf(H: Hasher, files: Files, n: FsTree.Node): Tree {
    match n
    case File(root) => files(root)
    case Dir(mode, ents) => CanonTree(DirData(mode, Heads(H, ents)))
  }

  /** All chunks of a file system tree. */
  ghost function NodeAddrs(H: Hasher, files: Files, n: FsTree.Node): set<Hash>
    decreases n, 1
  {
    TreeAddrs(H, TreeOf(H, files, n)) + if n.Dir? then ItemsAddrs(H, files, n.ents) else {}
  }

  ghost function ItemsAddrs(H: Hasher, files: Files, ents: seq<Item>): set<Hash>
    decreases ents, 0
  {
    if ents == [] then {} else NodeAddrs(H, files, ents[0].body) + ItemsAddrs(H, files, ents[1..])
  }

  /** All chunks of a list of versions: the refs and the file systems. */
  ghost function HistoryAddrs(H: Hasher, files: Files, hist: History, nodes: seq<FsTree.Node>): set<Hash>
    requires |hist| == |nodes|
  {
    if hist == [] then {}
    else
      TreeAddrs(H, CanonTree(EncodeRef(RefOf(H, hist)))) + NodeAddrs(H, files, nodes[0])
      + HistoryAddrs(H, files, hist[1..], nodes[1..])
  }

  /** The tree of every file is in the store. */
  ghost predicate FilesKept(H: Hasher, m: Chunks, files: Files, n: FsTree.Node)
    decreases n
  {
    match n
    case File(root) => Stored(H, m, files(root)) && WellFormed(files(root)) && RootOf(H, files(root)) == root
    case Dir(_, ents) => forall i | 0 <= i < |ents| :: FilesKept(H, m, files, ents[i].body)
  }

  /** Every version is in the store, whole. */
  ghost predicate Archive(H: Hasher, m: Chunks, files: Files, hist: History, nodes: seq<FsTree.Node>) {
    && |hist| == |nodes| && HistoryStored(H, m, hist)
    && forall i | 0 <= i < |hist| ::
        && nodes[i].Dir? && Canonical(nodes[i]) && hist[i].root == NodeRoot(H, nodes[i]).addr
        && Kept(H, m, nodes[i]) && FilesKept(H, m, files, nodes[i])
  }

  /** Whatever stored tree has its address visited has all its addresses visited. */
  ghost predicate ClosedUnder(H: Hasher, m: Chunks, v: set<Hash>) {
    forall t: Tree | Stored(H, m, t) && WellFormed(t) && Addr(H, t) in v :: TreeAddrs(H, t) <= v
  }

  // ---------------------------------------------------------------- addresses are determined

  /** Two stored trees of one address have the same addresses below. */
  lemma {:induction false} SameAddrs(H: Hasher, m: Chunks, t: Tree, u: Tree)
    requires Stored(H, m, t) && Stored(H, m, u) && WellFormed(t) && WellFormed(u) && Addr(H, t) == Addr(H, u)
    ensures TreeAddrs(H, t) == TreeAddrs(H, u)
    decreases t, 1
  {
    hide Addr, Contig, Data;
    assert Encode(H, t) == Encode(H, u);
    assert Level(t) == Level(u);
    if t.Node? {
      assert Entries(H, t.kids) == Encode(H, t)[1..] == Encode(H, u)[1..] == Entries(H, u.kids);
      SameAddrsOf(H, m, t.kids, u.kids);
    }
  }

  lemma {:induction false} SameAddrsOf(H: Hasher, m: Chunks, ts: seq<Tree>, us: seq<Tree>)
    requires AllStored(H, m, ts) && AllStored(H, m, us) && Entries(H, ts) == Entries(H, us)
    requires (forall t <- ts :: WellFormed(t)) && forall u <- us :: WellFormed(u)
    ensures AddrsOf(H, ts) == AddrsOf(H, us)
    decreases ts, 0
  {
    hide Stored, WellFormed, TreeAddrs, Entries, Addr;
    SameCount(H, ts, us);
    if ts != [] {
      var s := Entries(H, ts);
      assert s[0..] == s;
      FirstEntry(H, s, 0, ts);
      FirstEntry(H, s, 0, us);
      SameAddrs(H, m, ts[0], us[0]);
      SameAddrsOf(H, m, ts[1..], us[1..]);
    }
  }

  lemma SameCount(H: Hasher, ts: seq<Tree>, us: seq<Tree>)
    requires Entries(H, ts) == Entries(H, us)
    ensures |ts| == |us|
  {
    hide Entries;
  }

  lemma CloseRoot(H: Hasher, m: Chunks, v: set<Hash>, t: Tree)
    requires ClosedUnder(H, m, v) && Stored(H, m, t) && WellFormed(t) && TreeAddrs(H, t) <= v + {Addr(H, t)}
    ensures ClosedUnder(H, m, v + {Addr(H, t)}) && v + {Addr(H, t)} == v + TreeAddrs(H, t)
  {
    hide Stored, WellFormed, Addr;
    assert Addr(H, t) in TreeAddrs(H, t);
    forall u: Tree | Stored(H, m, u) && WellFormed(u) && Addr(H, u) in v + {Addr(H, t)}
      ensures TreeAddrs(H, u) <= v + {Addr(H, t)}
    {
      if Addr(H, u) == Addr(H, t) { SameAddrs(H, m, u, t); }
    }
  }

  lemma {:induction false} AddrsSnoc(H: Hasher, ts: seq<Tree>, j: nat)
    requires j < |ts|
    ensures AddrsOf(H, ts[..j + 1]) == AddrsOf(H, ts[..j]) + TreeAddrs(H, ts[j])
    decreases j
  {
    hide TreeAddrs;
    if j == 0 {
      assert ts[..1] == [ts[0]] && ts[..0] == [];
      assert [ts[0]][1..] == [];
    } else {
      AddrsSnoc(H, ts[1..], j - 1);
      assert ts[..j + 1][1..] == ts[1..][..j] && ts[..j][1..] == ts[1..][..j - 1];
      assert ts[1..][..j - 1 + 1] == ts[1..][..j];
    }
  }

  lemma {:induction false} ItemsSnoc(H: Hasher, files: Files, es: seq<Item>, j: nat)
    requires j < |es|
    ensures ItemsAddrs(H, files, es[..j + 1]) == ItemsAddrs(H, files, es[..j]) + NodeAddrs(H, files, es[j].body)
    decreases j
  {
    hide NodeAddrs;
    if j == 0 {
      assert es[..1] == [es[0]] && es[..0] == [];
      assert [es[0]][1..] == [];
    } else {
      ItemsSnoc(H, files, es[1..], j - 1);
      assert es[..j + 1][1..] == es[1..][..j] && es[..j][1..] == es[1..][..j - 1];
      assert es[1..][..j - 1 + 1] == es[1..][..j];
    }
  }

  lemma LeafAddrs(H: Hasher, t: Tree)
    requires WellFormed(t) && Level(t) == 0
    ensures TreeAddrs(H, t) == {Addr(H, t)}
  {
  }

  /** What the loop of markHTree reads: the entries of the children, one level down. */
  lemma NodeBytes(H: Hasher, m: Chunks, t: Tree)
    requires Stored(H, m, t) && WellFormed(t)
    ensures var data := m[Addr(H, t)];
      && data != [] && data[0] as nat == Level(t)
      && (t.Node? ==> data[1..] == Entries(H, t.kids) && AllStored(H, m, t.kids))
      && (t.Node? ==> forall i | 0 <= i < |t.kids| :: WellFormed(t.kids[i]) && Level(t.kids[i]) == t.lvl - 1)
  {
    hide Entries, Contig, Data, Addr;
  }

  class Marker {
    const store: Store
    var visited: set<Hash>

    ghost predicate Valid()
      reads this, store
    {
      ClosedUnder(store.H, store.m, visited)
    }

    constructor (store: Store)
      ensures this.store == store && visited == {} && Valid()
    {
      this.store := store;
      visited := {};
    }

    /** The only change ever made to the visited set; it is closed before and after each one. */
    method Visit(h: Hash, ghost t: Tree)
      requires Valid() && Stored(store.H, store.m, t) && WellFormed(t) && h == Addr(store.H, t)
      requires TreeAddrs(store.H, t) <= visited + {h}
      modifies this`visited
      ensures Valid() && visited == old(visited) + {h} == old(visited) + TreeAddrs(store.H, t)
    {
      hide Stored, WellFormed, Addr, TreeAddrs, ClosedUnder;
      CloseRoot(store.H, store.m, visited, t);
      visited := visited + {h};
    }

    method MarkHTree(root: Hash, ghost t: Tree)
      requires Valid() && Stored(store.H, store.m, t) && WellFormed(t) && root == Addr(store.H, t)
      modifies this`visited
      ensures Valid() && visited == old(visited) + TreeAddrs(store.H, t)
      decreases t, 0
    {
      hide Stored, WellFormed, Addr, TreeAddrs, Entries, ClosedUnder;
      if root in visited {
        Already(store.H, store.m, visited, t);
        return;
      }
      NodeBytes(store.H, store.m, t);
      InStore(store.H, store.m, t);
      var data := store.Get(root);
      if data[0] == 0 {
        LeafAddrs(store.H, t);
        Visit(root, t);
        return;
      }
      AddrsBelow(store.H, t);
      var i := 1;
      ghost var j := 0;
      assert t.kids[0..] == t.kids && t.kids[..0] == [];
      while i < |data|
        invariant j <= |t.kids| && i <= |data| && data[i..] == Entries(store.H, t.kids[j..])
        invariant Valid() && visited == old(visited) + AddrsOf(store.H, t.kids[..j])
        decreases |data| - i
      {
        ghost var kid := KidAt(store.H, data, i, t.kids, j);
        var hash := data[i + 8..i + ENTRY];
        assert kid in t.kids;
        MarkKid(hash, data[0] == 1, kid);
        AddrsSnoc(store.H, t.kids, j);
        i := i + ENTRY;
        j := j + 1;
      }
      NoneLeft(store.H, data, i, t.kids, j);
      Visit(root, t);
    }

    /** A child of a level 1 node is a leaf: it is marked without being read. */
    method MarkKid(hash: Hash, leaf: bool, ghost kid: Tree)
      requires Valid() && Stored(store.H, store.m, kid) && WellFormed(kid) && hash == Addr(store.H, kid)
      requires leaf ==> Level(kid) == 0
      modifies this`visited
      ensures Valid() && visited == old(visited) + TreeAddrs(store.H, kid)
      decreases kid, 1
    {
      hide Stored, WellFormed, Addr, TreeAddrs, ClosedUnder;
      if leaf {
        LeafAddrs(store.H, kid);
        Visit(hash, kid);
      }
      MarkHTree(hash, kid);
    }

    method MarkFsDir(root: Hash, ghost files: Files, ghost n: FsTree.Node)
      requires Valid() && Fs.Holds(store, root, n) && FilesKept(store.H, store.m, files, n)
      modifies this`visited
      ensures Valid() && visited == old(visited) + NodeAddrs(store.H, files, n)
      decreases n, 0
    {
      hide Stored, WellFormed, Addr, TreeAddrs, ClosedUnder, Kept, Canonical, Heads, NodeRoot, TreeOf, FilesKept;
      ghost var t := TreeOf(store.H, files, n);
      NodeTree(store.H, store.m, files, n);
      MarkHTree(root, t);
      var ents := Fs.ReadNode(store, root, n);
      var i := 1;
      assert n.ents[..0] == [];
      while i < |ents|
        invariant 1 <= i <= |ents| && Valid()
        invariant visited == old(visited) + TreeAddrs(store.H, t) + ItemsAddrs(store.H, files, n.ents[..i - 1])
      {
        ghost var e := n.ents[i - 1];
        Fs.ReadAt(store.H, n, i - 1);
        ItemKept(store.H, store.m, files, n, i - 1);
        MarkEnt(ents[i], files, e);
        ItemsSnoc(store.H, files, n.ents, i - 1);
        i := i + 1;
      }
      assert n.ents[..i - 1] == n.ents;
    }

    /** A directory is walked first; then the entry's own tree is marked, by its recorded depth. */
    method MarkEnt(ent: DirEnt, ghost files: Files, ghost e: Item)
      requires Valid() && ent == Head(store.H, e) && ItemOk(e)
      requires Kept(store.H, store.m, e.body) && FilesKept(store.H, store.m, files, e.body)
      modifies this`visited
      ensures Valid() && visited == old(visited) + NodeAddrs(store.H, files, e.body)
      decreases e.body, 1
    {
      hide Stored, WellFormed, Addr, TreeAddrs, ClosedUnder, Kept, Canonical, Heads, NodeRoot, TreeOf, FilesKept;
      ghost var t := TreeOf(store.H, files, e.body);
      NodeTree(store.H, store.m, files, e.body);
      if ent.IsDir() {
        MarkFsDir(ent.body.addr, files, e.body);
      }
      if ent.body.depth == 0 {
        LeafAddrs(store.H, t);
        Visit(ent.body.addr, t);
      } else {
        MarkHTree(ent.body.addr, t);
      }
    }

    /** The ref, its file system, then the versions before it. */
    method MarkRef(hash: Hash, ghost files: Files, ghost hist: History, ghost nodes: seq<FsTree.Node>)
      requires Valid() && hist != [] && Archive(store.H, store.m, files, hist, nodes) && hash == RefAddr(store.H, hist)
      modifies this`visited
      ensures Valid() && visited == old(visited) + HistoryAddrs(store.H, files, hist, nodes)
      decreases |hist|
    {
      hide Stored, WellFormed, Addr, TreeAddrs, ClosedUnder, Kept, Canonical, Heads, NodeRoot, FilesKept;
      hide CanonTree, EncodeRef;
      ghost var t := CanonTree(EncodeRef(RefOf(store.H, hist)));
      RefTree(store.H, store.m, RefOf(store.H, hist));
      MarkHTree(hash, t);
      var got := GetRef(store, hash, RefOf(store.H, hist));
      var ref := got.ref;
      MarkFsDir(ref.root, files, nodes[0]);
      ArchiveTail(store.H, store.m, files, hist, nodes);
      if ref.prev.Some? {
        MarkRef(ref.prev.value, files, hist[1..], nodes[1..]);
      }
    }
  }

  lemma NodeTree(H: Hasher, m: Chunks, files: Files, n: FsTree.Node)
    requires Kept(H, m, n) && FilesKept(H, m, files, n)
    ensures var t := TreeOf(H, files, n); Stored(H, m, t) && WellFormed(t) && RootOf(H, t) == NodeRoot(H, n)
  {
    hide Stored, WellFormed, CanonTree, Heads, DirData, Addr, Data, Off;
    if n.Dir? { CanonTreeSpec(DirData(n.mode, Heads(H, n.ents))); }
  }

  lemma ItemKept(H: Hasher, m: Chunks, files: Files, n: FsTree.Node, i: nat)
    requires n.Dir? && Kept(H, m, n) && FilesKept(H, m, files, n) && i < |n.ents|
    ensures Kept(H, m, n.ents[i].body) && FilesKept(H, m, files, n.ents[i].body)
  {
    hide DirKept, Stored, WellFormed;
  }

  lemma RefTree(H: Hasher, m: Chunks, ref: Ref)
    requires RefStored(H, m, ref)
    ensures var t := CanonTree(EncodeRef(ref)); Stored(H, m, t) && WellFormed(t)
  {
    hide Stored, WellFormed, CanonTree, Data, Off;
    CanonTreeSpec(EncodeRef(ref));
  }

  lemma ArchiveTail(H: Hasher, m: Chunks, files: Files, hist: History, nodes: seq<FsTree.Node>)
    requires hist != [] && Archive(H, m, files, hist, nodes)
    ensures Archive(H, m, files, hist[1..], nodes[1..])
  {
    hide RefStored, RefOf, Kept, FilesKept, Canonical, NodeRoot;
    var h, ns := hist[1..], nodes[1..];
    assert forall i | 0 <= i < |h| :: h[i] == hist[i + 1] && ns[i] == nodes[i + 1];
  }

  // ---------------------------------------------------------------- marked chunks are enough

  /** What `m` has of the addresses `s`, `m'` has too. */
  ghost predicate Agree(m: Chunks, m': Chunks, s: set<Hash>) {
    forall h <- s :: h in m ==> h in m' && m'[h] == m[h]
  }

  lemma {:induction false} AddrsHas(H: Hasher, ts: seq<Tree>, k: Tree)
    requires k in ts
    ensures TreeAddrs(H, k) <= AddrsOf(H, ts)
  {
    hide TreeAddrs;
    if ts[0] != k { AddrsHas(H, ts[1..], k); }
  }

  lemma {:induction false} StoredOn(H: Hasher, m: Chunks, m': Chunks, t: Tree)
    requires Stored(H, m, t) && Agree(m, m', TreeAddrs(H, t))
    ensures Stored(H, m', t)
    decreases t
  {
    hide Addr, Encode;
    assert Addr(H, t) in TreeAddrs(H, t);
    if t.Node? {
      forall k <- t.kids ensures Stored(H, m', k) {
        AddrsHas(H, t.kids, k);
        StoredOn(H, m, m', k);
      }
    }
  }

  lemma {:induction false} ItemsHas(H: Hasher, files: Files, es: seq<Item>, i: nat)
    requires i < |es|
    ensures NodeAddrs(H, files, es[i].body) <= ItemsAddrs(H, files, es)
  {
    hide NodeAddrs;
    if i > 0 { ItemsHas(H, files, es[1..], i - 1); }
  }

  lemma {:induction false} KeptOn(H: Hasher, m: Chunks, m': Chunks, files: Files, n: FsTree.Node)
    requires Kept(H, m, n) && FilesKept(H, m, files, n) && Agree(m, m', NodeAddrs(H, files, n))
    ensures Kept(H, m', n) && FilesKept(H, m', files, n)
    decreases n
  {
    hide Stored, WellFormed, TreeAddrs, CanonTree, DirData, Heads, Addr, Level;
    StoredOn(H, m, m', TreeOf(H, files, n));
    if n.Dir? {
      forall i | 0 <= i < |n.ents| ensures Kept(H, m', n.ents[i].body) && FilesKept(H, m', files, n.ents[i].body) {
        ItemsHas(H, files, n.ents, i);
        KeptOn(H, m, m', files, n.ents[i].body);
      }
    }
  }

  /** A store that has the marked chunks has every version whole. */
  lemma {:induction false} ArchiveOn(H: Hasher, m: Chunks, m': Chunks, files: Files, hist: History,
                                     nodes: seq<FsTree.Node>)
    requires Archive(H, m, files, hist, nodes) && Agree(m, m', HistoryAddrs(H, files, hist, nodes))
    ensures Archive(H, m', files, hist, nodes)
    decreases |hist|
  {
    hide Stored, TreeAddrs, NodeAddrs, CanonTree, EncodeRef, RefOf, Kept, FilesKept, Canonical, NodeRoot;
    if hist != [] {
      StoredOn(H, m, m', CanonTree(EncodeRef(RefOf(H, hist))));
      KeptOn(H, m, m', files, nodes[0]);
      ArchiveTail(H, m, files, hist, nodes);
      var h, ns := hist[1..], nodes[1..];
      ArchiveOn(H, m, m', files, h, ns);
      forall i | 0 <= i < |hist| ensures Kept(H, m', nodes[i]) && FilesKept(H, m', files, nodes[i]) {
        if i > 0 { assert ns[i - 1] == nodes[i] && h[i - 1] == hist[i]; }
      }
    }
  }

  lemma Already(H: Hasher, m: Chunks, v: set<Hash>, t: Tree)
    requires ClosedUnder(H, m, v) && Stored(H, m, t) && WellFormed(t) && Addr(H, t) in v
    ensures v == v + TreeAddrs(H, t)
  {
    hide Stored, WellFormed, Addr, TreeAddrs;
  }

  lemma InStore(H: Hasher, m: Chunks, t: Tree)
    requires Stored(H, m, t)
    ensures Addr(H, t) in m
  {
  }

  lemma AddrsBelow(H: Hasher, t: Tree)
    requires t.Node?
    ensures TreeAddrs(H, t) == {Addr(H, t)} + AddrsOf(H, t.kids)
  {
  }

  lemma KidAt(H: Hasher, data: seq<byte>, i: nat, kids: seq<Tree>, j: nat) returns (kid: Tree)
    requires j <= |kids| && i < |data| && data[i..] == Entries(H, kids[j..])
    ensures j < |kids| && kid == kids[j] && i + ENTRY <= |data| && data[i + 8..i + ENTRY] == Addr(H, kid)
    ensures data[i + ENTRY..] == Entries(H, kids[j + 1..])
  {
    hide Entries, Addr;
    assert |data[i..]| == ENTRY * |kids[j..]|;
    kid := kids[j];
    FirstEntry(H, data, i, kids[j..]);
    assert kids[j..][1..] == kids[j + 1..];
  }

  lemma NoneLeft(H: Hasher, data: seq<byte>, i: nat, kids: seq<Tree>, j: nat)
    requires j <= |kids| && i == |data| && data[i..] == Entries(H, kids[j..])
    ensures kids[..j] == kids
  {
    hide Entries, Addr;
    assert |data[i..]| == ENTRY * |kids[j..]|;
  }
}
