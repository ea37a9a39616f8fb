/** How a file system tree lies in the chunk store: every directory is a hash tree over its entries. */
module FsStore {
  import opened Bytes
  import opened ChunkStore
  import opened Directory
  import opened DirCodec
  import opened HTree
  import opened HTreeWriter
  import opened FsTree

  const MAX_ENTS: nat := 0x100_0000_0000   // more entries than memory can hold

  /** How a directory lists itself: its own root cannot be in its bytes. */
  function DotEnt(mode: Mode): DirEnt {
    Ent(DOT, 0, 0, mode, Root(0, ZERO_HASH))
  }

  function DirData(mode: Mode, es: seq<DirEnt>): seq<byte> {
    Flat(EncodeEnt, [DotEnt(mode)] + es)
  }

  ghost function DirRoot(H: Hasher, mode: Mode, es: seq<DirEnt>): Root {
    RootOf(H, CanonTree(DirData(mode, es)))
  }

  /** The root that stands for a node: the hash of a directory covers everything below it. */
  ghost function NodeRoot(H: Hasher, n: Node): Root
    decreases n
  {
    match n
    case File(root) => root
    case Dir(mode, ents) => DirRoot(H, mode, Heads(H, ents))
  }

  /** The entries as they are written. */
  ghost function Heads(H: Hasher, es: seq<Item>): (r: seq<DirEnt>)
    ensures |r| == |es|
    decreases es
  {
    if es == [] then [] else [Head(H, es[0])] + Heads(H, es[1..])
  }

  ghost function Head(H: Hasher, e: Item): DirEnt
    decreases e
  {
    Ent(e.name, e.size, e.mtime, e.mode, NodeRoot(H, e.body))
  }

  /** All directories of the tree are in the store. */
  ghost predicate Kept(H: Hasher, m: Chunks, n: Node)
    decreases n
  {
    n.Dir? ==> DirKept(H, m, n.mode, Heads(H, n.ents)) && forall i | 0 <= i < |n.ents| :: Kept(H, m, n.ents[i].body)
  }

  ghost predicate DirKept(H: Hasher, m: Chunks, mode: Mode, es: seq<DirEnt>) {
    |DirData(mode, es)| < TWO_64 && Stored(H, m, CanonTree(DirData(mode, es)))
  }

  /** No directory has more than `k` entries. */
  ghost predicate Small(n: Node, k: nat)
    decreases n
  {
    n.Dir? ==> |n.ents| <= k && forall i | 0 <= i < |n.ents| :: Small(n.ents[i].body, k)
  }

  // ---------------------------------------------------------------- heads

  lemma {:induction false} HeadsAt(H: Hasher, es: seq<Item>, i: nat)
    requires i < |es|
    ensures Heads(H, es)[i] == Head(H, es[i])
  {
    if i > 0 { HeadsAt(H, es[1..], i - 1); }
  }

  lemma HeadsShape(H: Hasher, es: seq<Item>)
    ensures SameShape(es, Heads(H, es)) && SameShape(Heads(H, es), es)
  {
    forall i | 0 <= i < |es| ensures Heads(H, es)[i] == Head(H, es[i]) { HeadsAt(H, es, i); }
  }

  lemma HeadsCons(H: Hasher, e: Item, es: seq<Item>)
    ensures Heads(H, [e] + es) == [Head(H, e)] + Heads(H, es)
  {
    assert ([e] + es)[1..] == es;
  }

  lemma HeadsUpdate(H: Hasher, es: seq<Item>, i: nat, b: Node)
    requires i < |es|
    ensures Heads(H, es[i := es[i].(body := b)]) == Heads(H, es)[i := Heads(H, es)[i].(body := NodeRoot(H, b))]
  {
    hide NodeRoot, Heads;
    var es' := es[i := es[i].(body := b)];
    forall j | 0 <= j < |es|
      ensures Heads(H, es')[j] == if j == i then Heads(H, es)[i].(body := NodeRoot(H, b)) else Heads(H, es)[j]
    {
      HeadsAt(H, es', j);
      HeadsAt(H, es, j);
    }
  }

  lemma {:induction false} HeadsWithout(H: Hasher, es: seq<Item>, name: Name)
    ensures Without(Heads(H, es), name) == Heads(H, Without(es, name))
  {
    if es != [] {
      var e, more := es[0], es[1..];
      hide NodeRoot, Heads;
      assert es == [e] + more;
      HeadsCons(H, e, more);
      HeadsCons(H, e, Without(more, name));
      HeadsWithout(H, more, name);
      assert ([Head(H, e)] + Heads(H, more))[1..] == Heads(H, more);
      assert [] + Heads(H, Without(more, name)) == Heads(H, Without(more, name));
      assert [] + Without(more, name) == Without(more, name);
    }
  }

  lemma LessHead(H: Hasher, a: Item, b: Item)
    ensures Less(Head(H, a), Head(H, b)) <==> Less(a, b)
  {
  }

  lemma {:induction false} InsertHeads(H: Hasher, e: Item, es: seq<Item>)
    ensures Insert(Head(H, e), Heads(H, es)) == Heads(H, Insert(e, es))
  {
    hide NodeRoot, Heads, Less;
    HeadsCons(H, e, es);
    if es == [] {
    } else {
      HeadsAt(H, es, 0);
      LessHead(H, e, es[0]);
      assert es == [es[0]] + es[1..];
      HeadsCons(H, es[0], es[1..]);
      assert ([Head(H, es[0])] + Heads(H, es[1..]))[1..] == Heads(H, es[1..]);
      if !Less(e, es[0]) {
        InsertHeads(H, e, es[1..]);
        HeadsCons(H, es[0], Insert(e, es[1..]));
      }
    }
  }

  lemma {:induction false} SortHeads(H: Hasher, es: seq<Item>)
    ensures Sort(Heads(H, es)) == Heads(H, Sort(es))
  {
    if es != [] {
      hide NodeRoot, Heads;
      SortHeads(H, es[1..]);
      assert es == [es[0]] + es[1..];
      HeadsCons(H, es[0], es[1..]);
      assert ([Head(H, es[0])] + Heads(H, es[1..]))[1..] == Heads(H, es[1..]);
      InsertHeads(H, es[0], Sort(es[1..]));
    }
  }

  /** A directory is taken or refused by its names and modes alone. */
  lemma AcceptsHeads(H: Hasher, es: seq<Item>)
    ensures Accepts(Heads(H, es)) <==> Accepts(es)
  {
    hide Sort, Heads, NodeRoot, SameShape, Checked, NamesFit;
    SortHeads(H, es);
    HeadsShape(H, Sort(es));
    HeadsShape(H, es);
    SameChecked(Sort(es), Heads(H, Sort(es)));
    SameChecked(es, Heads(H, es));
  }

  lemma AcceptsAcceptable<B>(es: seq<Ent<B>>)
    ensures Accepts(es) <==> Acceptable(es)
  {
    hide Sort, Checked, NamesFit, Acceptable;
    SortSorts(es);
    AcceptIff(es, Sort(es));
    FitsSame(es, Sort(es));
  }

  /** Every listed entry of a kept directory survives being written. */
  lemma HeadsFit(H: Hasher, m: Chunks, ents: seq<Item>)
    requires NamesFit(ents) && forall i | 0 <= i < |ents| :: ItemOk(ents[i]) && Kept(H, m, ents[i].body)
    ensures FitsAll(Heads(H, ents))
  {
    hide Heads, NodeRoot, Kept, Canonical;
    forall i | 0 <= i < |ents| ensures Fits(Heads(H, ents)[i]) {
      HeadsAt(H, ents, i);
      DepthFits(H, m, ents[i].body);
    }
  }

  lemma DepthFits(H: Hasher, m: Chunks, n: Node)
    requires Canonical(n) && Kept(H, m, n)
    ensures NodeRoot(H, n).depth < 256
  {
    hide CanonTree, Stored, Addr;
    if n.Dir? { CanonTreeSpec(DirData(n.mode, Heads(H, n.ents))); }
  }

  lemma {:induction false} DirSize(es: seq<DirEnt>)
    requires NamesFit(es)
    ensures |Flat(EncodeEnt, es)| <= 65590 * |es|
  {
    if es != [] {
      DirSize(es[1..]);
    }
  }

  /** A directory of that many entries is a stream the hash tree can hold. */
  lemma DirBounded(mode: Mode, es: seq<DirEnt>)
    requires NamesFit(es) && |es| <= MAX_ENTS
    ensures |DirData(mode, es)| < TWO_64
  {
    hide EncodeEnt;
    var all := [DotEnt(mode)] + es;
    assert NamesFit(all);
    DirSize(all);
  }

  // ---------------------------------------------------------------- keeping

  lemma {:induction false} KeptGrows(H: Hasher, m: Chunks, m': Chunks, n: Node)
    requires Kept(H, m, n) && Grows(m, m')
    ensures Kept(H, m', n)
    decreases n
  {
    hide Stored, Grows, CanonTree, DirData, Heads;
    if n.Dir? {
      StoredGrows(H, m, m', CanonTree(DirData(n.mode, Heads(H, n.ents))));
      forall i | 0 <= i < |n.ents| ensures Kept(H, m', n.ents[i].body) { KeptGrows(H, m, m', n.ents[i].body); }
    }
  }

  lemma KeptDir(H: Hasher, m: Chunks, mode: Mode, ents: seq<Item>)
    requires DirKept(H, m, mode, Heads(H, Sort(ents))) && forall i | 0 <= i < |ents| :: Kept(H, m, ents[i].body)
    ensures Kept(H, m, Dir(mode, Sort(ents)))
  {
    hide Sort, Heads, DirKept;
    forall i | 0 <= i < |ents| ensures Kept(H, m, Sort(ents)[i].body) { SameMembers(ents, Sort(ents), Sort(ents)[i]); }
  }

  lemma {:induction false} KeptBelow(H: Hasher, m: Chunks, d: Node, path: Path)
    requires d.Dir? && Kept(H, m, d)
    ensures Resolve(d, path).Found? ==> Kept(H, m, Resolve(d, path).ent.body)
    decreases path
  {
    hide DirKept;
    if path != [] {
      var i := Find(d.ents, path[0]);
      if i < |d.ents| && |path| > 1 && d.ents[i].body.Dir? { KeptBelow(H, m, d.ents[i].body, path[1..]); }
    }
  }

  lemma {:induction false} SmallBelow(d: Node, k: nat, path: Path)
    requires d.Dir? && Small(d, k)
    ensures Resolve(d, path).Found? ==> Small(Resolve(d, path).ent.body, k)
    decreases path
  {
    if path != [] {
      var i := Find(d.ents, path[0]);
      if i < |d.ents| && |path| > 1 && d.ents[i].body.Dir? { SmallBelow(d.ents[i].body, k, path[1..]); }
    }
  }

  lemma {:induction false} SmallMore(n: Node, k: nat)
    requires Small(n, k)
    ensures Small(n, k + 1)
    decreases n
  {
    if n.Dir? {
      forall i | 0 <= i < |n.ents| ensures Small(n.ents[i].body, k + 1) { SmallMore(n.ents[i].body, k); }
    }
  }

  lemma {:induction false} InsertSmall(d: Node, path: Path, e: Item, k: nat)
    requires d.Dir? && Small(d, k) && Small(e.body, k)
    ensures InsertAt(d, path, e).Ok? ==> Small(InsertAt(d, path, e).node, k + 1)
    decreases path
  {
    hide Accepts, Sort;
    SmallMore(d, k);
    SmallMore(e.body, k);
    if path == [] {
      SmallSort([e] + d.ents, k + 1);
    } else {
      var i := Find(d.ents, path[0]);
      if i < |d.ents| && d.ents[i].body.Dir? {
        InsertSmall(d.ents[i].body, path[1..], e, k);
        var r := InsertAt(d.ents[i].body, path[1..], e);
        if r.Ok? { SmallSort(d.ents[i := d.ents[i].(body := r.node)], k + 1); }
      }
    }
  }

  lemma SmallSort(ents: seq<Item>, k: nat)
    requires forall i | 0 <= i < |ents| :: Small(ents[i].body, k)
    ensures forall i | 0 <= i < |ents| :: Small(Sort(ents)[i].body, k)
  {
    hide Sort;
    forall i | 0 <= i < |ents| ensures Small(Sort(ents)[i].body, k) { SameMembers(ents, Sort(ents), Sort(ents)[i]); }
  }

  lemma FindDot<B>(dot: Ent<B>, es: seq<Ent<B>>, name: Name)
    requires dot.name == DOT
    ensures Find([dot] + es, name) == if name == DOT then 0 else 1 + Find(es, name)
  {
    assert ([dot] + es)[1..] == es;
  }

  lemma FindHeads(H: Hasher, es: seq<Item>, name: Name)
    ensures Find(Heads(H, es), name) == Find(es, name)
  {
    hide Heads;
    HeadsShape(H, es);
    SameFind(es, Heads(H, es), name);
  }

  lemma SameFind<A, B>(a: seq<Ent<A>>, b: seq<Ent<B>>, name: Name)
    requires SameShape(a, b)
    ensures Find(a, name) == Find(b, name)
  {
    hide Find;
    var i, j := Find(a, name), Find(b, name);
    assert forall k | 0 <= k < i :: b[k].name != name;
    assert forall k | 0 <= k < j :: a[k].name != name;
  }
}
