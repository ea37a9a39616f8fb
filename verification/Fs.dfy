/**
 The file system operations over the chunk store. Each reads directories by hash and writes new ones;
 the tree a hash stands for is a ghost argument, and results are tied to the tree functions.
 Paths are lists of names, none of them empty or ".".
 */
module Fs {
  import opened Bytes
  import opened ChunkStore
  import opened Directory
  import opened DirCodec
  import opened HTree
  import opened HTreeWriter
  import opened HTreeStream
  import opened FsTree
  import opened FsStore
  import FsLaws

  /** `Collided`: two different chunks shared a hash, so the store can no longer be trusted. */
  datatype Outcome = Done(ent: DirEnt) | Failed | Panicked | Collided

  ghost predicate PathOk(path: Path) {
    forall i | 0 <= i < |path| :: path[i] != DOT && path[i] != []
  }

  // ---------------------------------------------------------------- directories

  /** Some sort: nothing is said about the order of ties. */
  method SortEnts(es: seq<DirEnt>) returns (s: seq<DirEnt>)
    ensures Sorted(s) && multiset(s) == multiset(es)
  {
    SortSorts(es);
    s := Sort(es);
  }

  method CheckNames(dir: seq<DirEnt>) returns (ok: bool)
    requires dir != []
    ensures ok <==> Checked(dir[1..])
  {
    var i := 1;
    while i < |dir| - 1
      invariant i == 1 || 1 <= i <= |dir| - 1
      invariant forall j | 0 <= j < i - 1 :: dir[1..][j].name != DOT && dir[1..][j].name != dir[1..][j + 1].name
    {
      assert dir[1..][i - 1] == dir[i] && dir[1..][i] == dir[i + 1];
      if dir[i].name == DOT { return false; }
      if dir[i].name == dir[i + 1].name { return false; }
      i := i + 1;
    }
    ok := true;
  }

  method EncodeDir(dir: seq<DirEnt>) returns (ok: bool, buf: seq<byte>)
    ensures ok <==> NamesFit(dir)
    ensures ok ==> buf == Flat(EncodeEnt, dir)
  {
    hide EncodeEnt;
    buf := [];
    for i := 0 to |dir|
      invariant forall j | 0 <= j < i :: |dir[j].name| <= MAX_NAME
      invariant buf == Flat(EncodeEnt, dir[..i])
    {
      if |dir[i].name| > MAX_NAME { return false, []; }
      FlatSnoc(EncodeEnt, dir, i);
      buf := buf + EncodeEnt(dir[i]);
    }
    assert dir[..|dir|] == dir;
    ok := true;
  }

  lemma OnePart(buf: seq<byte>)
    ensures Flatten([buf]) == buf
  {
    FlattenStep([buf], 0);
    FlattenStep([buf], 1);
  }

  /** The root depends on the set of entries alone; refused entries leave the store as it was. */
  method WriteDir(store: Store, indir: seq<DirEnt>, mode: Mode) returns (ok: bool, ent: DirEnt)
    requires |indir| <= MAX_ENTS
    modifies store
    ensures ok <==> Acceptable(indir)
    ensures ok ==> ent == DotEnt(AsDir(mode)).(body := DirRoot(store.H, AsDir(mode), Sort(indir)))
    ensures ok && store.clean ==> DirKept(store.H, store.m, AsDir(mode), Sort(indir))
    ensures Grows(old(store.m), store.m) && (store.clean ==> old(store.clean))
    ensures !ok ==> store.m == old(store.m) && store.clean == old(store.clean)
  {
    hide Acceptable, Checked, NamesFit, Sort, Sorted, Stored, CanonTree, Less, EncodeEnt, Flatten, Level, Addr;
    ent := DotEnt(AsDir(mode));
    var sorted := SortEnts(indir);
    var dir := [ent] + sorted;
    AcceptIff(indir, sorted);
    DotFits(ent, sorted);
    assert dir[1..] == sorted;
    ok := CheckNames(dir);
    if !ok { return; }
    var buf;
    ok, buf := EncodeDir(dir);
    if !ok { return; }
    SortedIsSort(indir, sorted);
    SameLength(indir, sorted);
    DirBounded(AsDir(mode), sorted);
    OnePart(buf);
    var root := WriteParts(store, [buf]);
    ent := ent.(body := root);
  }

  lemma DotFits(dot: DirEnt, es: seq<DirEnt>)
    requires dot.name == DOT
    ensures NamesFit([dot] + es) <==> NamesFit(es)
  {
    var all := [dot] + es;
    assert forall i | 0 <= i < |es| :: all[i + 1] == es[i];
  }

  lemma SortedIsSort(es: seq<DirEnt>, s: seq<DirEnt>)
    requires Sorted(s) && Checked(s) && multiset(s) == multiset(es)
    ensures s == Sort(es)
  {
    hide Sort;
    CheckedStrict(s);
    SortSorts(es);
    StrictUnique(s, Sort(es));
  }

  /** Read a directory back: the entries as written, the first one completed with the root read. */
  method ReadDir(store: Store, hash: Hash, ghost mode: Mode, ghost es: seq<DirEnt>) returns (dir: seq<DirEnt>)
    requires DirKept(store.H, store.m, mode, es) && hash == DirRoot(store.H, mode, es).addr && FitsAll(es)
    ensures dir == [DotEnt(mode).(body := DirRoot(store.H, mode, es))] + es
  {
    hide Stored, CanonTree, Level, Addr, EncodeEnt;
    var data, height := ReadBack(store, hash, DirData(mode, es));
    ghost var want := [DotEnt(mode)] + es;
    assert FitsAll(want);
    dir := ParseDir(data, want);
    dir := dir[0 := dir[0].(body := Root(height, hash))];
  }

  method ParseDir(data: seq<byte>, ghost want: seq<DirEnt>) returns (dir: seq<DirEnt>)
    requires data == Flat(EncodeEnt, want) && FitsAll(want)
    ensures dir == want
  {
    hide EncodeEnt, ParseEnt, Fits, Flat;
    dir := [];
    var dirdata := data;
    assert want[0..] == want;
    NoEnts();
    while |dirdata| != 0
      invariant |dir| <= |want| && dir == want[..|dir|] && dirdata == Flat(EncodeEnt, want[|dir|..])
      decreases |dirdata|
    {
      ghost var i := |dir|;
      NextEnt(want, i);
      ghost var e, more := want[i], want[i + 1..];
      ParseEncode(e, Flat(EncodeEnt, more));
      var p := ParseEnt(dirdata);
      dirdata := p.rest;
      dir := dir + [p.ent];
    }
    AllRead(want, |dir|);
  }

  lemma NoEnts()
    ensures Flat(EncodeEnt, []) == []
  {
  }

  lemma NextEnt(want: seq<DirEnt>, i: nat)
    requires i <= |want| && Flat(EncodeEnt, want[i..]) != []
    ensures i < |want| && Flat(EncodeEnt, want[i..]) == EncodeEnt(want[i]) + Flat(EncodeEnt, want[i + 1..])
  {
    hide EncodeEnt;
    if i < |want| {
      assert want[i..] == [want[i]] + want[i + 1..];
      FlatCons(EncodeEnt, want[i], want[i + 1..]);
    }
  }

  lemma AllRead(want: seq<DirEnt>, i: nat)
    ensures i < |want| ==> Flat(EncodeEnt, want[i..]) != []
  {
    if i < |want| {
      EntNonEmpty(want[i]);
      assert want[i..][0] == want[i];
    }
  }

  // ---------------------------------------------------------------- nodes

  /** `dest` is the hash of the directory `d`, all of which is in the store. */
  ghost predicate Holds(store: Store, dest: Hash, d: Node)
    reads store
  {
    d.Dir? && Canonical(d) && Kept(store.H, store.m, d) && dest == NodeRoot(store.H, d).addr
  }

  method ReadNode(store: Store, dest: Hash, ghost d: Node) returns (dir: seq<DirEnt>)
    requires Holds(store, dest, d)
    ensures dir == [Head(store.H, Dot(d))] + Heads(store.H, d.ents)
  {
    hide DirKept, DirRoot, Heads;
    assert forall i | 0 <= i < |d.ents| :: ItemOk(d.ents[i]) && Kept(store.H, store.m, d.ents[i].body);
    HeadsFit(store.H, store.m, d.ents);
    dir := ReadDir(store, dest, d.mode, Heads(store.H, d.ents));
  }

  ghost predicate AllKept(H: Hasher, m: Chunks, items: seq<Item>) {
    forall i | 0 <= i < |items| :: Kept(H, m, items[i].body)
  }

  /** Write a directory whose entries stand for the nodes `items`. */
  method WriteNode(store: Store, indir: seq<DirEnt>, mode: Mode, ghost items: seq<Item>) returns (r: Outcome)
    requires indir == Heads(store.H, items) && |items| <= MAX_ENTS
    modifies store
    ensures Grows(old(store.m), store.m) && (store.clean ==> old(store.clean))
    ensures (r.Done? || r == Failed) && (r.Done? <==> MakeDir(mode, items).Ok?)
    ensures r.Done? ==> r.ent == Head(store.H, Dot(MakeDir(mode, items).node))
    ensures r.Done? && store.clean && AllKept(store.H, old(store.m), items) ==>
      Kept(store.H, store.m, MakeDir(mode, items).node)
  {
    hide Acceptable, Accepts, DirKept, DirRoot, Heads, Sort, Grows;
    AcceptsHeads(store.H, items);
    AcceptsAcceptable(indir);
    SortHeads(store.H, items);
    var ok, ent := WriteDir(store, indir, mode);
    if !ok { return Failed; }
    if store.clean && AllKept(store.H, old(store.m), items) {
      AllKeptGrows(store.H, old(store.m), store.m, items);
      KeptDir(store.H, store.m, AsDir(mode), items);
    }
    r := Done(ent);
  }

  lemma AllKeptGrows(H: Hasher, m: Chunks, m': Chunks, items: seq<Item>)
    requires AllKept(H, m, items) && Grows(m, m')
    ensures AllKept(H, m', items)
  {
    hide Kept, Grows;
    forall i | 0 <= i < |items| ensures Kept(H, m', items[i].body) { KeptGrows(H, m, m', items[i].body); }
  }

  method FindEnt(ents: seq<DirEnt>, name: Name) returns (i: nat)
    ensures i == Find(ents, name)
  {
    hide Find;
    i := 0;
    while i < |ents|
      invariant i <= |ents| && forall j | 0 <= j < i :: ents[j].name != name
    {
      if ents[i].name == name { return; }
      i := i + 1;
    }
  }

  /** Where a name is in a directory as read, the "." entry included. */
  lemma FindRead(H: Hasher, d: Node, name: Name)
    requires d.Dir?
    ensures Find([Head(H, Dot(d))] + Heads(H, d.ents), name) == if name == DOT then 0 else 1 + Find(d.ents, name)
  {
    hide Heads, NodeRoot, Find;
    FindDot(Head(H, Dot(d)), Heads(H, d.ents), name);
    FindHeads(H, d.ents, name);
  }

  lemma ReadAt(H: Hasher, d: Node, i: nat)
    requires d.Dir? && Canonical(d) && i < |d.ents|
    ensures ([Head(H, Dot(d))] + Heads(H, d.ents))[i + 1] == Head(H, d.ents[i])
    ensures ItemOk(d.ents[i])
  {
    hide Heads, NodeRoot;
    HeadsAt(H, d.ents, i);
  }

  lemma DotIsDir(H: Hasher, d: Node)
    requires d.Dir? && Canonical(d)
    ensures Head(H, Dot(d)).IsDir()
  {
  }

  // ---------------------------------------------------------------- lookup

  /** The loop over the path elements; the first, empty one stands for the root itself. */
  method Walk(store: Store, root: Hash, path: Path, ghost d: Node) returns (found: bool, ent: DirEnt)
    requires Holds(store, root, d) && PathOk(path)
    ensures found <==> Resolve(d, path).Found?
    ensures found ==> ent == Head(store.H, Resolve(d, path).ent)
  {
    hide Kept, Canonical, Heads, NodeRoot, Find;
    var elems := [[]] + path;
    var hash := root;
    ghost var cur := d;
    var top := ReadNode(store, hash, cur);
    ent := top[0];
    var i := 0;
    while i < |elems|
      invariant 0 <= i <= |elems|
      invariant i == 0 ==> cur == d
      invariant i < |elems| ==> Holds(store, hash, cur)
      invariant 0 < i < |elems| ==> Resolve(d, path) == Resolve(cur, path[i - 1..])
      invariant i == |elems| ==> Resolve(d, path).Found? && ent == Head(store.H, Resolve(d, path).ent)
    {
      var name := if elems[i] == [] then DOT else elems[i];
      var ents := ReadNode(store, hash, cur);
      var j := FindEnt(ents, name);
      FindRead(store.H, cur, name);
      ghost var next := cur;
      if i > 0 {
        assert elems[i] == path[i - 1];
        next := WalkStep(store, hash, cur, path[i - 1..], j);
      } else {
        assert path[0..] == path;
        DotIsDir(store.H, cur);
      }
      if j == |ents| { return false, ent; }
      if i != |elems| - 1 {
        if !ents[j].IsDir() { return false, ent; }
        hash := ents[j].body.addr;
        cur := next;
        assert i > 0 ==> path[i - 1..][1..] == path[i..];
      } else {
        ent := ents[j];
      }
      i := i + 1;
    }
    found := true;
  }

  /** One name further down. */
  lemma WalkStep(store: Store, hash: Hash, cur: Node, rest: Path, j: nat) returns (next: Node)
    requires Holds(store, hash, cur) && rest != [] && j == 1 + Find(cur.ents, rest[0])
    ensures var ents := [Head(store.H, Dot(cur))] + Heads(store.H, cur.ents);
      && (j >= |ents| ==> Resolve(cur, rest) == Missing)
      && (j < |ents| && |rest| == 1 ==> Resolve(cur, rest).Found? && ents[j] == Head(store.H, Resolve(cur, rest).ent))
      && (j < |ents| && |rest| > 1 && !ents[j].IsDir() ==> Resolve(cur, rest) == Missing)
      && (j < |ents| && ents[j].IsDir() ==> Holds(store, ents[j].body.addr, next))
      && (j < |ents| && |rest| > 1 && ents[j].IsDir() ==> Resolve(cur, rest) == Resolve(next, rest[1..]))
  {
    hide Heads, NodeRoot, Find, DirKept;
    next := cur;
    if j < 1 + |cur.ents| {
      ReadAt(store.H, cur, j - 1);
      next := cur.ents[j - 1].body;
    }
  }

  // ---------------------------------------------------------------- updates

  lemma Parts(store: Store, dest: Hash, d: Node, k: nat)
    requires Holds(store, dest, d) && Small(d, k)
    ensures AllKept(store.H, store.m, d.ents) && |d.ents| <= k
    ensures forall i | 0 <= i < |d.ents| :: Small(d.ents[i].body, k)
    ensures forall i | 0 <= i < |d.ents| && d.ents[i].body.Dir? ::
      Holds(store, NodeRoot(store.H, d.ents[i].body).addr, d.ents[i].body)
  {
    hide NodeRoot, Heads, DirKept;
    forall i | 0 <= i < |d.ents| ensures ItemOk(d.ents[i]) { }
  }

  /** Write `d` again with the entry at `i` leading to `b`. It is never refused. */
  method Relink(store: Store, ents: seq<DirEnt>, i: nat, sub: DirEnt, ghost d: Node, ghost b: Node) returns (r: Outcome)
    requires d.Dir? && Canonical(d) && |d.ents| <= MAX_ENTS && 1 <= i <= |d.ents| && d.ents[i - 1].body.Dir?
    requires ents == [Head(store.H, Dot(d))] + Heads(store.H, d.ents)
    requires b.Dir? && Canonical(b) && sub == Head(store.H, Dot(b))
    modifies store
    ensures Grows(old(store.m), store.m) && (store.clean ==> old(store.clean))
    ensures var r' := Replace(d, i - 1, Ok(b));
      && r'.Ok? && r'.node.Dir? && r.Done? && r.ent == Head(store.H, Dot(r'.node))
      && (store.clean && AllKept(store.H, old(store.m), d.ents) && Kept(store.H, old(store.m), b) ==>
            Kept(store.H, store.m, r'.node))
  {
    hide Kept, Canonical, Heads, NodeRoot, Accepts, Sort, Grows, Written;
    Rewrite(d, i - 1, b);
    HeadsUpdate(store.H, d.ents, i - 1, b);
    var dir := ents[i := ents[i].(body := sub.body)];
    assert dir[1..] == Heads(store.H, d.ents)[i - 1 := ents[i].(body := sub.body)];
    r := WriteNode(store, dir[1..], dir[0].mode, d.ents[i - 1 := d.ents[i - 1].(body := b)]);
  }

  /** Insert `ent`, which stands for `e`, into the directory at `path`. */
  method Insert(store: Store, dest: Hash, path: Path, ent: DirEnt, ghost d: Node, ghost e: Item, ghost k: nat)
    returns (r: Outcome)
    requires Holds(store, dest, d) && PathOk(path) && Small(d, k) && k < MAX_ENTS
    requires ent == Head(store.H, e) && ItemOk(e) && Kept(store.H, store.m, e.body)
    modifies store
    ensures Grows(old(store.m), store.m) && (store.clean ==> old(store.clean))
    ensures (r.Done? || r == Failed) && (r.Done? <==> InsertAt(d, path, e).Ok?)
    ensures r.Done? ==> InsertAt(d, path, e).node.Dir? && r.ent == Head(store.H, Dot(InsertAt(d, path, e).node))
    ensures r.Done? && store.clean ==> Kept(store.H, store.m, InsertAt(d, path, e).node)
    decreases path
  {
    hide Kept, Canonical, Heads, NodeRoot, Find, Accepts, Sort, ItemOk, Small;
    InsertCanonical(d, path, e);
    Parts(store, dest, d, k);
    var ents := ReadNode(store, dest, d);
    if |path| == 0 {
      var mode := ents[0].mode;
      ents := ents[0 := ent];
      HeadsCons(store.H, e, d.ents);
      r := WriteNode(store, ents, mode, [e] + d.ents);
      return;
    }
    var i := FindEnt(ents, path[0]);
    FindRead(store.H, d, path[0]);
    if i == |ents| { return Failed; }
    ReadAt(store.H, d, i - 1);
    SameKind(d.ents[i - 1]);
    if !ents[i].IsDir() { return Failed; }
    ghost var b := d.ents[i - 1].body;
    var sub := Insert(store, ents[i].body.addr, path[1..], ent, b, e, k);
    if !sub.Done? { return Failed; }
    AllKeptGrows(store.H, old(store.m), store.m, d.ents);
    InsertCanonical(b, path[1..], e);
    r := Relink(store, ents, i, sub.ent, d, InsertAt(b, path[1..], e).node);
  }

  lemma SameKind(e: Item)
    requires ItemOk(e)
    ensures (e.IsDir() <==> e.body.Dir?) && Canonical(e.body)
  {
  }

  lemma WithoutStep(ents: seq<DirEnt>, name: Name, i: nat)
    requires i <= |ents|
    ensures i < |ents| ==>
      var kept := if ents[i].name == name then [] else [ents[i]];
      Without(ents[i..], name) == kept + Without(ents[i + 1..], name)
    ensures i == |ents| ==> Without(ents[i..], name) == []
    ensures i == 0 ==> ents[i..] == ents
  {
    if i < |ents| { assert ents[i..][1..] == ents[i + 1..]; }
  }

  method KeepOthers(ents: seq<DirEnt>, name: Name) returns (r: seq<DirEnt>)
    ensures r == Without(ents, name)
  {
    hide Without;
    r := [];
    WithoutStep(ents, name, 0);
    for i := 0 to |ents|
      invariant r + Without(ents[i..], name) == Without(ents, name)
    {
      WithoutStep(ents, name, i);
      ghost var tail := Without(ents[i + 1..], name);
      if ents[i].name != name {
        assert r + ([ents[i]] + tail) == (r + [ents[i]]) + tail;
        r := r + [ents[i]];
      } else {
        assert [] + tail == tail;
      }
    }
    WithoutStep(ents, name, |ents|);
  }

  /** Remove everything of the name at the end of `path`. */
  method Remove(store: Store, root: Hash, path: Path, ghost d: Node, ghost k: nat) returns (r: Outcome)
    requires Holds(store, root, d) && PathOk(path) && path != [] && Small(d, k) && k <= MAX_ENTS
    modifies store
    ensures Grows(old(store.m), store.m) && (store.clean ==> old(store.clean))
    ensures (r.Done? <==> RemoveAt(d, path).Ok?) && (r == Panicked <==> RemoveAt(d, path) == Panic) && r != Collided
    ensures r.Done? ==> RemoveAt(d, path).node.Dir? && r.ent == Head(store.H, Dot(RemoveAt(d, path).node))
    ensures r.Done? && store.clean ==> Kept(store.H, store.m, RemoveAt(d, path).node)
    decreases path
  {
    hide Kept, Canonical, Heads, NodeRoot, Find, Accepts, Sort, ItemOk, Small, Without;
    RemoveCanonical(d, path);
    Parts(store, root, d, k);
    var ents := ReadNode(store, root, d);
    if |path| == 1 {
      r := RemoveName(store, ents, path[0], d);
      return;
    }
    var i := FindEnt(ents, path[0]);
    FindRead(store.H, d, path[0]);
    if i == |ents| { return Failed; }
    ReadAt(store.H, d, i - 1);
    SameKind(d.ents[i - 1]);
    if !ents[i].IsDir() { return Failed; }
    ghost var b := d.ents[i - 1].body;
    var sub := Remove(store, ents[i].body.addr, path[1..], b, k);
    if !sub.Done? { return sub; }
    AllKeptGrows(store.H, old(store.m), store.m, d.ents);
    RemoveCanonical(b, path[1..]);
    r := Relink(store, ents, i, sub.ent, d, RemoveAt(b, path[1..]).node);
  }

  method RemoveName(store: Store, ents: seq<DirEnt>, name: Name, ghost d: Node) returns (r: Outcome)
    requires d.Dir? && |d.ents| <= MAX_ENTS && ents == [Head(store.H, Dot(d))] + Heads(store.H, d.ents)
    requires AllKept(store.H, store.m, d.ents)
    modifies store
    ensures Grows(old(store.m), store.m) && (store.clean ==> old(store.clean))
    ensures (r.Done? <==> RemoveAt(d, [name]).Ok?) && (r == Panicked <==> RemoveAt(d, [name]) == Panic) && r != Collided
    ensures r.Done? ==> r.ent == Head(store.H, Dot(RemoveAt(d, [name]).node))
    ensures r.Done? && store.clean ==> Kept(store.H, store.m, RemoveAt(d, [name]).node)
  {
    hide Kept, Heads, NodeRoot, Accepts, Sort, Without;
    var mode := ents[0].mode;
    var rest := ents[1..];
    var nents: int := |rest| - 1;
    if nents < 0 { return Panicked; }
    var newDir := KeepOthers(rest, name);
    HeadsWithout(store.H, d.ents, name);
    KeptWithout(store.H, store.m, d.ents, name);
    if |newDir| > nents { return Failed; }
    r := WriteNode(store, newDir, mode, Without(d.ents, name));
  }

  lemma KeptWithout(H: Hasher, m: Chunks, items: seq<Item>, name: Name)
    requires AllKept(H, m, items)
    ensures AllKept(H, m, Without(items, name))
  {
    hide Kept, Without;
    WithoutItems(items, name);
    forall x <- Without(items, name) ensures Kept(H, m, x.body) { assert x in items; }
  }

  /** Copy the entry at `src` to the name `name` in the directory `dir`. */
  method Copy(store: Store, root: Hash, dir: Path, name: Name, src: Path, ghost d: Node, ghost k: nat)
    returns (r: Outcome)
    requires Holds(store, root, d) && PathOk(dir) && PathOk(src) && Small(d, k) && k < MAX_ENTS
    modifies store
    ensures Grows(old(store.m), store.m) && (store.clean ==> old(store.clean))
    ensures (r.Done? || r == Failed) && (r.Done? <==> CopyTo(d, dir, name, src).Ok?)
    ensures r.Done? ==>
      CopyTo(d, dir, name, src).node.Dir? && r.ent == Head(store.H, Dot(CopyTo(d, dir, name, src).node))
    ensures r.Done? && store.clean ==> Kept(store.H, store.m, CopyTo(d, dir, name, src).node)
  {
    hide Kept, Canonical, Heads, NodeRoot, Small, Resolve, InsertAt;
    var found, ent := Walk(store, root, src, d);
    if !found { return Failed; }
    ghost var e := Resolve(d, src).ent;
    ResolveCanonical(d, src);
    KeptBelow(store.H, store.m, d, src);
    r := Insert(store, root, dir, ent.(name := name), d, e.(name := name), k);
  }

  /** Copy, then remove the source from the copy. If chunks collide while copying, the copy cannot be
      relied on and the move is given up. */
  method Move(store: Store, root: Hash, dir: Path, name: Name, src: Path, ghost d: Node, ghost k: nat)
    returns (r: Outcome)
    requires Holds(store, root, d) && PathOk(dir) && PathOk(src) && Small(d, k) && k < MAX_ENTS
    modifies store
    ensures Grows(old(store.m), store.m) && (store.clean ==> old(store.clean))
    ensures r != Panicked && (r == Collided ==> !store.clean)
    ensures store.clean ==> (r.Done? <==> FsLaws.MoveAllowed(d, dir, name, src))
    ensures store.clean && r.Done? ==> MoveTo(d, dir, name, src).Ok? && MoveTo(d, dir, name, src).node.Dir?
    ensures store.clean && r.Done? ==> Holds(store, r.ent.body.addr, MoveTo(d, dir, name, src).node)
  {
    hide Kept, Canonical, Heads, NodeRoot, Small, Resolve, InsertAt, RemoveAt, FsLaws.MoveAllowed;
    FsLaws.MoveIff(d, dir, name, src);
    r := Copy(store, root, dir, name, src, d, k);
    CopySound(d, dir, name, src, k);
    if !r.Done? { return; }
    if !store.clean { return Collided; }
    ghost var c := CopyTo(d, dir, name, src).node;
    if src == [] { return Failed; }
    RemoveCanonical(c, src);
    r := Remove(store, r.ent.body.addr, src, c, k + 1);
  }

  lemma CopySound(d: Node, dir: Path, name: Name, src: Path, k: nat)
    requires d.Dir? && Canonical(d) && Small(d, k)
    ensures CopyTo(d, dir, name, src) != Panic
    ensures CopyTo(d, dir, name, src).Ok? ==>
      Canonical(CopyTo(d, dir, name, src).node) && Small(CopyTo(d, dir, name, src).node, k + 1)
  {
    hide Canonical, Small, Resolve, InsertAt;
    if Resolve(d, src).Found? {
      var e := Resolve(d, src).ent.(name := name);
      ResolveCanonical(d, src);
      SmallBelow(d, k, src);
      SameKind(Resolve(d, src).ent);
      InsertCanonical(d, dir, e);
      InsertSmall(d, dir, e, k);
    }
  }

  /** Inserting under a free name and removing it again leads back to the hash of the start. */
  method InsertThenRemove(store: Store, dest: Hash, path: Path, ent: DirEnt, ghost d: Node, ghost e: Item, ghost k: nat)
    returns (mid: Outcome, end: Outcome)
    requires Holds(store, dest, d) && PathOk(path + [ent.name]) && Small(d, k) && k < MAX_ENTS
    requires ent == Head(store.H, e) && ItemOk(e) && Kept(store.H, store.m, e.body) && Small(e.body, k)
    modifies store
    ensures store.clean && mid.Done? && Resolve(d, path + [ent.name]) == Missing ==>
      end == Done(Head(store.H, Dot(d))) && end.ent.body.addr == dest
  {
    hide Kept, Canonical, Heads, NodeRoot, Small, Resolve, InsertAt, RemoveAt, ItemOk;
    assert PathOk(path) by { assert forall i | 0 <= i < |path| :: path[i] == (path + [ent.name])[i]; }
    end := Failed;
    InsertCanonical(d, path, e);
    InsertSmall(d, path, e, k);
    mid := Insert(store, dest, path, ent, d, e, k);
    if !mid.Done? || !store.clean { return; }
    ghost var c := InsertAt(d, path, e).node;
    if Resolve(d, path + [e.name]) == Missing { FsLaws.InsertRemove(d, path, e); }
    end := Remove(store, mid.ent.body.addr, path + [ent.name], c, k + 1);
  }
}
