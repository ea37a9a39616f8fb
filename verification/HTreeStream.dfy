/** Writer and reader put together: what goes in comes out, whatever the sizes of the calls. */
module HTreeStream {
  import opened Bytes
  import opened ChunkStore
  import opened HTree
  import opened HTreeWriter
  import opened HTreeReader

  function Part(part: seq<byte>): seq<byte> {
    part
  }

  /** The parts joined. */
  function Flatten(parts: seq<seq<byte>>): seq<byte> {
    Flat(Part, parts)
  }

  lemma FlattenStep(parts: seq<seq<byte>>, i: nat)
    requires i <= |parts|
    ensures i == 0 ==> parts[i..] == parts
    ensures Flatten(parts[i..]) == if i < |parts| then parts[i] + Flatten(parts[i + 1..]) else []
  {
    if i < |parts| { assert parts[i..][1..] == parts[i + 1..]; }
  }

  /** The first byte of a stored root is its height. */
  lemma RootChunk(H: Hasher, m: Chunks, t: Tree)
    requires Stored(H, m, t) && Level(t) < 256
    ensures RootOf(H, t).addr in m && m[RootOf(H, t).addr] != [] && m[RootOf(H, t).addr][0] as nat == RootOf(H, t).depth
  {
  }

  /** Write the parts one call each and close. The root depends on the bytes alone. */
  method WriteParts(store: Store, parts: seq<seq<byte>>) returns (r: Root)
    requires |Flatten(parts)| < TWO_64
    modifies store
    ensures r == RootOf(store.H, CanonTree(Flatten(parts)))
    ensures r.depth <= MAX_DEPTH
    ensures store.clean ==> Stored(store.H, store.m, CanonTree(Flatten(parts)))
    ensures store.clean ==> r.addr in store.m && store.m[r.addr] != [] && store.m[r.addr][0] as nat == r.depth
    ensures Grows(old(store.m), store.m) && (store.clean ==> old(store.clean))
  {
    hide Stored, Encode, Data, WellFormed, Writer.Valid, Flatten, CanonTree, Level, Addr, Grows;
    var w := new Writer(store);
    SameGrows(store.m);
    Feed(w, parts);
    ghost var data, mid := w.data, store.m;
    assert data == Flatten(parts);
    r := w.Close();
    GrowsTrans(old(store.m), mid, store.m);
    RootDepth(store.H, data);
    if store.clean { RootChunk(store.H, store.m, CanonTree(data)); }
  }

  /** One call of Write for each part. */
  method Feed(w: Writer, parts: seq<seq<byte>>)
    requires w.Valid() && |w.data| + |Flatten(parts)| < TWO_64
    modifies w, w.lvls, w.store
    ensures w.Valid() && w.data == old(w.data) + Flatten(parts)
    ensures Grows(old(w.store.m), w.store.m) && (w.store.clean ==> old(w.store.clean))
  {
    hide Writer.Valid, Flatten, Grows;
    ghost var whole := w.data + Flatten(parts);
    FlattenStep(parts, 0);
    SameGrows(w.store.m);
    var i := 0;
    while i < |parts|
      invariant 0 <= i <= |parts| && w.Valid() && w.data + Flatten(parts[i..]) == whole
      invariant Grows(old(w.store.m), w.store.m) && (w.store.clean ==> old(w.store.clean))
    {
      FlattenStep(parts, i);
      Assoc(w.data, parts[i], Flatten(parts[i + 1..]));
      ghost var m := w.store.m;
      w.Write(parts[i]);
      GrowsTrans(old(w.store.m), m, w.store.m);
      i := i + 1;
    }
    FlattenStep(parts, i);
  }

  lemma SameGrows(m: Chunks)
    ensures Grows(m, m)
  {
  }

  lemma GrowsTrans(a: Chunks, b: Chunks, c: Chunks)
    requires Grows(a, b) && Grows(b, c)
    ensures Grows(a, c)
  {
  }

  lemma RootDepth(H: Hasher, data: seq<byte>)
    requires |data| < TWO_64
    ensures RootOf(H, CanonTree(data)).depth == Level(CanonTree(data)) <= MAX_DEPTH
  {
    hide CanonTree, Level, Addr, WellFormed, Data, Off;
    CanonTreeSpec(data);
  }

  /** Read a whole stored tree. */
  method ReadTree(store: Store, root: Hash, ghost t: Tree) returns (data: seq<byte>, height: nat)
    requires Stored(store.H, store.m, t) && WellFormed(t) && root == Addr(store.H, t)
    requires Off(t) == 0 && |Data(t)| < TWO_64 && Level(t) <= NLEVELS - 2
    ensures data == Data(t) && height == Level(t)
  {
    var r := new Reader(store, root, t);
    data := r.ReadAll();
    height := r.height;
  }

  /** The round trip: what WriteParts stored for `data` is read back as `data`. */
  method ReadBack(store: Store, root: Hash, ghost data: seq<byte>) returns (out: seq<byte>, height: nat)
    requires |data| < TWO_64 && root == Addr(store.H, CanonTree(data))
    requires Stored(store.H, store.m, CanonTree(data))
    ensures out == data && height == Level(CanonTree(data))
  {
    CanonTreeSpec(data);
    out, height := ReadTree(store, root, CanonTree(data));
  }

  /** Seeking forward and back again without a Read in between: the second Seek believes the reader
      is still at offset 0 and leaves it where it is. */
  method SeekForgetsSeek(r: Reader) returns (reported: Sought, next: seq<byte>)
    requires r.Valid() && r.offset == 0 && |Data(r.tree)| > 1
    modifies r
    ensures r.Valid() && reported == At(0) && next == [Data(r.tree)[1]]
  {
    hide Reader.Valid, Data;
    r.ReadyOpened();
    reported := r.Seek(1);
    reported := r.Seek(0);
    var eof;
    next, eof := r.Read(1);
  }
}
