/**
 Hash trees: a byte stream cut into leaves, with interior nodes listing the stream offset and the
 address of each child. `CanonTree` is the simple batch construction: cut the stream into full
 leaves, then group nodes `FANOUT` at a time, level by level, until one node is left.
 */
module HTree {
  import opened Bytes
  import opened ChunkStore

  const NLEVELS: nat := 10
  const MAXLEN: nat := 65535
  const LEAF: nat := 65534    // stream bytes in a full leaf: MAXLEN less the level byte
  const FANOUT: nat := 1638   // 40-byte entries that fit in MAXLEN after the level byte
  const ENTRY: nat := 40

  datatype Tree =
    | Leaf(off: nat, data: seq<byte>)
    | Node(lvl: nat, kids: seq<Tree>)

  function Level(t: Tree): nat {
    match t
    case Leaf(_, _) => 0
    case Node(lvl, _) => lvl
  }

  /** Stream offset of the first byte below `t`. */
  function Off(t: Tree): nat {
    match t
    case Leaf(off, _) => off
    case Node(_, kids) => if kids == [] then 0 else Off(kids[0])
  }

  /** The stream bytes below `t`. */
  function Data(t: Tree): seq<byte>
    decreases t, 1
  {
    match t
    case Leaf(_, data) => data
    case Node(_, kids) => DataOf(kids)
  }

  function DataOf(ts: seq<Tree>): seq<byte>
    decreases ts, 0
  {
    if ts == [] then [] else Data(ts[0]) + DataOf(ts[1..])
  }

  /** The chunk stored for `t`: a level byte, then stream data or the entries of the children. */
  function Encode(H: Hasher, t: Tree): (s: seq<byte>)
    ensures |s| >= 1 && s[0] as nat == Level(t) % 256
    decreases t, 2
  {
    match t
    case Leaf(_, data) => [0] + data
    case Node(lvl, kids) => [(lvl % 256) as byte] + Entries(H, kids)
  }

  function Addr(H: Hasher, t: Tree): Hash
    decreases t, 3
  {
    H(Encode(H, t))
  }

  /** What a parent records of `t`: its stream offset and its address. */
  function Entry(H: Hasher, t: Tree): (s: seq<byte>)
    ensures |s| == ENTRY
    decreases t, 4
  {
    LE(Off(t), 8) + Addr(H, t)
  }

  function Entries(H: Hasher, ts: seq<Tree>): (s: seq<byte>)
    ensures |s| == ENTRY * |ts|
    decreases ts, 0
  {
    if ts == [] then [] else Entry(H, ts[0]) + Entries(H, ts[1..])
  }

  /** Every chunk of `t` is in `m`, under its own address. */
  ghost predicate Stored(H: Hasher, m: Chunks, t: Tree) {
    && Addr(H, t) in m && m[Addr(H, t)] == Encode(H, t)
    && (t.Node? ==> forall k <- t.kids :: Stored(H, m, k))
  }

  ghost predicate AllStored(H: Hasher, m: Chunks, ts: seq<Tree>) {
    forall t <- ts :: Stored(H, m, t)
  }

  /** The trees cover consecutive stretches of the stream, the first one starting at `off`. */
  ghost predicate Contig(ts: seq<Tree>, off: nat) {
    ts != [] ==> Off(ts[0]) == off && Contig(ts[1..], off + |Data(ts[0])|)
  }

  /**
   Shape of a hash tree: children sit one level down, cover consecutive stretches of the stream,
   and none of them is empty. Only a lone root leaf may hold no bytes. No chunk is longer than MAXLEN.
   */
  ghost predicate WellFormed(t: Tree) {
    if t.Leaf? then |t.data| <= LEAF
    else
      && 1 <= t.lvl < 256 && 1 <= |t.kids| <= FANOUT
      && Contig(t.kids, Off(t))
      && forall k <- t.kids :: WellFormed(k) && Level(k) == t.lvl - 1 && Data(k) != []
  }

  // ---------------------------------------------------------------- batch construction

  function Leaves(data: seq<byte>, off: nat): (ts: seq<Tree>)
    ensures ts != [] && forall t <- ts :: t.Leaf?
    decreases |data|
  {
    if |data| <= LEAF then [Leaf(off, data)]
    else [Leaf(off, data[..LEAF])] + Leaves(data[LEAF..], off + LEAF)
  }

  /** The groups of `ts` that are known to be complete: a full group is closed by the next tree. */
  function Closed(lvl: nat, ts: seq<Tree>): (gs: seq<Tree>)
    ensures FANOUT * |gs| <= |ts|
    ensures |ts| > 0 ==> FANOUT * |gs| < |ts|
    ensures forall g <- gs :: Level(g) == lvl
  {
    if |ts| <= FANOUT then [] else [Node(lvl, ts[..FANOUT])] + Closed(lvl, ts[FANOUT..])
  }

  /** The last, still open group of `ts`. */
  function Open(ts: seq<Tree>): (o: seq<Tree>)
    ensures |o| <= FANOUT && |o| <= |ts| && (ts == [] <==> o == [])
    ensures forall t <- o :: t in ts
  {
    if |ts| <= FANOUT then ts else Open(ts[FANOUT..])
  }

  /** All of `ts` cut into groups, each group under one node of level `lvl`. */
  function Group(lvl: nat, ts: seq<Tree>): (gs: seq<Tree>)
    requires ts != []
    ensures 1 <= |gs| && (|ts| > 1 ==> |gs| < |ts|)
    ensures forall g <- gs :: Level(g) == lvl
  {
    Closed(lvl, ts) + [Node(lvl, Open(ts))]
  }

  /** Group level by level, starting with the trees `ts` of level `lvl`, until one is left. */
  function GroupUp(lvl: nat, ts: seq<Tree>): Tree
    requires ts != []
    decreases |ts|
  {
    if |ts| == 1 then ts[0] else GroupUp(lvl + 1, Group(lvl + 1, ts))
  }

  function CanonTree(data: seq<byte>): Tree {
    GroupUp(0, Leaves(data, 0))
  }

  // ---------------------------------------------------------------- lists of trees

  lemma DataOfCons(t: Tree, ts: seq<Tree>)
    ensures DataOf([t] + ts) == Data(t) + DataOf(ts)
  {
    assert ([t] + ts)[1..] == ts;
  }

  lemma {:induction false} DataOfAppend(a: seq<Tree>, b: seq<Tree>)
    ensures DataOf(a + b) == DataOf(a) + DataOf(b)
  {
    if a == [] {
      assert a + b == b;
    } else {
      var x, xs := a[0], a[1..];
      DataOfAppend(xs, b);
      assert a == [x] + xs && a + b == [x] + (xs + b);
      JoinData(x, xs, b);
    }
  }

  lemma JoinData(x: Tree, xs: seq<Tree>, b: seq<Tree>)
    requires DataOf(xs + b) == DataOf(xs) + DataOf(b)
    ensures DataOf([x] + (xs + b)) == DataOf([x] + xs) + DataOf(b)
  {
    hide Data, DataOf;
    DataOfCons(x, xs);
    DataOfCons(x, xs + b);
    Assoc(Data(x), DataOf(xs), DataOf(b));
  }

  lemma {:induction false} EntriesAppend(H: Hasher, a: seq<Tree>, b: seq<Tree>)
    ensures Entries(H, a + b) == Entries(H, a) + Entries(H, b)
  {
    if a == [] {
      assert a + b == b;
    } else {
      EntriesAppend(H, a[1..], b);
      assert (a + b)[1..] == a[1..] + b && (a + b)[0] == a[0];
      var e := Entry(H, a[0]);
      assert e + (Entries(H, a[1..]) + Entries(H, b)) == (e + Entries(H, a[1..])) + Entries(H, b);
    }
  }

  lemma {:induction false} ContigAppend(a: seq<Tree>, b: seq<Tree>, off: nat)
    ensures Contig(a + b, off) <==> Contig(a, off) && Contig(b, off + |DataOf(a)|)
  {
    if a == [] {
      assert a + b == b;
    } else {
      ContigAppend(a[1..], b, off + |Data(a[0])|);
      assert (a + b)[1..] == a[1..] + b;
    }
  }

  lemma {:induction false} StoredGrows(H: Hasher, m: Chunks, m': Chunks, t: Tree)
    requires Grows(m, m') && Stored(H, m, t)
    ensures Stored(H, m', t)
  {
    if t.Node? {
      forall k <- t.kids ensures Stored(H, m', k) { StoredGrows(H, m, m', k); }
    }
  }

  // ---------------------------------------------------------------- streaming and batch grouping

  /** Adding one more tree to a level: a full open group is closed first. */
  lemma {:induction false} PushGroup(lvl: nat, ts: seq<Tree>, t: Tree)
    ensures |Open(ts)| < FANOUT ==>
              Closed(lvl, ts + [t]) == Closed(lvl, ts) && Open(ts + [t]) == Open(ts) + [t]
    ensures |Open(ts)| == FANOUT ==>
              Closed(lvl, ts + [t]) == Closed(lvl, ts) + [Node(lvl, Open(ts))] && Open(ts + [t]) == [t]
  {
    if |ts| > FANOUT {
      PushGroup(lvl, ts[FANOUT..], t);
      assert (ts + [t])[FANOUT..] == ts[FANOUT..] + [t];
      assert (ts + [t])[..FANOUT] == ts[..FANOUT];
    } else if |ts| == FANOUT {
      assert (ts + [t])[FANOUT..] == [t];
      assert (ts + [t])[..FANOUT] == ts;
    }
  }

  /** Full leaves followed by a last, non-empty one are exactly the batch cut of their bytes. */
  lemma {:induction false} LeavesOf(full: seq<Tree>, rest: seq<byte>, off: nat)
    requires forall t <- full :: t.Leaf? && |t.data| == LEAF
    requires Contig(full, off)
    requires |rest| <= LEAF && (full != [] ==> rest != [])
    ensures Leaves(DataOf(full) + rest, off) == full + [Leaf(off + |DataOf(full)|, rest)]
  {
    hide Leaves, DataOf;
    NoData();
    if full == [] {
      LeavesShort(rest, off);
      assert [] + rest == rest;
    } else {
      var x, xs := full[0], full[1..];
      LeavesOf(xs, rest, off + LEAF);
      assert full == [x] + xs;
      DataOfCons(x, xs);
      Assoc(x.data, DataOf(xs), rest);
      LeavesStep(x.data, DataOf(xs) + rest, off);
      var last := Leaf(off + |DataOf(full)|, rest);
      assert ([x] + xs) + [last] == [x] + (xs + [last]);
    }
  }

  lemma NoData()
    ensures DataOf([]) == []
  {
  }

  lemma LeavesShort(rest: seq<byte>, off: nat)
    requires |rest| <= LEAF
    ensures Leaves(rest, off) == [Leaf(off, rest)]
  {
  }

  lemma LeavesStep(first: seq<byte>, rest: seq<byte>, off: nat)
    requires |first| == LEAF && rest != []
    ensures Leaves(first + rest, off) == [Leaf(off, first)] + Leaves(rest, off + LEAF)
  {
    assert (first + rest)[..LEAF] == first && (first + rest)[LEAF..] == rest;
  }

  // ---------------------------------------------------------------- the batch tree is right

  /** A level under construction: trees of one level covering a stream without gaps. */
  ghost predicate Row(lvl: nat, ts: seq<Tree>, off: nat) {
    && Contig(ts, off)
    && forall t <- ts :: WellFormed(t) && Level(t) == lvl && (|ts| > 1 ==> Data(t) != [])
  }

  lemma {:induction false} LeavesRow(data: seq<byte>, off: nat)
    ensures Row(0, Leaves(data, off), off) && DataOf(Leaves(data, off)) == data
    ensures data != [] ==> forall t <- Leaves(data, off) :: Data(t) != []
    ensures LEAF * |Leaves(data, off)| <= |data| + LEAF
    decreases |data|
  {
    hide Leaves, DataOf, Row;
    if |data| <= LEAF {
      LeavesShort(data, off);
      OneLeaf(data, off);
    } else {
      var first, rest := data[..LEAF], data[LEAF..];
      LeavesRow(rest, off + LEAF);
      assert data == first + rest;
      LeavesStep(first, rest, off);
      DataOfCons(Leaf(off, first), Leaves(rest, off + LEAF));
      ConsRow(0, Leaf(off, first), Leaves(rest, off + LEAF), off);
    }
  }

  lemma OneLeaf(data: seq<byte>, off: nat)
    requires |data| <= LEAF
    ensures Row(0, [Leaf(off, data)], off) && DataOf([Leaf(off, data)]) == data
  {
    assert data + [] == data;
  }

  /** One group of a row becomes one well-formed node covering the same bytes. */
  lemma NodeRow(lvl: nat, ts: seq<Tree>, off: nat)
    requires 1 <= |ts| <= FANOUT && lvl + 1 < 256 && Row(lvl, ts, off)
    requires forall t <- ts :: Data(t) != []
    ensures WellFormed(Node(lvl + 1, ts)) && Off(Node(lvl + 1, ts)) == off
    ensures Data(Node(lvl + 1, ts)) == DataOf(ts) != []
  {
    assert Data(ts[0]) != [] && ts[0] in ts;
  }

  lemma ConsRow(lvl: nat, n: Tree, ts: seq<Tree>, off: nat)
    requires WellFormed(n) && Level(n) == lvl && Off(n) == off && Data(n) != []
    requires Row(lvl, ts, off + |Data(n)|) && forall t <- ts :: Data(t) != []
    ensures Row(lvl, [n] + ts, off) && DataOf([n] + ts) == Data(n) + DataOf(ts)
    ensures forall t <- [n] + ts :: Data(t) != []
  {
    assert ([n] + ts)[1..] == ts;
  }

  lemma NoTrees(lvl: nat, off: nat)
    ensures Row(lvl, [], off) && DataOf([]) == [] && forall d: seq<byte> :: d + DataOf([]) == d
  {
  }

  /** Both parts of a row are rows. */
  lemma SplitRow(lvl: nat, a: seq<Tree>, b: seq<Tree>, off: nat)
    requires Row(lvl, a + b, off) && forall t <- a + b :: Data(t) != []
    ensures Row(lvl, a, off) && Row(lvl, b, off + |DataOf(a)|) && DataOf(a + b) == DataOf(a) + DataOf(b)
    ensures (forall t <- a :: Data(t) != []) && forall t <- b :: Data(t) != []
  {
    hide Data, Off, WellFormed, Contig, DataOf;
    DataOfAppend(a, b);
    ContigAppend(a, b, off);
    forall t <- a ensures t in a + b { }
    forall t <- b ensures t in a + b { }
  }

  lemma {:induction false} GroupRow(lvl: nat, ts: seq<Tree>, off: nat)
    requires ts != [] && lvl + 1 < 256 && Row(lvl, ts, off)
    requires forall t <- ts :: Data(t) != []
    ensures Row(lvl + 1, Group(lvl + 1, ts), off)
    ensures DataOf(Group(lvl + 1, ts)) == DataOf(ts)
    ensures forall t <- Group(lvl + 1, ts) :: Data(t) != []
    ensures FANOUT * |Group(lvl + 1, ts)| < |ts| + FANOUT
    decreases |ts|
  {
    hide Data, Off, WellFormed, Row, Contig, DataOf;
    if |ts| <= FANOUT {
      NoTrees(lvl + 1, off + |Data(Node(lvl + 1, ts))|);
      assert [Node(lvl + 1, ts)] + [] == [Node(lvl + 1, ts)];
      NodeRow(lvl, ts, off);
      ConsRow(lvl + 1, Node(lvl + 1, ts), [], off);
      assert Group(lvl + 1, ts) == [Node(lvl + 1, ts)] + [];
    } else {
      var a, b := ts[..FANOUT], ts[FANOUT..];
      assert ts == a + b;
      SplitRow(lvl, a, b, off);
      NodeRow(lvl, a, off);
      GroupRow(lvl, b, off + |DataOf(a)|);
      ConsRow(lvl + 1, Node(lvl + 1, a), Group(lvl + 1, b), off);
      assert Group(lvl + 1, ts) == [Node(lvl + 1, a)] + Group(lvl + 1, b);
    }
  }

  function Pow(b: nat, e: nat): nat {
    if e == 0 then 1 else b * Pow(b, e - 1)
  }

  /** Grouping keeps shape and bytes, needs `d` more levels for FANOUT^d trees, and never ends in
      an interior root with a single child. */
  lemma {:induction false} GroupUpSpec(lvl: nat, ts: seq<Tree>, off: nat, d: nat)
    requires ts != [] && Row(lvl, ts, off) && lvl + d < 256
    requires |ts| > 1 || Level(ts[0]) == 0 || |ts[0].kids| > 1
    requires |ts| <= Pow(FANOUT, d)
    ensures var t := GroupUp(lvl, ts);
            && WellFormed(t) && Data(t) == DataOf(ts) && Off(t) == off
            && lvl <= Level(t) <= lvl + d
            && (t.Node? ==> |t.kids| > 1)
    decreases |ts|
  {
    if |ts| == 1 {
      assert DataOf(ts) == Data(ts[0]);
    } else {
      GroupRow(lvl, ts, off);
      var gs := Group(lvl + 1, ts);
      if |gs| == 1 {
        assert |ts| <= FANOUT;
      }
      assert |gs| <= Pow(FANOUT, d - 1) by {
        assert FANOUT * |gs| < FANOUT * Pow(FANOUT, d - 1) + FANOUT;
      }
      GroupUpSpec(lvl + 1, gs, off, d - 1);
    }
  }

  /** The largest depth any stream below 2^64 bytes can reach. */
  const MAX_DEPTH: nat := 5

  /** The batch tree of any stream below 2^64 bytes: right bytes, right shape, depth at most 5, and
      an interior root has at least two children. */
  lemma CanonTreeSpec(data: seq<byte>)
    requires |data| < TWO_64
    ensures var t := CanonTree(data);
            && WellFormed(t) && Data(t) == data && Off(t) == 0
            && Level(t) <= MAX_DEPTH
            && (t.Node? ==> |t.kids| > 1)
  {
    LeavesRow(data, 0);
    assert Pow(FANOUT, 5) == FANOUT * Pow(FANOUT, 4) == FANOUT * FANOUT * Pow(FANOUT, 3);
    GroupUpSpec(0, Leaves(data, 0), 0, MAX_DEPTH);
  }
}
