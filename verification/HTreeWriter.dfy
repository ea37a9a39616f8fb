/**
 The streaming hash tree builder. Each level keeps one buffer; a full buffer is stored and carried
 into the level above only when one more entry has to go in, so nothing is stored early.

 `rows[k]` is the history of the writer: every tree of level `k` it has stored. The buffers are
 determined by the rows, and the rows by the bytes written, which is why the root `Close` returns is
 the batch tree of those bytes, however they were split over calls of `Write`.
 */
module HTreeWriter {
  import opened Bytes
  import opened ChunkStore
  import opened HTree

  /** What Close returns: the height of the root and its address. */
  datatype Root = Root(depth: nat, addr: Hash)

  function RootOf(H: Hasher, t: Tree): Root {
    Root(Level(t), Addr(H, t))
  }

  /** The buffer of an interior level holding the entries of `ts`; unused levels are empty. */
  function Buf(H: Hasher, lvl: nat, ts: seq<Tree>): seq<byte>
    requires lvl < NLEVELS
  {
    if ts == [] then [] else [lvl as byte] + Entries(H, ts)
  }

  ghost predicate RowsStored(H: Hasher, m: Chunks, rows: seq<seq<Tree>>) {
    forall k | 0 <= k < |rows| :: AllStored(H, m, rows[k])
  }

  lemma RowsStoredGrows(H: Hasher, m: Chunks, m': Chunks, rows: seq<seq<Tree>>)
    requires Grows(m, m') && RowsStored(H, m, rows)
    ensures RowsStored(H, m', rows)
  {
    forall k, t | 0 <= k < |rows| && t in rows[k] ensures Stored(H, m', t) {
      StoredGrows(H, m, m', t);
    }
  }

  lemma RowsStoredPush(H: Hasher, m: Chunks, rows: seq<seq<Tree>>, lvl: nat, t: Tree)
    requires lvl < |rows| && RowsStored(H, m, rows) && Stored(H, m, t)
    ensures RowsStored(H, m, rows[lvl := rows[lvl] + [t]])
  {
    assert AllStored(H, m, rows[lvl]);
  }

  /** Rows thin out by FANOUT from level to level. */
  ghost predicate Thinning(rows: seq<seq<Tree>>) {
    forall k | 0 <= k < |rows| - 1 :: FANOUT * |rows[k + 1]| <= |rows[k]|
  }

  lemma {:induction false} RowBound(rows: seq<seq<Tree>>, k: nat, d: nat)
    requires k < |rows| && Thinning(rows)
    requires |rows[0]| < Pow(FANOUT, k + d)
    ensures |rows[k]| < Pow(FANOUT, d)
  {
    if k > 0 {
      RowBound(rows, k - 1, d + 1);
      assert FANOUT * |rows[k]| <= |rows[k - 1]| < FANOUT * Pow(FANOUT, d);
    }
  }

  /** Fewer than 2^64 / LEAF leaves need no more than five levels above them. */
  lemma PowBound(n: nat)
    requires LEAF * n < TWO_64
    ensures n < Pow(FANOUT, MAX_DEPTH) && n < Pow(FANOUT, 8)
  {
    assert Pow(FANOUT, 5) == FANOUT * Pow(FANOUT, 4) == FANOUT * FANOUT * Pow(FANOUT, 3);
    assert Pow(FANOUT, 8) == FANOUT * FANOUT * FANOUT * Pow(FANOUT, 5);
  }

  /** A level has no room for one more 40-byte entry exactly when its open group is full. */
  lemma RoomLeft(H: Hasher, lvl: nat, ts: seq<Tree>)
    requires 0 < lvl < NLEVELS && |ts| <= FANOUT
    ensures MAXLEN - |Buf(H, lvl, ts)| < 8 + 32 <==> |ts| == FANOUT
    ensures ts != [] ==> Buf(H, lvl, ts) == Encode(H, Node(lvl, ts))
  {
  }

  /** Entering one more tree in a buffer. */
  lemma BufPush(H: Hasher, lvl: nat, ts: seq<Tree>, t: Tree)
    requires 0 < lvl < NLEVELS
    ensures Buf(H, lvl, ts + [t])
         == (if ts == [] then [lvl as byte] else Buf(H, lvl, ts)) + Entry(H, t)
  {
    EntriesAppend(H, ts, [t]);
    assert Entries(H, [t]) == Entry(H, t);
  }

  /** An interior chunk starts, after the level byte, with the stream offset of its subtree. */
  lemma FirstOffset(H: Hasher, t: Tree)
    requires t.Node? && t.kids != []
    ensures |Encode(H, t)| >= 9 && Encode(H, t)[1..9] == LE(Off(t), 8)
  {
    var e := Entry(H, t.kids[0]);
    assert Encode(H, t)[1..41] == e && e[..8] == LE(Off(t), 8);
    assert Encode(H, t)[1..9] == e[..8];
  }

  lemma {:induction false} RowsNonEmpty(rows: seq<seq<Tree>>, k: nat, top: nat)
    requires k <= top < |rows| && Thinning(rows) && rows[top] != []
    ensures rows[k] != []
    decreases top - k
  {
    if k < top {
      RowsNonEmpty(rows, k + 1, top);
      assert FANOUT * |rows[k + 1]| <= |rows[k]|;
    }
  }

  /** Six more carries fit below the top of the level array. */
  lemma Headroom(rows: seq<seq<Tree>>, k: nat)
    requires k <= MAX_DEPTH < |rows| && Thinning(rows) && LEAF * |rows[0]| < TWO_64
    ensures |rows[k]| + 6 < Pow(FANOUT, 8 - k)
    ensures rows[MAX_DEPTH] == []
  {
    PowBound(|rows[0]|);
    RowBound(rows, k, MAX_DEPTH - k);
    RowBound(rows, MAX_DEPTH, 0);
    assert Pow(FANOUT, 8 - k) == FANOUT * FANOUT * FANOUT * Pow(FANOUT, 5 - k);
  }

  lemma DataOfFull(full: seq<Tree>)
    requires forall t <- full :: t.Leaf? && |t.data| == LEAF
    ensures |DataOf(full)| == LEAF * |full|
  {
  }

  class Writer {
    const store: Store
    const lvls: array<seq<byte>>   // lvls[k] is the filled part of level k's buffer
    var offset: nat
    ghost var rows: seq<seq<Tree>>
    ghost var data: seq<byte>

    ghost predicate Shape()
      reads this, lvls
    {
      lvls.Length == NLEVELS && |rows| == NLEVELS
    }

    /** Level `k`'s trees are grouped into level `k + 1`'s, the open group sitting in the buffer. */
    ghost predicate Linked(k: nat)
      requires Shape() && k + 1 < NLEVELS
      reads this, lvls
    {
      && rows[k + 1] == Closed(k + 1, rows[k])
      && lvls[k + 1] == Buf(store.H, k + 1, Open(rows[k]))
    }

    ghost predicate LinkedFrom(lvl: nat)
      requires Shape()
      reads this, lvls
    {
      forall k | lvl <= k < NLEVELS - 1 :: Linked(k)
    }

    ghost predicate TreesStored()
      reads this, store
    {
      store.clean ==> RowsStored(store.H, store.m, rows)
    }

    /** Level 0: full leaves stored, the rest of the stream in the buffer. */
    ghost predicate LeafLevel()
      requires Shape()
      reads this, lvls
    {
      && (forall t <- rows[0] :: t.Leaf? && |t.data| == LEAF)
      && Contig(rows[0], 0)
      && offset == |DataOf(rows[0])|
      && 1 <= |lvls[0]| <= MAXLEN && lvls[0][0] == 0
      && data == DataOf(rows[0]) + lvls[0][1..]
    }

    ghost predicate Valid()
      reads this, lvls, store
    {
      && Shape() && LeafLevel() && LinkedFrom(0) && TreesStored()
      && (rows[0] != [] ==> |lvls[0]| > 1)
      && |data| < TWO_64
    }

    constructor (store: Store)
      ensures Valid() && fresh(lvls) && this.store == store && data == []
    {
      this.store := store;
      lvls := new seq<byte>[NLEVELS](i => if i == 0 then [0] else []);
      offset := 0;
      rows := seq(NLEVELS, _ => []);
      data := [];
    }

    method Write(buf: seq<byte>)
      requires Valid() && |data| + |buf| < TWO_64
      modifies this, lvls, store
      ensures Valid() && data == old(data) + buf
      ensures Grows(old(store.m), store.m) && (store.clean ==> old(store.clean))
    {
      var rest := buf;
      while |rest| != 0
        invariant Shape() && LeafLevel() && LinkedFrom(0) && TreesStored()
        invariant rest == [] && rows[0] != [] ==> |lvls[0]| > 1
        invariant data + rest == old(data) + buf
        invariant Grows(old(store.m), store.m) && (store.clean ==> old(store.clean))
        decreases |rest|, |lvls[0]|
      {
        var n := if |rest| < MAXLEN - |lvls[0]| then |rest| else MAXLEN - |lvls[0]|;
        if n == 0 {
          FlushLeaf();
          continue;
        }
        AppendLeaf(rest[..n]);
        rest := rest[n..];
      }
    }

    /** Copy bytes that fit into the leaf buffer. */
    method AppendLeaf(part: seq<byte>)
      requires Shape() && LeafLevel() && LinkedFrom(0) && TreesStored()
      requires 0 < |part| <= MAXLEN - |lvls[0]|
      modifies this, lvls
      ensures Shape() && LeafLevel() && LinkedFrom(0) && TreesStored()
      ensures |lvls[0]| > 1 && data == old(data) + part
    {
      assert (lvls[0] + part)[1..] == lvls[0][1..] + part;
      lvls[0] := lvls[0] + part;
      data := data + part;
      forall k | 0 <= k < NLEVELS - 1 ensures Linked(k) { assert old(Linked(k)); }
    }

    /** Store the full leaf and start the next one. */
    method FlushLeaf()
      requires Shape() && LeafLevel() && LinkedFrom(0) && TreesStored()
      requires |lvls[0]| == MAXLEN && |data| < TWO_64
      modifies this, lvls, store
      ensures Shape() && LeafLevel() && LinkedFrom(0) && TreesStored()
      ensures lvls[0] == [0] && data == old(data)
      ensures Grows(old(store.m), store.m) && (store.clean ==> old(store.clean))
    {
      ghost var leaf := Leaf(offset, lvls[0][1..]);
      DataOfFull(rows[0]);
      DataOfAppend(rows[0], [leaf]);
      ContigAppend(rows[0], [leaf], 0);
      assert lvls[0] == [0] + lvls[0][1..];
      PowBound(|rows[0]|);
      FlushLvl(0, leaf);
    }

    /** Store the node in level `lvl`'s buffer and enter it in the level above, carrying first if
        that level is full. */
    method FlushLvl(lvl: nat, ghost t: Tree)
      requires Shape() && lvl + 1 < NLEVELS && LinkedFrom(lvl)
      requires |rows[lvl]| < Pow(FANOUT, 8 - lvl)
      requires lvls[lvl] == Encode(store.H, t) && Level(t) == lvl
      requires if lvl == 0 then t.Leaf? && Off(t) == offset else t.Node? && t.kids != []
      requires TreesStored() && (store.clean && t.Node? ==> AllStored(store.H, store.m, t.kids))
      modifies this, lvls, store
      ensures Shape() && LinkedFrom(lvl) && TreesStored()
      ensures rows[lvl] == old(rows)[lvl] + [t] && lvls[lvl] == [lvl as byte]
      ensures forall k | lvl < k < NLEVELS :: |old(rows)[k]| <= |rows[k]| <= |old(rows)[k]| + 1
      ensures forall k | 0 <= k < lvl :: rows[k] == old(rows)[k] && lvls[k] == old(lvls[k])
      ensures data == old(data)
      ensures offset == old(offset) + (if lvl == 0 then |old(lvls[0])| - 1 else 0)
      ensures Grows(old(store.m), store.m) && (store.clean ==> old(store.clean))
      decreases NLEVELS - lvl, 1
    {
      hide Encode, Buf, Open, Closed, Pow, RowsStored, AllStored, Stored, Addr, Off;
      var hash := StoreNode(lvls[lvl], t);
      ghost var mid := store.m;
      ghost var above := MakeRoom(lvl, t);
      if store.clean { StoredGrows(store.H, mid, store.m, t); }
      label Roomy:
      Enter(lvl, hash, t, above);
      if store.clean { RowsStoredPush(store.H, store.m, old@Roomy(rows), lvl, t); }
      forall k | lvl < k < NLEVELS - 1 ensures Linked(k) { assert old@Roomy(Linked(k)); }
    }

    /** Ensure level `lvl + 1` has room for one more entry; `above` is what it then holds. */
    method MakeRoom(lvl: nat, ghost t: Tree) returns (ghost above: seq<Tree>)
      requires Shape() && lvl + 1 < NLEVELS && LinkedFrom(lvl) && TreesStored()
      requires |rows[lvl]| < Pow(FANOUT, 8 - lvl)
      modifies this, lvls, store
      ensures Shape() && LinkedFrom(lvl + 1) && TreesStored()
      ensures rows[lvl + 1] == Closed(lvl + 1, rows[lvl] + [t])
      ensures Open(rows[lvl] + [t]) == above + [t]
      ensures lvls[lvl + 1] == Buf(store.H, lvl + 1, above) || (above == [] && lvls[lvl + 1] == [(lvl + 1) as byte])
      ensures forall k | 0 <= k <= lvl :: rows[k] == old(rows)[k] && lvls[k] == old(lvls[k])
      ensures forall k | lvl < k < NLEVELS :: |old(rows)[k]| <= |rows[k]| <= |old(rows)[k]| + 1
      ensures data == old(data) && offset == old(offset)
      ensures Grows(old(store.m), store.m) && (store.clean ==> old(store.clean))
      decreases NLEVELS - lvl, 0
    {
      hide Encode, Stored, Addr, Off, Closed, Data, DataOf;
      above := Open(rows[lvl]);
      assert Linked(lvl);
      RoomLeft(store.H, lvl + 1, above);
      PushGroup(lvl + 1, rows[lvl], t);
      if MAXLEN - |lvls[lvl + 1]| < 8 + 32 {
        assert Pow(FANOUT, 8 - lvl) == FANOUT * Pow(FANOUT, 7 - lvl);
        assert store.clean ==> AllStored(store.H, store.m, rows[lvl]);
        FlushLvl(lvl + 1, Node(lvl + 1, above));
        above := [];
      }
    }

    /** Put the chunk of a tree whose children are stored. */
    method StoreNode(chunk: seq<byte>, ghost t: Tree) returns (hash: Hash)
      requires chunk == Encode(store.H, t)
      requires TreesStored() && (store.clean && t.Node? ==> AllStored(store.H, store.m, t.kids))
      modifies store
      ensures hash == Addr(store.H, t)
      ensures TreesStored() && (store.clean ==> Stored(store.H, store.m, t))
      ensures Grows(old(store.m), store.m) && (store.clean ==> old(store.clean))
    {
      hash := store.Put(chunk);
      if store.clean {
        RowsStoredGrows(store.H, old(store.m), store.m, rows);
        if t.Node? {
          forall k <- t.kids ensures Stored(store.H, store.m, k) {
            StoredGrows(store.H, old(store.m), store.m, k);
          }
        }
      }
    }

    /** Enter the node just stored at `hash` in the level above, where `above` is already entered,
        and restart this level's buffer. */
    method Enter(lvl: nat, hash: Hash, ghost t: Tree, ghost above: seq<Tree>)
      requires Shape() && lvl + 1 < NLEVELS
      requires rows[lvl + 1] == Closed(lvl + 1, rows[lvl] + [t])
      requires Open(rows[lvl] + [t]) == above + [t]
      requires lvls[lvl + 1] == Buf(store.H, lvl + 1, above) || (above == [] && lvls[lvl + 1] == [(lvl + 1) as byte])
      requires lvls[lvl] == Encode(store.H, t) && hash == Addr(store.H, t)
      requires if lvl == 0 then t.Leaf? && Off(t) == offset else t.Node? && t.kids != []
      modifies this, lvls
      ensures Shape() && Linked(lvl)
      ensures rows == old(rows)[lvl := old(rows)[lvl] + [t]] && lvls[lvl] == [lvl as byte]
      ensures forall k | 0 <= k < NLEVELS && k != lvl && k != lvl + 1 :: lvls[k] == old(lvls[k])
      ensures data == old(data)
      ensures offset == old(offset) + (if lvl == 0 then |old(lvls[0])| - 1 else 0)
    {
      hide Buf, Closed, Open, Addr, LE;
      if lvl > 0 { FirstOffset(store.H, t); }
      var off := if lvl == 0 then LE(offset, 8) else lvls[lvl][1..9];
      if lvl == 0 {
        offset := offset + (|lvls[0]| - 1);
      }
      lvls[lvl] := [lvl as byte];
      AddEntry(lvl + 1, off + hash, t, above);
      rows := rows[lvl := rows[lvl] + [t]];
    }

    /** Append one entry to an interior buffer, starting the buffer if it is unused. */
    method AddEntry(lvl: nat, entry: seq<byte>, ghost t: Tree, ghost above: seq<Tree>)
      requires 0 < lvl < lvls.Length == NLEVELS && entry == Entry(store.H, t)
      requires lvls[lvl] == Buf(store.H, lvl, above) || (above == [] && lvls[lvl] == [lvl as byte])
      modifies lvls
      ensures lvls[lvl] == Buf(store.H, lvl, above + [t])
      ensures forall k | 0 <= k < NLEVELS && k != lvl :: lvls[k] == old(lvls[k])
    {
      BufPush(store.H, lvl, above, t);
      if |lvls[lvl]| == 0 {
        lvls[lvl] := [lvl as byte];
      }
      lvls[lvl] := lvls[lvl] + entry;
    }

    /** Store what is left in every level, bottom up, and return the root. */
    method Close() returns (r: Root)
      requires Valid()
      modifies this, lvls, store
      ensures r == RootOf(store.H, CanonTree(old(data)))
      ensures store.clean ==> Stored(store.H, store.m, CanonTree(old(data)))
      ensures Grows(old(store.m), store.m) && (store.clean ==> old(store.clean))
    {
      var highest := FindHighest();
      FlushAll(highest);
      assert Linked(highest);
      r := TakeRoot(highest, CanonTree(old(data)));
    }

    /** The few trees left at the highest level are the root, or become its children. */
    method TakeRoot(highest: nat, ghost whole: Tree) returns (r: Root)
      requires highest <= MAX_DEPTH && Shape() && TreesStored()
      requires 1 <= |rows[highest]| <= FANOUT && Linked(highest)
      requires GroupUp(highest, rows[highest]) == whole
      requires forall t <- rows[highest] :: Level(t) == highest
      modifies store
      ensures r == RootOf(store.H, whole)
      ensures store.clean ==> Stored(store.H, store.m, whole)
      ensures Grows(old(store.m), store.m) && (store.clean ==> old(store.clean))
    {
      ghost var top := rows[highest];
      assert store.clean ==> AllStored(store.H, store.m, top);
      RoomLeft(store.H, highest + 1, top);
      if |lvls[highest + 1]| == 41 {
        assert top == [] + [top[0]];
        BufPush(store.H, highest + 1, [], top[0]);
        r := Root(highest, lvls[highest + 1][9..41]);
      } else {
        assert Group(highest + 1, top) == [Node(highest + 1, top)];
        var hash := StoreNode(lvls[highest + 1], Node(highest + 1, top));
        r := Root(highest + 1, hash);
      }
    }

    lemma LinkedThins()
      requires Shape() && LinkedFrom(0)
      ensures Thinning(rows)
    {
      forall k | 0 <= k < NLEVELS - 1 ensures FANOUT * |rows[k + 1]| <= |rows[k]| { assert Linked(k); }
    }

    /** The highest level in use. */
    method FindHighest() returns (highest: nat)
      requires Valid()
      ensures highest <= MAX_DEPTH && rows[highest] == []
      ensures forall k | 0 <= k < highest :: rows[k] != []
    {
      LinkedThins();
      DataOfFull(rows[0]);
      Headroom(rows, 0);
      highest := NLEVELS - 1;
      while |lvls[highest]| == 0
        invariant highest < NLEVELS
        invariant forall k | highest < k < NLEVELS :: lvls[k] == []
        decreases highest
      {
        highest := highest - 1;
      }
      if highest > 0 {
        assert Linked(highest - 1);
        forall k | 0 <= k < highest ensures rows[k] != [] { RowsNonEmpty(rows, k, highest - 1); }
      }
      if highest < NLEVELS - 1 { assert Linked(highest); }
    }

    /** During Close, before level `i` is flushed: every level below `i` is the batch grouping of
        the one below it, and each level has gained at most one tree per flush since `start`. */
    ghost predicate Closing(i: nat, start: seq<seq<Tree>>, whole: Tree)
      requires i < NLEVELS && |start| == NLEVELS
      reads this, lvls, store
    {
      && Shape() && TreesStored()
      && (forall k | 0 <= k < NLEVELS && i <= k + 1 :: |start[k]| <= |rows[k]| <= |start[k]| + i)
      && if i == 0 then
           && LinkedFrom(0) && 1 <= |lvls[0]| && lvls[0][0] == 0
           && rows[0] + [Leaf(offset, lvls[0][1..])] == Leaves(data, 0) && whole == CanonTree(data)
         else
           && LinkedFrom(i - 1) && |rows[i - 1]| > |start[i - 1]|
           && GroupUp(i - 1, rows[i - 1]) == whole
           && forall t <- rows[i - 1] :: Level(t) == i - 1
    }

    method FlushAll(highest: nat)
      requires Valid()
      requires highest <= MAX_DEPTH && rows[highest] == []
      requires forall k | 0 <= k < highest :: rows[k] != []
      modifies this, lvls, store
      ensures Closing(highest + 1, old(rows), CanonTree(old(data)))
      ensures Grows(old(store.m), store.m) && (store.clean ==> old(store.clean))
    {
      ghost var start, whole := rows, CanonTree(data);
      LinkedThins();
      DataOfFull(rows[0]);
      LeavesOf(rows[0], lvls[0][1..], 0);
      var i := 0;
      while i <= highest
        invariant i <= highest + 1 && Closing(i, start, whole)
        invariant Grows(old(store.m), store.m) && (store.clean ==> old(store.clean))
      {
        Headroom(start, i);
        FlushLast(i, start, whole);
        i := i + 1;
      }
    }

    /** One round of Close's flush loop. */
    method FlushLast(i: nat, ghost start: seq<seq<Tree>>, ghost whole: Tree)
      requires i <= MAX_DEPTH && |start| == NLEVELS && Closing(i, start, whole)
      requires |start[i]| + 6 < Pow(FANOUT, 8 - i)
      requires i > 0 ==> start[i - 1] != []
      modifies this, lvls, store
      ensures Closing(i + 1, start, whole)
      ensures Grows(old(store.m), store.m) && (store.clean ==> old(store.clean))
    {
      ghost var t := if i == 0 then Leaf(offset, lvls[0][1..]) else Node(i, Open(rows[i - 1]));
      if i == 0 {
        assert lvls[0] == [0] + lvls[0][1..];
      } else {
        assert Linked(i - 1);
        assert store.clean ==> AllStored(store.H, store.m, rows[i - 1]);
        RoomLeft(store.H, i, Open(rows[i - 1]));
        assert rows[i] + [t] == Group(i, rows[i - 1]);
      }
      if |lvls[i]| != 0 {
        FlushLvl(i, t);
      }
    }
  }
}
