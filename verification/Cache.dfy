/**
 The chunk cache: a recency ring and a map of its entries in memory, a database on disk, and sets of
 puts and deletes not yet written to it. It behaves as the plain recency-ordered map of CacheSpec.
 */
module Cache {
  import opened Bytes
  import opened ChunkStore
  import opened CacheSpec
  import opened LruList

  /** The ring and the map of entries list `items`, in order. */
  ghost predicate Mirrors(order: seq<Ent>, lruMap: map<Hash, Ent>, items: Items) {
    && |order| == |items| && Distinct(items)
    && lruMap.Keys == Hashes(items)
    && forall i | 0 <= i < |items| ::
         && order[i].hash == items[i].hash && order[i].size == |items[i].val|
         && items[i].hash in lruMap && lruMap[items[i].hash] == order[i]
  }

  /** The database, with the pending puts and deletes applied, holds exactly `items`. */
  ghost predicate Backs(db: Chunks, put: Chunks, del: set<Hash>, items: Items) {
    && put.Keys !! del
    && Hashes(items) == (db.Keys - del) + put.Keys
    && (forall it <- items :: it.hash in put || it.hash in db)
    && forall it <- items :: it.val == if it.hash in put then put[it.hash] else db[it.hash]
  }

  /** The key-value contents of `items`. */
  ghost predicate Contents(db: Chunks, items: Items) {
    db.Keys == Hashes(items) && forall it <- items :: db[it.hash] == it.val
  }

  lemma FlushBacks(db: Chunks, put: Chunks, del: set<Hash>, items: Items)
    requires Backs(db, put, del, items)
    ensures Backs((db + put) - del, map[], {}, items) && Contents((db + put) - del, items)
  {
    var db' := (db + put) - del;
    assert db'.Keys == (db.Keys - del) + put.Keys;
    forall it <- items ensures it.hash in db' && db'[it.hash] == it.val {
      assert it.hash in Hashes(items);
    }
  }

  lemma BacksEvict(db: Chunks, put: Chunks, del: set<Hash>, items: Items)
    requires Backs(db, put, del, items) && Distinct(items) && items != []
    ensures var h := items[|items| - 1].hash;
            Backs(db, put - {h}, del + {h}, items[..|items| - 1])
  {
    hide Hashes;
    HashesInit(items);
    var h, kept := items[|items| - 1].hash, items[..|items| - 1];
    assert h !in Hashes(kept);
    forall it <- kept ensures it in items && it.hash in Hashes(kept) { InHashes(kept, it); }
  }

  lemma InHashes(items: Items, it: Item)
    requires it in items
    ensures it.hash in Hashes(items)
  {
  }

  lemma HashesInit(items: Items)
    requires Distinct(items) && items != []
    ensures Hashes(items[..|items| - 1]) == Hashes(items) - {items[|items| - 1].hash}
  {
    var n := |items| - 1;
    var kept := items[..n];
    forall it <- kept ensures it in items && it.hash != items[n].hash {
      var i :| 0 <= i < n && kept[i] == it;
      assert items[i] == it;
    }
    forall it <- items ensures it in kept || it == items[n] {
      var i :| 0 <= i <= n && items[i] == it;
      assert i < n ==> kept[i] == it;
    }
  }

  lemma BacksPush(db: Chunks, put: Chunks, del: set<Hash>, items: Items, h: Hash, v: seq<byte>)
    requires Backs(db, put, del, items) && !Holds(items, h)
    ensures Backs(db, put[h := v], del - {h}, [Item(h, v)] + items)
    ensures Hashes([Item(h, v)] + items) == Hashes(items) + {h}
  {
    forall it <- items ensures it.hash != h { }
    HashesPush(items, Item(h, v));
  }

  lemma HashesPush(items: Items, it: Item)
    ensures Hashes([it] + items) == Hashes(items) + {it.hash}
  {
    assert it in [it] + items;
    forall jt <- items ensures jt in [it] + items { }
  }

  lemma TouchSame(items: Items, i: nat)
    requires i < |items|
    ensures forall it :: it in Touch(items, i) <==> it in items
    ensures Hashes(Touch(items, i)) == Hashes(items)
  {
    forall it ensures it in Touch(items, i) <==> it in items {
      if it in items {
        var j :| 0 <= j < |items| && items[j] == it;
        assert it in items[..i] || it == items[i] || it in items[i + 1..] by {
          if j < i { assert items[..i][j] == it; } else if j > i { assert items[i + 1..][j - i - 1] == it; }
        }
      }
    }
  }

  datatype PutError = Stored | TooLarge | DbError

  class Cache {
    var db: Chunks
    var size: nat
    const maxSize: nat
    var lruMap: map<Hash, Ent>
    const lru: List
    var pendingPut: Chunks
    var pendingDel: set<Hash>
    ghost var items: Items

    ghost predicate Valid()
      reads this, lru, lru.Nodes()
    {
      && lru.Valid() && Mirrors(lru.Order(), lruMap, items)
      && Backs(db, pendingPut, pendingDel, items)
      && size == Total(items)
    }

    /** Open a cache on a database. `order` is the order in which the database lists its keys; the
        last one listed counts as the most recently used. */
    constructor (db: Chunks, order: seq<Hash>, maxSize: nat)
      requires Enumerates(order, db.Keys)
      ensures Valid() && fresh(lru) && fresh(lru.Nodes())
      ensures Contents(db, items) && this.db == db && this.maxSize == maxSize
      ensures (forall h <- order :: h in db) && items == FromDb(db, order)
    {
      hide Total, Mirrors, Backs, Listed, Contents, List.Valid, Enumerates, FromDb;
      this.db := db;
      this.maxSize := maxSize;
      size := 0;
      lruMap := map[];
      lru := new List();
      pendingPut, pendingDel := map[], {};
      items := [];
      new;
      NoItems(lru.Order());
      NoneListed(db, order);
      Load(order);
      AllListed(db, order, items);
      ListedFromDb(db, order, items);
    }

    /** Enter every key the database lists. */
    method Load(order: seq<Hash>)
      requires lru.Valid() && Mirrors(lru.Order(), lruMap, items) && size == Total(items)
      requires Listed(db, order, 0, items) && Enumerates(order, db.Keys)
      modifies this`size, this`lruMap, this`items, lru, lru.Nodes()
      ensures lru.Valid() && Mirrors(lru.Order(), lruMap, items) && size == Total(items)
      ensures Listed(db, order, |order|, items) && fresh(lru.Nodes() - old(lru.Nodes()))
    {
      hide Total, Mirrors, Listed, List.Valid, Enumerates;
      var k := 0;
      while k < |order|
        invariant 0 <= k <= |order| && lru.Valid() && fresh(lru.Nodes() - old(lru.Nodes()))
        invariant Mirrors(lru.Order(), lruMap, items) && size == Total(items) && Listed(db, order, k, items)
      {
        var h := order[k];
        ListedNext(db, order, k, items);
        Link(h, db[h]);
        k := k + 1;
      }
    }

    method Get(h: Hash) returns (val: seq<byte>, ok: bool)
      requires Valid()
      modifies this`items, lru, lru.Nodes()
      ensures Valid() && lru.Nodes() == old(lru.Nodes())
      ensures ok <==> Holds(old(items), h)
      ensures ok ==> Item(h, val) in old(items)
      ensures items == Step(old(items), CacheSpec.Get(h), maxSize)
    {
      hide Total, Backs, Mirrors, List.Valid;
      Locate(lru.Order(), lruMap, items, h);
      if h !in lruMap { return [], false; }
      ghost var i := Position(items, h);
      TotalTouch(items, i);
      lru.MoveToFront(lruMap[h], i);
      assert lru.Order() == Touch(old(lru.Order()), i);
      TouchMirrors(old(lru.Order()), lruMap, items, i);
      TouchBacks(db, pendingPut, pendingDel, items, i);
      ValueOf(db, pendingPut, pendingDel, items, i);
      items := Touch(items, i);
      val := if h in pendingPut then pendingPut[h] else db[h];
      ok := true;
    }

    method Put(h: Hash, v: seq<byte>) returns (err: PutError)
      requires Valid()
      modifies this, lru, lru.Nodes()
      ensures Valid() && fresh(lru.Nodes() - old(lru.Nodes()))
      ensures items == PutItem(old(items), h, v, maxSize).items
      ensures err == TooLarge <==> !PutItem(old(items), h, v, maxSize).ok
      ensures err == DbError ==> !Holds(old(items), h)
    {
      hide Total, Backs, Mirrors, List.Valid;
      Locate(lru.Order(), lruMap, items, h);
      if h in lruMap { return Stored; }
      while size + |v| > maxSize
        invariant Valid() && lru.Nodes() <= old(lru.Nodes())
        invariant items <= old(items) && Evict(items, |v|, maxSize) == Evict(old(items), |v|, maxSize)
        decreases |items|
      {
        EmptyRing(lru.Order(), lruMap, items);
        if lru.len == 0 { return TooLarge; }
        EvictOne();
      }
      StillAbsent(old(items), items, h);
      Insert(h, v);
      if |pendingDel| > 10000 || |pendingPut| > 10000 {
        var ok := FlushPending();
        return if ok then Stored else DbError;
      }
      return Stored;
    }

    /** Drop the least recently used entry. */
    method EvictOne()
      requires Valid() && items != []
      modifies this`size, this`lruMap, this`pendingPut, this`pendingDel, this`items, lru, lru.Nodes()
      ensures Valid() && items == old(items)[..|old(items)| - 1] && lru.Nodes() <= old(lru.Nodes())
    {
      hide Total, Backs, Mirrors, List.Valid;
      EmptyRing(lru.Order(), lruMap, items);
      ghost var n := |items| - 1;
      EvictMirrors(lru.Order(), lruMap, items);
      BacksEvict(db, pendingPut, pendingDel, items);
      LastItem(lru.Order(), lruMap, items);
      var e := lru.Back();
      assert lru.Order()[..n] + lru.Order()[n + 1..] == lru.Order()[..n];
      lru.Remove(e, n);
      size := size - e.size;
      lruMap := lruMap - {e.hash};
      pendingPut := pendingPut - {e.hash};
      pendingDel := pendingDel + {e.hash};
      items := items[..n];
    }

    /** Put a new entry in front. */
    method Insert(h: Hash, v: seq<byte>)
      requires Valid() && !Holds(items, h)
      modifies this`size, this`lruMap, this`pendingPut, this`pendingDel, this`items, lru, lru.Nodes()
      ensures Valid() && items == [Item(h, v)] + old(items)
      ensures fresh(lru.Nodes() - old(lru.Nodes()))
    {
      hide Total, Backs, Mirrors, List.Valid;
      BacksPush(db, pendingPut, pendingDel, items, h, v);
      Link(h, v);
      pendingPut := pendingPut[h := v];
      pendingDel := pendingDel - {h};
    }

    /** Put a new entry in front of the ring and into the map. */
    method Link(h: Hash, v: seq<byte>)
      requires lru.Valid() && Mirrors(lru.Order(), lruMap, items) && size == Total(items) && !Holds(items, h)
      modifies this`size, this`lruMap, this`items, lru, lru.Nodes()
      ensures lru.Valid() && Mirrors(lru.Order(), lruMap, items) && size == Total(items)
      ensures items == [Item(h, v)] + old(items)
      ensures fresh(lru.Nodes() - old(lru.Nodes()))
    {
      hide Total, Mirrors;
      TotalPush(Item(h, v), items);
      size := size + |v|;
      var e := lru.PushFront(h, |v|);
      PushMirrors(e, old(lru.Order()), lruMap, items, h, v);
      lruMap := lruMap[h := e];
      items := [Item(h, v)] + items;
    }

    /** Write the pending changes in one transaction, which may fail as a whole. */
    method FlushPending() returns (ok: bool)
      requires Valid()
      modifies this`db, this`pendingPut, this`pendingDel
      ensures Valid()
      ensures ok ==> Contents(db, items) && pendingPut == map[] && pendingDel == {}
      ensures !ok ==> db == old(db) && pendingPut == old(pendingPut) && pendingDel == old(pendingDel)
    {
      hide Total, Backs, Mirrors, Contents;
      ok := *;
      if ok {
        FlushBacks(db, pendingPut, pendingDel, items);
        db := (db + pendingPut) - pendingDel;
        pendingPut, pendingDel := map[], {};
      }
    }

    method Close() returns (ok: bool)
      requires Valid()
      modifies this`db, this`pendingPut, this`pendingDel
      ensures Valid() && (ok ==> Contents(db, items))
    {
      ok := FlushPending();
    }
  }

  lemma NoItems(order: seq<Ent>)
    ensures order == [] ==> Mirrors(order, map[], [])
    ensures Total([]) == 0
  {
  }

  /** `items` are the first `k` keys of the listing, last one first. */
  ghost predicate Listed(db: Chunks, order: seq<Hash>, k: nat, items: Items) {
    && k <= |order| && |items| == k
    && (forall i | 0 <= i < k :: items[i].hash == order[k - 1 - i])
    && forall it <- items :: it.hash in db && it.val == db[it.hash]
  }

  lemma ListedFromDb(db: Chunks, order: seq<Hash>, items: Items)
    requires Listed(db, order, |order|, items) && Enumerates(order, db.Keys)
    ensures (forall h <- order :: h in db) && items == FromDb(db, order)
  {
    hide FromDb;
    var n := |order|;
    assert forall h <- order :: h in db;
    FromDbLen(db, order);
    forall i | 0 <= i < n ensures items[i] == FromDb(db, order)[i] {
      FromDbAt(db, order, i);
      assert items[i] in items;
    }
  }

  lemma NoneListed(db: Chunks, order: seq<Hash>)
    ensures Listed(db, order, 0, [])
  {
  }

  lemma ListedNext(db: Chunks, order: seq<Hash>, k: nat, items: Items)
    requires Listed(db, order, k, items) && k < |order| && Enumerates(order, db.Keys)
    ensures var h := order[k];
            h in db && !Holds(items, h) && Listed(db, order, k + 1, [Item(h, db[h])] + items)
  {
    var h := order[k];
    assert h in order && h in db.Keys;
    forall it <- items ensures it.hash != h {
      var i :| 0 <= i < |items| && items[i] == it;
      assert order[k - 1 - i] == it.hash;
    }
  }

  lemma AllListed(db: Chunks, order: seq<Hash>, items: Items)
    requires Enumerates(order, db.Keys) && Listed(db, order, |order|, items)
    ensures Contents(db, items) && Backs(db, map[], {}, items)
  {
    forall h <- order ensures h in Hashes(items) {
      var j :| 0 <= j < |order| && order[j] == h;
      assert items[|order| - 1 - j] in items;
    }
  }

  lemma EmptyRing(order: seq<Ent>, lruMap: map<Hash, Ent>, items: Items)
    requires Mirrors(order, lruMap, items)
    ensures |order| == |items| && Distinct(items)
  {
  }

  lemma LastItem(order: seq<Ent>, lruMap: map<Hash, Ent>, items: Items)
    requires Mirrors(order, lruMap, items) && items != []
    ensures |order| == |items|
    ensures order[|items| - 1].hash == items[|items| - 1].hash
    ensures Total(items) == Total(items[..|items| - 1]) + order[|items| - 1].size
  {
  }

  lemma EvictMirrors(order: seq<Ent>, lruMap: map<Hash, Ent>, items: Items)
    requires Mirrors(order, lruMap, items) && items != []
    ensures |order| == |items|
    ensures Mirrors(order[..|items| - 1], lruMap - {items[|items| - 1].hash}, items[..|items| - 1])
  {
    hide Hashes;
    HashesInit(items);
  }

  lemma PushMirrors(e: Ent, order: seq<Ent>, lruMap: map<Hash, Ent>, items: Items, h: Hash, v: seq<byte>)
    requires Mirrors(order, lruMap, items) && !Holds(items, h) && e.hash == h && e.size == |v|
    ensures Mirrors([e] + order, lruMap[h := e], [Item(h, v)] + items)
  {
    hide Hashes;
    HashesPush(items, Item(h, v));
    forall i | 0 <= i < |items| ensures items[i].hash != h { assert items[i] in items; }
  }

  lemma StillAbsent(items: Items, kept: Items, h: Hash)
    requires !Holds(items, h) && kept <= items
    ensures !Holds(kept, h)
  {
  }

  lemma TouchMirrors(order: seq<Ent>, lruMap: map<Hash, Ent>, items: Items, i: nat)
    requires Mirrors(order, lruMap, items) && i < |items|
    ensures Mirrors(Touch(order, i), lruMap, Touch(items, i))
  {
    hide Hashes, Distinct, Touch, Total;
    TouchSame(items, i);
    TouchKeeps(items, i);
    var o', t := Touch(order, i), Touch(items, i);
    forall k | 0 <= k < |items|
      ensures o'[k].hash == t[k].hash && o'[k].size == |t[k].val| && t[k].hash in lruMap && lruMap[t[k].hash] == o'[k]
    {
      TouchAt(order, i, k);
      TouchAt(items, i, k);
    }
  }

  /** The map leads to the ring entry of a hash. */
  lemma Locate(order: seq<Ent>, lruMap: map<Hash, Ent>, items: Items, h: Hash)
    requires Mirrors(order, lruMap, items)
    ensures h in lruMap <==> Holds(items, h)
    ensures Holds(items, h) ==> |order| == |items| && lruMap[h] == order[Position(items, h)]
  {
    assert h in Hashes(items) <==> Holds(items, h);
  }

  lemma TouchBacks(db: Chunks, put: Chunks, del: set<Hash>, items: Items, i: nat)
    requires Backs(db, put, del, items) && i < |items|
    ensures Backs(db, put, del, Touch(items, i))
  {
    TouchSame(items, i);
  }

  lemma ValueOf(db: Chunks, put: Chunks, del: set<Hash>, items: Items, i: nat)
    requires Backs(db, put, del, items) && i < |items|
    ensures items[i].hash in put || items[i].hash in db
    ensures items[i].val == if items[i].hash in put then put[items[i].hash] else db[items[i].hash]
  {
    assert items[i] in items;
  }
}
