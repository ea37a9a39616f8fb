/** Whole runs of the chunk cache, closing and reopening included, against its specification. */
module CacheRun {
  import opened Bytes
  import opened ChunkStore
  import opened CacheSpec
  import opened Cache

  lemma ContentsDb(db: Chunks, items: Items)
    requires Contents(db, items) && Distinct(items)
    ensures db == AsDb(items)
  {
    hide AsDb;
    forall h <- db ensures AsDb(items)[h] == db[h] {
      var it :| it in items && it.hash == h;
      AsDbAt(items, it);
    }
  }

  lemma HeldValue(items: Items, h: Hash, val: seq<byte>)
    requires Distinct(items) && Item(h, val) in items
    ensures Holds(items, h) && items[Position(items, h)].val == val
  {
    SameHash(items, Item(h, val), items[Position(items, h)]);
  }

  lemma ItemsDistinct(c: Cache)
    requires c.Valid()
    ensures Distinct(c.items)
  {
  }

  /** Close the cache and open another on its database. If the last flush fails it stays open. */
  method Restart(c: Cache, order: seq<Hash>) returns (c': Cache, ok: bool)
    requires c.Valid() && Enumerates(order, Hashes(c.items))
    modifies c`db, c`pendingPut, c`pendingDel
    ensures c'.Valid() && c'.maxSize == c.maxSize && c.items == old(c.items)
    ensures if ok then fresh(c') && fresh(c'.lru) && fresh(c'.lru.Nodes()) else c' == c
    ensures ok ==> c'.items == Relist(c.items, order)
  {
    hide Cache.Valid, FromDb, AsDb, Contents, Distinct;
    c' := c;
    ItemsDistinct(c);
    ok := c.Close();
    if !ok { return; }
    ContentsDb(c.db, c.items);
    c' := new Cache(c.db, order, c.maxSize);
  }

  /** One operation. `stopped`: the cache could not be closed. */
  method Apply(c: Cache, op: Op) returns (c': Cache, ans: Answer, stopped: bool)
    requires c.Valid() && Fair(c.items, op)
    modifies c, c.lru, c.lru.Nodes()
    ensures c'.Valid() && c'.maxSize == c.maxSize && (stopped ==> op.Reopen?)
    ensures c' == c || (fresh(c') && fresh(c'.lru))
    ensures fresh(c'.lru.Nodes() - old(c.lru.Nodes()))
    ensures !stopped ==> c'.items == Step(old(c.items), op, c.maxSize) && Answers(ans, old(c.items), op, c.maxSize)
    ensures stopped ==> c'.items == old(c.items)
  {
    hide Cache.Valid, Relist, PutItem, Touch, Distinct;
    c', ans, stopped := c, Done, false;
    ItemsDistinct(c);
    match op
    case Get(h) =>
      ghost var before := c.items;
      var val, ok := c.Get(h);
      ans := if ok then Hit(val) else Miss;
      if ok { HeldValue(before, h, val); }
    case Put(h, v) =>
      var err := c.Put(h, v);
      ans := match err case Stored => Done case TooLarge => Refused case DbError => Unflushed;
    case Flush =>
      var flushed := c.FlushPending();
      ans := if flushed then Done else Unflushed;
    case Reopen(order) =>
      var ok;
      c', ok := Restart(c, order);
      stopped := !ok;
  }

  /** Every answer of every run on a real cache, from any database it is opened on, is the
      specification's or reports a failed flush, however often it is flushed, closed and reopened; and
      a failed flush changes no later answer. The run ends early only if the cache cannot be closed. */
  method Run(db: Chunks, order: seq<Hash>, max: nat, ops: seq<Op>) returns (c: Cache, answers: seq<Answer>)
    requires Enumerates(order, db.Keys) && forall h <- order :: h in db
    requires forall i | 0 <= i < |ops| :: Fair(CacheSpec.Run(FromDb(db, order), ops[..i], max), ops[i])
    ensures c.Valid() && |answers| <= |ops| && (|answers| < |ops| ==> ops[|answers|].Reopen?)
    ensures c.items == CacheSpec.Run(FromDb(db, order), ops[..|answers|], max)
    ensures forall i | 0 <= i < |answers| ::
      Answers(answers[i], CacheSpec.Run(FromDb(db, order), ops[..i], max), ops[i], max)
  {
    hide Cache.Valid, FromDb, CacheSpec.Run, Step, Answers, Fair, Contents, Enumerates;
    ghost var start := FromDb(db, order);
    c := new Cache(db, order, max);
    answers := [];
    RunNone(start, ops, max);
    var i := 0;
    while i < |ops|
      invariant 0 <= i == |answers| <= |ops| && c.Valid() && c.maxSize == max
      invariant fresh(c) && fresh(c.lru) && fresh(c.lru.Nodes())
      invariant c.items == CacheSpec.Run(start, ops[..i], max)
      invariant forall j | 0 <= j < i :: Answers(answers[j], CacheSpec.Run(start, ops[..j], max), ops[j], max)
    {
      var ans, stopped;
      c, ans, stopped := Apply(c, ops[i]);
      if stopped { return; }
      RunSnoc(start, ops, i, max);
      answers := answers + [ans];
      i := i + 1;
    }
  }
}
