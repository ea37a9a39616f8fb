/** What the chunk cache is for: a map in order of use, most recent first, with a byte budget. */
module CacheSpec {
  import opened Bytes
  import opened ChunkStore

  datatype Item = Item(hash: Hash, val: seq<byte>)
  type Items = seq<Item>

  function Total(items: Items): nat {
    if items == [] then 0 else Total(items[..|items| - 1]) + |items[|items| - 1].val|
  }

  predicate Holds(items: Items, h: Hash) {
    exists it <- items :: it.hash == h
  }

  ghost predicate Distinct(items: Items) {
    forall i, j | 0 <= i < j < |items| :: items[i].hash != items[j].hash
  }

  function Hashes(items: Items): set<Hash> {
    set it <- items :: it.hash
  }

  /** Bring the element at `i` to the front. */
  function Touch<T>(s: seq<T>, i: nat): (t: seq<T>)
    requires i < |s|
    ensures |t| == |s|
  {
    [s[i]] + (s[..i] + s[i + 1..])
  }

  lemma TouchAt<T>(s: seq<T>, i: nat, k: nat)
    requires i < |s| && k < |s|
    ensures Touch(s, i)[k] == s[if k == 0 then i else if k <= i then k - 1 else k]
  {
  }

  /** Drop the least recently used items until `need` more bytes fit, or nothing is left. */
  function Evict(items: Items, need: nat, max: nat): Items {
    if items != [] && Total(items) + need > max then Evict(items[..|items| - 1], need, max) else items
  }

  datatype PutResult = PutResult(items: Items, ok: bool)

  /** A hash that is held keeps its value and its place. A value that cannot fit at all is refused,
      after everything has been evicted for it. */
  function PutItem(items: Items, h: Hash, v: seq<byte>, max: nat): PutResult {
    if Holds(items, h) then PutResult(items, true)
    else
      var kept := Evict(items, |v|, max);
      if Total(kept) + |v| > max then PutResult(kept, false) else PutResult([Item(h, v)] + kept, true)
  }

  /** A put of two bytes into a cache for one byte: refused, and the byte that was held is gone. */
  lemma PutEmpties(h: Hash, h': Hash)
    requires h != h'
    ensures PutItem([Item(h, [1])], h', [1, 2], 1) == PutResult([], false)
  {
    var items := [Item(h, [1])];
    assert items[..0] == [] && Total(items) == 1;
    assert Evict(items, 2, 1) == Evict([], 2, 1) == [];
    assert !Holds(items, h');
  }

  // ---------------------------------------------------------------- eviction

  /** Eviction keeps the longest run of most recently used items that leaves room. */
  lemma {:induction false} EvictLongest(items: Items, need: nat, max: nat)
    ensures var kept := Evict(items, need, max);
            && kept <= items
            && (Total(kept) + need <= max || kept == [])
            && forall k | |kept| < k <= |items| :: Total(items[..k]) + need > max
  {
    assert items[..|items|] == items;
    if items != [] && Total(items) + need > max {
      var init := items[..|items| - 1];
      EvictLongest(init, need, max);
      forall k | |Evict(init, need, max)| < k <= |items| ensures Total(items[..k]) + need > max {
        assert k < |items| ==> items[..k] == init[..k];
      }
    }
  }

  /** Put fails exactly when a new value is larger than the whole budget, and then empties the
      cache; otherwise the new item comes first and the budget is met. */
  lemma PutSpec(items: Items, h: Hash, v: seq<byte>, max: nat)
    ensures var r := PutItem(items, h, v, max);
            && (!r.ok <==> !Holds(items, h) && |v| > max)
            && (!r.ok ==> r.items == [])
            && (r.ok && !Holds(items, h) ==> r.items[0] == Item(h, v) && Total(r.items) <= max)
  {
    EvictLongest(items, |v|, max);
    var kept := Evict(items, |v|, max);
    TotalPush(Item(h, v), kept);
  }

  lemma {:induction false} TotalPush(it: Item, items: Items)
    ensures Total([it] + items) == |it.val| + Total(items)
  {
    var all := [it] + items;
    if items == [] {
      assert all[..|all| - 1] == [];
    } else {
      TotalPush(it, items[..|items| - 1]);
      assert all[..|all| - 1] == [it] + items[..|items| - 1];
    }
  }

  lemma {:induction false} TotalRemove(items: Items, i: nat)
    requires i < |items|
    ensures Total(items[..i] + items[i + 1..]) + |items[i].val| == Total(items)
  {
    var last := |items| - 1;
    var rest := items[..i] + items[i + 1..];
    if i == last {
      assert rest == items[..last];
    } else {
      TotalRemove(items[..last], i);
      assert rest[..|rest| - 1] == items[..last][..i] + items[..last][i + 1..];
      assert rest[|rest| - 1] == items[last];
    }
  }

  lemma TotalTouch(items: Items, i: nat)
    requires i < |items|
    ensures Total(Touch(items, i)) == Total(items)
  {
    TotalRemove(items, i);
    TotalPush(items[i], items[..i] + items[i + 1..]);
  }

  // ---------------------------------------------------------------- reopening

  /** `order` lists each key once. */
  ghost predicate Enumerates(order: seq<Hash>, keys: set<Hash>) {
    && (forall i, j | 0 <= i < j < |order| :: order[i] != order[j])
    && keys == set h <- order
  }

  /** What a cache holds when opened on a database that lists its keys in that order: the last one
      listed counts as the most recently used. */
  function FromDb(db: Chunks, order: seq<Hash>): Items
    requires forall h <- order :: h in db
  {
    if order == [] then []
    else
      var n := |order| - 1;
      [Item(order[n], db[order[n]])] + FromDb(db, order[..n])
  }

  /** The items as a database. */
  function AsDb(items: Items): (db: Chunks)
    ensures db.Keys == Hashes(items)
  {
    if items == [] then map[]
    else
      assert items == [items[0]] + items[1..];
      AsDb(items[1..])[items[0].hash := items[0].val]
  }

  /** The items after closing and opening again. */
  ghost function Relist(items: Items, order: seq<Hash>): Items {
    if Enumerates(order, Hashes(items)) then FromDb(AsDb(items), order) else items
  }

  lemma {:induction false} AsDbAt(items: Items, it: Item)
    requires Distinct(items) && it in items
    ensures it.hash in AsDb(items) && AsDb(items)[it.hash] == it.val
  {
    hide Distinct;
    if it != items[0] {
      TailItem(items, it);
      AsDbAt(items[1..], it);
    }
  }

  lemma TailItem(items: Items, it: Item)
    requires Distinct(items) && it in items && it != items[0]
    ensures Distinct(items[1..]) && it in items[1..] && it.hash != items[0].hash
  {
    var k :| 0 <= k < |items| && items[k] == it;
    assert items[1..][k - 1] == it && items[0].hash != items[k].hash;
  }

  lemma {:induction false} FromDbAt(db: Chunks, order: seq<Hash>, i: nat)
    requires (forall h <- order :: h in db) && i < |order|
    ensures |FromDb(db, order)| == |order|
    ensures var h := order[|order| - 1 - i]; FromDb(db, order)[i] == Item(h, db[h])
  {
    var n := |order| - 1;
    if i > 0 {
      FromDbAt(db, order[..n], i - 1);
    } else {
      FromDbLen(db, order[..n]);
    }
  }

  lemma {:induction false} FromDbLen(db: Chunks, order: seq<Hash>)
    requires forall h <- order :: h in db
    ensures |FromDb(db, order)| == |order|
  {
    if order != [] { FromDbLen(db, order[..|order| - 1]); }
  }

  lemma FromDbItems(db: Chunks, order: seq<Hash>)
    requires Enumerates(order, db.Keys)
    ensures var items := FromDb(db, order);
      && Distinct(items) && Hashes(items) == db.Keys
      && forall it :: it in items <==> it.hash in db && db[it.hash] == it.val
  {
    hide FromDb;
    var items, n := FromDb(db, order), |order|;
    assert forall h <- order :: h in db;
    FromDbLen(db, order);
    forall i | 0 <= i < n ensures items[i] == Item(order[n - 1 - i], db[order[n - 1 - i]]) { FromDbAt(db, order, i); }
    forall it ensures it in items <==> it.hash in db && db[it.hash] == it.val { FromDbHas(db, order, it); }
    forall h <- db.Keys ensures h in Hashes(items) { assert Item(h, db[h]) in items; }
  }

  lemma FromDbHas(db: Chunks, order: seq<Hash>, it: Item)
    requires Enumerates(order, db.Keys) && forall h <- order :: h in db
    ensures it in FromDb(db, order) <==> it.hash in db && db[it.hash] == it.val
  {
    hide FromDb;
    var items, n := FromDb(db, order), |order|;
    FromDbLen(db, order);
    if it in items {
      var i :| 0 <= i < n && items[i] == it;
      FromDbAt(db, order, i);
    }
    if it.hash in db && db[it.hash] == it.val {
      var k :| 0 <= k < n && order[k] == it.hash;
      FromDbAt(db, order, n - 1 - k);
      assert items[n - 1 - k] in items;
    }
  }

  /** Reopening keeps exactly the items and loses only their order. */
  lemma RelistSame(items: Items, order: seq<Hash>)
    requires Distinct(items)
    ensures Distinct(Relist(items, order)) && forall it :: it in Relist(items, order) <==> it in items
  {
    hide FromDb, AsDb, Distinct, Enumerates;
    if Enumerates(order, Hashes(items)) {
      var db := AsDb(items);
      FromDbItems(db, order);
      forall it ensures it in items <==> it.hash in db && db[it.hash] == it.val {
        if it in items { AsDbAt(items, it); }
        if it.hash in db && db[it.hash] == it.val { OnlyItem(items, it); }
      }
    }
  }

  lemma OnlyItem(items: Items, it: Item)
    requires Distinct(items) && it.hash in AsDb(items) && AsDb(items)[it.hash] == it.val
    ensures it in items
  {
    hide AsDb;
    var jt :| jt in items && jt.hash == it.hash;
    AsDbAt(items, jt);
  }

  /** Items listed in another order take the same room. */
  lemma {:induction false} TotalSame(a: Items, b: Items)
    requires Distinct(a) && Distinct(b) && forall it :: it in a <==> it in b
    ensures Total(a) == Total(b)
    decreases |a|
  {
    hide Total;
    FirstIn(b);
    if a != [] {
      var n := |a| - 1;
      assert a[n] in b;
      var k :| 0 <= k < |b| && b[k] == a[n];
      var a', b' := a[..n], b[..k] + b[k + 1..];
      DropSame(a, b, k);
      TotalSame(a', b');
      TotalRemove(b, k);
      TotalInit(a);
    }
  }

  lemma FirstIn(b: Items)
    ensures b != [] ==> b[0] in b
  {
  }

  lemma TotalInit(a: Items)
    requires a != []
    ensures Total(a) == Total(a[..|a| - 1]) + |a[|a| - 1].val|
  {
  }

  lemma DropSame(a: Items, b: Items, k: nat)
    requires Distinct(a) && Distinct(b) && a != [] && k < |b| && b[k] == a[|a| - 1]
    requires forall it :: it in a <==> it in b
    ensures var a', b' := a[..|a| - 1], b[..k] + b[k + 1..];
      Distinct(a') && Distinct(b') && forall it :: it in a' <==> it in b'
  {
    hide Distinct;
    var n := |a| - 1;
    DropItem(a, n);
    DropItem(b, k);
    assert a[..n] + a[n + 1..] == a[..n];
  }

  lemma DropItem(a: Items, k: nat)
    requires Distinct(a) && k < |a|
    ensures var d := a[..k] + a[k + 1..]; Distinct(d) && forall it :: it in d <==> it in a && it != a[k]
  {
    var d := a[..k] + a[k + 1..];
    assert forall i | 0 <= i < |d| :: d[i] == a[if i < k then i else i + 1];
    forall it ensures it in d <==> it in a && it != a[k] {
      if it in a && it != a[k] {
        var i :| 0 <= i < |a| && a[i] == it;
        assert d[if i < k then i else i - 1] == it;
      }
    }
  }

  // ---------------------------------------------------------------- whole runs

  /** `Reopen`: close, and open again on a database that lists its keys in that order. */
  datatype Op = Get(h: Hash) | Put(h: Hash, v: seq<byte>) | Flush | Reopen(order: seq<Hash>)

  ghost function Step(items: Items, op: Op, max: nat): Items {
    match op
    case Get(h) => if Holds(items, h) then Touch(items, Position(items, h)) else items
    case Put(h, v) => PutItem(items, h, v, max).items
    case Flush => items
    case Reopen(order) => Relist(items, order)
  }

  function Position(items: Items, h: Hash): (i: nat)
    requires Holds(items, h)
    ensures i < |items| && items[i].hash == h && forall j | 0 <= j < i :: items[j].hash != h
  {
    if items[0].hash == h then 0
    else
      assert Holds(items[1..], h) by {
        var it :| it in items && it.hash == h;
        assert items == [items[0]] + items[1..];
      }
      1 + Position(items[1..], h)
  }

  /** What is held after a run that began with `start`. */
  ghost function Run(start: Items, ops: seq<Op>, max: nat): Items {
    if ops == [] then start else Step(Run(start, ops[..|ops| - 1], max), ops[|ops| - 1], max)
  }

  lemma RunNone(start: Items, ops: seq<Op>, max: nat)
    ensures Run(start, ops[..0], max) == start
  {
  }

  lemma RunSnoc(start: Items, ops: seq<Op>, i: nat, max: nat)
    requires i < |ops|
    ensures Run(start, ops[..i + 1], max) == Step(Run(start, ops[..i], max), ops[i], max)
  {
    hide Step;
    assert ops[..i + 1][..i] == ops[..i];
  }

  /** Where a held item comes from: it was there at the start, or `ops[i - 1]` put it while its hash was
      not held. */
  ghost predicate Entered(start: Items, ops: seq<Op>, max: nat, it: Item, i: nat)
    requires i <= |ops|
  {
    if i == 0 then it in start
    else ops[i - 1] == Put(it.hash, it.val) && !Holds(Run(start, ops[..i - 1], max), it.hash)
  }

  /** After every run, each item held was put by the last put made while its hash was absent, or was
      there from the start; since then it has been held without a break. */
  lemma {:induction false} RunKeeps(start: Items, ops: seq<Op>, max: nat, it: Item) returns (i: nat)
    requires Distinct(start) && it in Run(start, ops, max)
    ensures i <= |ops| && Entered(start, ops, max, it, i)
    ensures forall j | i <= j <= |ops| :: it in Run(start, ops[..j], max)
    decreases |ops|
  {
    hide Step;
    var n := |ops| - 1;
    assert ops[..|ops|] == ops;
    i := 0;
    if ops != [] {
      var before, op := Run(start, ops[..n], max), ops[n];
      RunDistinct(start, ops[..n], max);
      StepKeeps(before, op, max, it);
      if it in before {
        i := RunKeeps(start, ops[..n], max, it);
        assert forall j | 0 <= j <= n :: ops[..n][..j] == ops[..j];
        assert i > 0 ==> ops[..n][i - 1] == ops[i - 1];
      } else {
        i := |ops|;
      }
    }
  }

  lemma {:induction false} RunDistinct(start: Items, ops: seq<Op>, max: nat)
    requires Distinct(start)
    ensures Distinct(Run(start, ops, max))
  {
    if ops != [] {
      hide Step;
      RunDistinct(start, ops[..|ops| - 1], max);
      StepDistinct(Run(start, ops[..|ops| - 1], max), ops[|ops| - 1], max);
    }
  }

  /** A put of a hash that is not held, whether or not it succeeds. */
  ghost predicate Effective(items: Items, op: Op) {
    op.Put? && !Holds(items, op.h)
  }

  /** Some put of the run was of a hash not held at the time. */
  ghost predicate SomePut(start: Items, ops: seq<Op>, max: nat) {
    exists i | 0 <= i < |ops| :: Effective(Run(start, ops[..i], max), ops[i])
  }

  /** The budget is met after a run if and only if it was met at the start or some put was of a hash not
      held at the time. */
  lemma {:induction false} BudgetIff(start: Items, ops: seq<Op>, max: nat)
    requires Distinct(start)
    ensures Total(Run(start, ops, max)) <= max <==> Total(start) <= max || SomePut(start, ops, max)
    decreases |ops|
  {
    hide Step, Total, Effective, SomePut, Distinct;
    if ops == [] {
      NoPut(start, max);
    } else {
      var init := ops[..|ops| - 1];
      BudgetIff(start, init, max);
      RunDistinct(start, init, max);
      StepTotal(Run(start, init, max), ops[|ops| - 1], max);
      SomePutSnoc(start, ops, max);
    }
  }

  /** A cache for one byte opened on two: putting the hash it holds does not bring it within budget. */
  lemma StaysOver(h: Hash)
    ensures Total(Run([Item(h, [1, 2])], [Put(h, [3])], 1)) == 2
  {
    var start, op: Op := [Item(h, [1, 2])], Put(h, [3]);
    assert start[0] in start && start[..0] == [];
    RunNone(start, [op], 1);
    RunSnoc(start, [op], 0, 1);
    assert [op][..1] == [op];
  }

  lemma NoPut(start: Items, max: nat)
    ensures !SomePut(start, [], max)
  {
  }

  lemma SomePutSnoc(start: Items, ops: seq<Op>, max: nat)
    requires ops != []
    ensures var n := |ops| - 1;
      SomePut(start, ops, max) <==> SomePut(start, ops[..n], max) || Effective(Run(start, ops[..n], max), ops[n])
  {
    hide Run, Effective;
    var n := |ops| - 1;
    var init := ops[..n];
    assert forall i | 0 <= i < n :: init[..i] == ops[..i] && init[i] == ops[i];
    if SomePut(start, init, max) {
      var i :| 0 <= i < n && Effective(Run(start, init[..i], max), init[i]);
      assert Effective(Run(start, ops[..i], max), ops[i]);
    }
    if SomePut(start, ops, max) {
      var i :| 0 <= i < |ops| && Effective(Run(start, ops[..i], max), ops[i]);
      assert i < n ==> Effective(Run(start, init[..i], max), init[i]);
    }
  }

  lemma StepTotal(items: Items, op: Op, max: nat)
    requires Distinct(items)
    ensures var after := Total(Step(items, op, max));
      if Effective(items, op) then after <= max else after == Total(items)
  {
    hide Total, Evict, Touch, Relist;
    match op
    case Get(h) => if Holds(items, h) { TotalTouch(items, Position(items, h)); }
    case Put(h, v) => PutSpec(items, h, v, max); NoTotal();
    case Flush =>
    case Reopen(order) => RelistSame(items, order); TotalSame(items, Relist(items, order));
  }

  lemma StepDistinct(items: Items, op: Op, max: nat)
    requires Distinct(items)
    ensures Distinct(Step(items, op, max))
  {
    hide Total, Evict, Touch, Relist;
    match op
    case Get(h) => if Holds(items, h) { TouchKeeps(items, Position(items, h)); }
    case Put(h, v) => PutKeeps(items, h, v, max);
    case Flush =>
    case Reopen(order) => RelistSame(items, order);
  }

  /** An item held after an operation was held before, or this put it while its hash was not held. */
  lemma StepKeeps(items: Items, op: Op, max: nat, it: Item)
    requires Distinct(items) && it in Step(items, op, max)
    ensures it in items || (op == Put(it.hash, it.val) && !Holds(items, it.hash))
  {
    hide Total, Evict, Touch, Relist;
    match op
    case Get(h) => if Holds(items, h) { TouchKeeps(items, Position(items, h)); }
    case Put(h, v) => PutKeeps(items, h, v, max);
    case Flush =>
    case Reopen(order) => RelistSame(items, order);
  }

  lemma TouchKeeps(items: Items, i: nat)
    requires Distinct(items) && i < |items|
    ensures Distinct(Touch(items, i)) && Total(Touch(items, i)) == Total(items)
    ensures forall it <- Touch(items, i) :: it in items
  {
    hide Total, Touch;
    TotalTouch(items, i);
    var t := Touch(items, i);
    forall a, b | 0 <= a < b < |t| ensures t[a].hash != t[b].hash {
      TouchAt(items, i, a);
      TouchAt(items, i, b);
    }
    forall it <- t ensures it in items {
      var k :| 0 <= k < |t| && t[k] == it;
      TouchAt(items, i, k);
    }
  }

  lemma PutKeeps(items: Items, h: Hash, v: seq<byte>, max: nat)
    requires Distinct(items)
    ensures var r := PutItem(items, h, v, max).items;
            Distinct(r) && forall it <- r :: it in items || (it == Item(h, v) && !Holds(items, h))
  {
    hide Total, Evict;
    EvictLongest(items, |v|, max);
    PutSpec(items, h, v, max);
    NoTotal();
    var kept := Evict(items, |v|, max);
    assert forall i | 0 <= i < |kept| :: kept[i] == items[i] && items[i] in items;
  }

  lemma NoTotal()
    ensures Total([]) == 0
  {
  }

  /** A value stays what it was put as for as long as its hash is held. */
  lemma StepStable(items: Items, op: Op, max: nat, it: Item)
    requires Distinct(items) && it in items && Holds(Step(items, op, max), it.hash)
    ensures it in Step(items, op, max)
  {
    hide Step;
    var jt :| jt in Step(items, op, max) && jt.hash == it.hash;
    StepKeeps(items, op, max, jt);
    SameHash(items, it, jt);
  }

  lemma SameHash(items: Items, it: Item, jt: Item)
    requires Distinct(items) && it in items && it.hash == jt.hash
    ensures jt in items ==> jt == it
    ensures Holds(items, jt.hash)
  {
  }

  // ---------------------------------------------------------------- answers

  /** `Unflushed`: the operation was done, but writing to the database failed. */
  datatype Answer = Hit(val: seq<byte>) | Miss | Refused | Done | Unflushed

  /** What the specification answers. */
  ghost function Reply(items: Items, op: Op, max: nat): Answer {
    match op
    case Get(h) => if Holds(items, h) then Hit(items[Position(items, h)].val) else Miss
    case Put(h, v) => if PutItem(items, h, v, max).ok then Done else Refused
    case Flush => Done
    case Reopen(_) => Done
  }

  /** An answer a real cache may give: the specification's, but that an explicit flush, and a put of a
      hash that is not held, may also report that the database was not written. */
  ghost predicate Answers(ans: Answer, items: Items, op: Op, max: nat) {
    var reply := Reply(items, op, max);
    ans == reply || (ans == Unflushed && reply == Done && (op.Flush? || Effective(items, op)))
  }

  /** The database lists its keys, each once. */
  ghost predicate Fair(items: Items, op: Op) {
    op.Reopen? ==> Enumerates(op.order, Hashes(items))
  }
}
