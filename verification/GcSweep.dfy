/**
 The sweep of the garbage collector. Marked values are copied from old packs into new ones; an old
 pack is queued once its marked keys have all been moved, and removed only after the pack being
 written has closed. Every call of the remote and of the local cache may fail, and a call that changes
 the remote may then have had its effect or not.
 */
module GcSweep {
  import opened Bytes
  import opened BPack
  import opened GcRun
  import opened GcState

  const TWO_32: nat := 0x1_0000_0000
  const PACK_LIMIT: nat := 128 * 1024 * 1024
  const SKIP_SIZE: nat := 100 * 1024 * 1024
  const HASH_LEN: nat := 32

  /** The remote's packs. `trace` records every state a crash could leave behind. */
  class Remote {
    var packs: Packs
    ghost var trace: seq<Packs>

    constructor (packs: Packs)
      ensures this.packs == packs && trace == [packs]
    {
      this.packs := packs;
      trace := [packs];
    }

    method ClosePack(n: Name, p: Pack) returns (ok: bool)
      modifies this
      ensures packs == old(packs) || packs == old(packs)[n := p]
      ensures ok ==> packs == old(packs)[n := p]
      ensures trace == old(trace) + [packs]
    {
      var done: bool := *;
      var reported: bool := *;
      if done { packs := packs[n := p]; }
      trace := trace + [packs];
      ok := done && reported;
    }

    method Remove(n: Name) returns (ok: bool)
      modifies this
      ensures packs == old(packs) || packs == old(packs) - {n}
      ensures ok ==> packs == old(packs) - {n}
      ensures trace == old(trace) + [packs]
    {
      var done: bool := *;
      var reported: bool := *;
      if done { packs := packs - {n}; }
      trace := trace + [packs];
      ok := done && reported;
    }
  }

  datatype OpenPack = NoPack | OpenPack(name: Name, es: seq<Entry>)
  datatype Cache = NoCache | Cache(vals: map<Key, seq<byte>>)

  /** The pack that was open, if any, is now a closed one. */
  ghost predicate Published(pack: OpenPack, packs: Packs) {
    pack.OpenPack? ==> pack.name in packs && packs[pack.name].es == pack.es
  }

  /** In each state added to the trace nothing of `before` is missing, or the open pack is closed. */
  ghost predicate ClosedFirst(before: Packs, pack: OpenPack, trace: seq<Packs>, trace': seq<Packs>) {
    && trace <= trace'
    && forall i | |trace| <= i < |trace'| :: before.Keys <= trace'[i].Keys || Published(pack, trace'[i])
  }

  /** What the writer counts against the limit. */
  function Weight(es: seq<Entry>): nat {
    if es == [] then 0 else Weight(es[..|es| - 1]) + HASH_LEN + |es[|es| - 1].val|
  }

  ghost predicate Bounded(es: seq<Entry>) {
    Weight(es) <= PACK_LIMIT && forall e <- es :: |e.val| <= MAX_ENTRY
  }

  lemma {:induction false} WeightValues(es: seq<Entry>)
    ensures |Values(es)| <= Weight(es)
  {
    if es != [] {
      var init, e := es[..|es| - 1], es[|es| - 1];
      WeightValues(init);
      assert es == init + [e];
      IndexAppend(init, e, 0);
    }
  }

  /** A pack the sweep can read: what the store and the collector itself write. */
  ghost predicate PackOk(good: Genuine, p: Pack) {
    && Distinct(p.es) && CopySafe(p.es) && |Values(p.es)| < TWO_32
    && forall e <- p.es :: good(e) && |e.val| <= MAX_ENTRY
  }

  /** Genuine values are never empty; compressed chunks never are. */
  ghost predicate Solid(good: Genuine) {
    forall e: Entry :: good(e) ==> e.val != []
  }

  /** A state a crash may leave: no marked key is lost, and, if genuine values are never empty, every
      pack can be swept again. */
  ghost predicate Fine(good: Genuine, start: Packs, visited: set<Key>, packs: Packs) {
    Safe(good, start, visited, packs) && (Solid(good) ==> forall n <- packs :: PackOk(good, packs[n]))
  }

  /** The packs written so far keep to the limits. */
  ghost predicate NewOk(start: Packs, done: set<Name>, packs: Packs) {
    forall n <- done :: n !in start ==> n in packs && Bounded(packs[n].es)
  }

  lemma InvFine(good: Genuine, s: Sweep)
    requires Inv(good, s) && NewOk(s.start, s.done, s.packs) && forall n <- s.start :: PackOk(good, s.start[n])
    ensures Fine(good, s.start, s.visited, s.packs)
  {
    hide PackOk, Safe, Bounded;
    InvSafe(good, s);
    if Solid(good) {
      forall n <- s.packs ensures PackOk(good, s.packs[n]) {
        if n !in s.start { NewPackOk(good, s, n); }
      }
    }
  }

  lemma NewPackOk(good: Genuine, s: Sweep, n: Name)
    requires Inv(good, s) && Solid(good) && n in s.packs && n in s.done && Bounded(s.packs[n].es)
    ensures PackOk(good, s.packs[n])
  {
    hide Values, Weight;
    var es := s.packs[n].es;
    assert Clean(good, s, es);
    assert forall i | 0 <= i < |es| :: es[i] in es && good(es[i]);
    WeightValues(es);
  }

  ghost predicate AllFine(good: Genuine, start: Packs, visited: set<Key>, trace: seq<Packs>) {
    forall p <- trace :: Fine(good, start, visited, p)
  }

  lemma AllFineSnoc(good: Genuine, start: Packs, visited: set<Key>, trace: seq<Packs>, p: Packs)
    requires AllFine(good, start, visited, trace) && Fine(good, start, visited, p)
    ensures AllFine(good, start, visited, trace + [p])
  {
    hide Fine;
  }

  /** Closing the pack being written. */
  lemma CloseOk(good: Genuine, s: Sweep, n: Name, p: Pack)
    requires Inv(good, s) && NewOk(s.start, s.done, s.packs) && forall m <- s.start :: PackOk(good, s.start[m])
    requires n !in s.packs && n !in s.start && p.es == s.pending && Bounded(p.es)
    ensures var t := s.(packs := s.packs[n := p], done := s.done + {n}, pending := []);
            && Inv(good, t) && NewOk(t.start, t.done, t.packs) && Later(s, t, {})
            && Fine(good, t.start, t.visited, t.packs)
    ensures Fine(good, s.start, s.visited, s.packs)
  {
    hide Inv, PackOk, Fine, Bounded, Later;
    var t := s.(packs := s.packs[n := p], done := s.done + {n}, pending := []);
    InvClose(good, s, n, p.size);
    LaterClose(s, n, p);
    InvFine(good, t);
    InvFine(good, s);
  }

  /** Removing a queued pack. */
  lemma RemoveOk(good: Genuine, s: Sweep, n: Name)
    requires Inv(good, s) && NewOk(s.start, s.done, s.packs) && forall m <- s.start :: PackOk(good, s.start[m])
    requires n in s.queue && s.pending == []
    ensures n in s.start
    ensures var t := s.(packs := s.packs - {n});
            Inv(good, t) && NewOk(t.start, t.done, t.packs) && Fine(good, t.start, t.visited, t.packs)
    ensures Fine(good, s.start, s.visited, s.packs)
  {
    hide Inv, PackOk, Fine, Bounded;
    var t := s.(packs := s.packs - {n});
    QueueListed(good, s);
    InvRemove(good, s, n);
    InvFine(good, t);
    InvFine(good, s);
  }

  /** Listed, and dealt with: kept as a result, queued for removal, or removed. */
  ghost predicate Settled(s: Sweep, n: Name) {
    n in s.done || n in s.queue || n !in s.packs
  }

  /** Listed, and not dealt with. */
  ghost predicate Untouched(s: Sweep, n: Name) {
    n in s.packs && n !in s.queue && n !in s.done
  }

  /** `b` comes later in the same sweep than `a`, with only the listed packs `cur` newly settled. */
  ghost predicate Later(a: Sweep, b: Sweep, cur: set<Name>) {
    && a.start == b.start && a.visited == b.visited && a.moved <= b.moved
    && (forall n <- a.start :: n !in cur && Untouched(a, n) ==> Untouched(b, n))
    && (forall n <- a.start :: Settled(a, n) ==> Settled(b, n))
  }

  lemma LaterTrans(a: Sweep, b: Sweep, c: Sweep, cur: set<Name>)
    requires Later(a, b, cur) && Later(b, c, cur)
    ensures Later(a, c, cur)
  {
  }

  lemma LaterSame(s: Sweep)
    ensures Later(s, s, {})
  {
  }

  lemma LaterClose(s: Sweep, n: Name, p: Pack)
    requires n !in s.start
    ensures Later(s, s.(packs := s.packs[n := p], done := s.done + {n}, pending := []), {})
  {
  }

  lemma LaterPut(s: Sweep, e: Entry)
    ensures Later(s, s.(pending := s.pending + [e], moved := s.moved + {e.key}), {})
  {
  }

  lemma WeightSnoc(es: seq<Entry>, e: Entry)
    ensures Weight(es + [e]) == Weight(es) + HASH_LEN + |e.val|
  {
    assert (es + [e])[..|es|] == es;
  }

  lemma LaterDelete(s: Sweep, packs: Packs)
    requires packs.Keys <= s.packs.Keys
    requires forall n <- s.queue :: n !in packs
    requires forall n <- s.start :: Untouched(s, n) ==> n in packs
    ensures Later(s, s.(packs := packs, queue := {}), {})
  {
  }

  lemma FreshName(used: set<Name>) returns (n: Name)
    ensures n !in used
  {
    n := 0;
    var rest := used;
    while rest != {}
      invariant rest <= used && forall m | m in used && m !in rest :: m < n
      decreases rest
    {
      var m :| m in rest;
      rest := rest - {m};
      n := if m >= n then m + 1 else n;
    }
  }

  class Gc {
    const remote: Remote
    const visited: set<Key>
    var moved: set<Key>
    var canDelete: seq<Name>
    var newPack: OpenPack
    var newPackSize: nat
    var cache: Cache
    ghost const good: Genuine
    const start: Packs            // what the remote listed when the sweep began
    ghost var done: set<Name>

    ghost function State(): Sweep
      reads this, remote
    {
      Sweep(start, visited, remote.packs, moved, (set n <- canDelete), done, if newPack.NoPack? then [] else newPack.es)
    }

    ghost predicate WriterOk()
      reads this`newPack, this`newPackSize, remote
    {
      match newPack
      case NoPack => newPackSize == 0
      case OpenPack(name, es) =>
        && name !in remote.packs && name !in start
        && newPackSize == Weight(es) && Bounded(es)
    }

    ghost predicate NewPacksOk()
      reads this`done, remote
    {
      NewOk(start, done, remote.packs)
    }

    ghost predicate CacheOk()
      reads this`cache
    {
      cache.Cache? ==> forall k <- cache.vals :: good(Entry(k, cache.vals[k]))
    }

    ghost predicate Valid()
      reads this, remote
    {
      && Inv(good, State()) && WriterOk() && NewPacksOk() && CacheOk()
      && forall n <- start :: PackOk(good, start[n])
    }

    /** No state the remote has been in lost a marked key, or holds a pack that cannot be swept. */
    ghost predicate TraceSafe()
      reads remote
    {
      && remote.trace != [] && remote.trace[|remote.trace| - 1] == remote.packs
      && AllFine(good, start, visited, remote.trace)
    }

    constructor (remote: Remote, visited: set<Key>, cache: Cache, ghost good: Genuine)
      requires forall n <- remote.packs :: PackOk(good, remote.packs[n])
      requires cache.Cache? ==> forall k <- cache.vals :: good(Entry(k, cache.vals[k]))
      ensures Valid() && this.remote == remote && this.visited == visited && this.good == good
      ensures start == remote.packs && State() == Sweep(start, visited, start, {}, {}, {}, [])
    {
      hide Inv, PackOk;
      this.remote := remote;
      this.visited := visited;
      this.cache := cache;
      this.good := good;
      start := remote.packs;
      moved, canDelete, done := {}, [], {};
      newPack, newPackSize := NoPack, 0;
      new;
      InvStart(good, start, visited);
      assert State() == Sweep(start, visited, start, {}, {}, {}, []);
    }

    /** Close the pack being written, then remove the packs queued before. As long as the close has not
        had its effect, nothing is removed. */
    method CloseAndDelete() returns (ok: bool)
      requires Valid() && TraceSafe()
      modifies this`newPack, this`newPackSize, this`canDelete, this`done, remote
      ensures TraceSafe()
      ensures ok ==> Valid() && newPack == NoPack && canDelete == [] && Later(old(State()), State(), {})
      ensures ClosedFirst(old(remote.packs), old(newPack), old(remote.trace), remote.trace)
    {
      hide Inv, PackOk, Later, WriterOk, NewPacksOk, TraceSafe, CacheOk;
      ok := CloseNew();
      if !ok { return; }
      ghost var mid := State();
      ok := DeleteQueued(old(newPack));
      if ok { LaterTrans(old(State()), mid, State(), {}); }
    }

    method CloseNew() returns (ok: bool)
      requires Valid() && TraceSafe()
      modifies this`newPack, this`newPackSize, this`done, remote
      ensures TraceSafe()
      ensures ok ==> Valid() && newPack == NoPack && Later(old(State()), State(), {})
      ensures ok ==> Published(old(newPack), remote.packs) && (old(newPack).OpenPack? ==> old(newPack).name !in start)
      ensures ClosedFirst(old(remote.packs), old(newPack), old(remote.trace), remote.trace)
    {
      hide Inv, PackOk, Weight, Later, CacheOk, NewPacksOk, TraceSafe;
      LaterSame(State());
      ok := true;
      if newPack.OpenPack? {
        ok := Publish();
      }
    }

    method Publish() returns (ok: bool)
      requires Valid() && TraceSafe() && newPack.OpenPack?
      modifies this`newPack, this`newPackSize, this`done, remote
      ensures TraceSafe()
      ensures ok ==> Valid() && newPack == NoPack && Later(old(State()), State(), {})
      ensures ok ==> Published(old(newPack), remote.packs)
      ensures remote.trace == old(remote.trace) + [remote.packs] && old(remote.packs).Keys <= remote.packs.Keys
    {
      hide Inv, PackOk, Fine, Weight, Later, Bounded, CacheOk, NewOk, AllFine, PackBytes;
      ghost var s := State();
      var name, es := newPack.name, newPack.es;
      var p := Pack(es, |PackBytes(es)|);
      ghost var t := s.(packs := s.packs[name := p], done := s.done + {name}, pending := []);
      CloseOk(good, s, name, p);
      ok := remote.ClosePack(name, p);
      AllFineSnoc(good, start, visited, old(remote.trace), remote.packs);
      if !ok { return; }
      done := done + {name};
      newPack, newPackSize := NoPack, 0;
      assert State() == t;
    }

    /** Remove the queued packs; `closed`, which was closed before, is not among them. */
    method DeleteQueued(ghost closed: OpenPack) returns (ok: bool)
      requires Valid() && TraceSafe() && newPack == NoPack
      requires Published(closed, remote.packs) && (closed.OpenPack? ==> closed.name !in start)
      modifies this`canDelete, remote
      ensures TraceSafe()
      ensures ok ==> Valid() && canDelete == [] && Later(old(State()), State(), {})
      ensures old(remote.trace) <= remote.trace
      ensures forall i | |old(remote.trace)| <= i < |remote.trace| :: Published(closed, remote.trace[i])
    {
      hide Inv, PackOk, Fine, Later, CacheOk, NewOk, AllFine;
      var i := 0;
      while i < |canDelete|
        invariant 0 <= i <= |canDelete| && canDelete == old(canDelete)
        invariant Valid() && TraceSafe() && Published(closed, remote.packs)
        invariant State() == old(State()).(packs := remote.packs)
        invariant remote.packs.Keys <= old(remote.packs.Keys) && forall j | 0 <= j < i :: canDelete[j] !in remote.packs
        invariant forall n <- start :: Untouched(old(State()), n) ==> n in remote.packs
        invariant old(remote.trace) <= remote.trace
        invariant forall k | |old(remote.trace)| <= k < |remote.trace| :: Published(closed, remote.trace[k])
      {
        ghost var trace := remote.trace;
        RemoveOk(good, State(), canDelete[i]);
        ok := remote.Remove(canDelete[i]);
        AllFineSnoc(good, start, visited, trace, remote.packs);
        if !ok { return; }
        i := i + 1;
      }
      InvDrained(good, State());
      LaterDelete(old(State()), remote.packs);
      canDelete := [];
      assert State() == old(State()).(packs := remote.packs, queue := {});
      ok := true;
    }

    /** Copy one marked value into the pack being written, unless it has been moved already. */
    method PutValue(k: Key, v: seq<byte>) returns (ok: bool)
      requires Valid() && TraceSafe() && k in visited && good(Entry(k, v))
      modifies this, remote
      ensures TraceSafe()
      ensures ok ==> Valid() && k in moved && Later(old(State()), State(), {})
    {
      hide Inv, PackOk, Later, Fine, NewPacksOk, TraceSafe, CacheOk;
      LaterSame(State());
      if k in moved { return true; }
      if newPackSize + |v| + HASH_LEN > PACK_LIMIT {
        ok := CloseAndDelete();
        if !ok { return; }
      }
      if newPack.NoPack? {
        ok := OpenNew();
        if !ok { return; }
      }
      var written: bool := *;
      if |v| > MAX_ENTRY || !written { return false; }
      ghost var s := State();
      AddEntry(Entry(k, v));
      LaterTrans(old(State()), s, State(), {});
      ok := true;
    }

    method AddEntry(e: Entry)
      requires Valid() && e.key in visited && e.key !in moved && good(e) && newPack.OpenPack?
      requires |e.val| <= MAX_ENTRY && newPackSize + HASH_LEN + |e.val| <= PACK_LIMIT
      modifies this`newPack, this`newPackSize, this`moved
      ensures Valid() && e.key in moved && Later(old(State()), State(), {})
    {
      hide Inv, PackOk, Later, NewPacksOk, CacheOk;
      ghost var s := State();
      InvPut(good, s, e);
      LaterPut(s, e);
      WeightSnoc(newPack.es, e);
      newPack := newPack.(es := newPack.es + [e]);
      newPackSize := newPackSize + HASH_LEN + |e.val|;
      moved := moved + {e.key};
      assert State() == s.(pending := s.pending + [e], moved := s.moved + {e.key});
    }

    /** Start a pack under a name nobody uses. */
    method OpenNew() returns (ok: bool)
      requires Valid() && newPack == NoPack
      modifies this`newPack
      ensures Valid() && State() == old(State()) && (ok ==> newPack.OpenPack? && newPack.es == [])
    {
      hide Inv, PackOk;
      ok := *;
      if !ok { return; }
      ghost var n := FreshName(remote.packs.Keys + start.Keys);
      var name: Name :| name !in remote.packs && name !in start;
      newPack := OpenPack(name, []);
    }

    /** What the local cache has for a key. */
    method CacheGet(k: Key) returns (ok: bool, found: bool, v: seq<byte>)
      requires CacheOk()
      ensures found ==> ok && good(Entry(k, v))
    {
      if cache.NoCache? { return true, false, []; }
      ok := *;
      if ok && k in cache.vals { return true, true, cache.vals[k]; }
      return ok, false, [];
    }

    /** Offer a value to the cache, which may evict what it likes. */
    method CachePut(k: Key, v: seq<byte>) returns (ok: bool)
      requires Valid() && good(Entry(k, v))
      modifies this`cache
      ensures Valid() && State() == old(State())
    {
      hide Inv, PackOk;
      ok := true;
      if cache.Cache? { ok := *; }
      var evicted: set<Key> := *;
      if cache.Cache? {
        cache := Cache(cache.vals[k := v] - evicted);
      }
    }

    /** The longest stretch of entries from `i` on that all need copying, and its size as the
        32-bit sum the code computes. */
    method FindRun(idx: Index, i: nat) returns (run: Index, runSize: nat, end: nat)
      requires i <= |idx|
      ensures i <= end <= |idx| && run == idx[i..end]
      ensures forall j | i <= j < end :: idx[j].key in visited && idx[j].key !in moved
      ensures end < |idx| ==> idx[end].key !in visited || idx[end].key in moved
      ensures runSize == SizeSum(run) % TWO_32
    {
      hide SizeSum;
      NoSizes();
      run, runSize, end := [], 0, i;
      while end < |idx|
        invariant i <= end <= |idx| && run == idx[i..end] && runSize == SizeSum(run) % TWO_32
        invariant forall j | i <= j < end :: idx[j].key in visited && idx[j].key !in moved
      {
        var k := idx[end].key;
        if k !in visited || k in moved { break; }
        assert idx[i..end + 1] == idx[i..end] + [idx[end]];
        SumWraps(run, idx[end]);
        run := run + [idx[end]];
        runSize := (runSize + idx[end].size) % TWO_32;
        end := end + 1;
      }
    }

    /** Put a value, then offer it to the cache. */
    method MoveOne(k: Key, v: seq<byte>) returns (ok: bool)
      requires Valid() && TraceSafe() && k in visited && good(Entry(k, v))
      modifies this, remote
      ensures TraceSafe()
      ensures ok ==> Valid() && k in moved && old(moved) <= moved && Later(old(State()), State(), {})
    {
      hide Inv, PackOk, Fine, Later, CacheOk;
      ok := PutValue(k, v);
      if !ok { return; }
      LaterMoved(old(State()), State());
      ok := CachePut(k, v);
    }

    /** Cut the bytes of a run at its entries' sizes and put each value. */
    method MoveRun(run: Index, bytes: seq<byte>, ghost es: seq<Entry>, ghost idx: Index) returns (ok: bool)
      requires Valid() && TraceSafe() && RunsRight(run) && run != []
      requires multiset(idx) == multiset(IndexOf(es, 0)) && forall x <- run :: x in idx && x.key in visited
      requires forall e <- es :: good(e)
      requires run[0].offset + SizeSum(run) <= |Values(es)|
      requires bytes == Values(es)[run[0].offset..run[0].offset + SizeSum(run)]
      modifies this, remote
      ensures TraceSafe()
      ensures ok ==> Valid() && Later(old(State()), State(), {}) && forall x <- run :: x.key in moved
    {
      hide Inv, PackOk, Later, IndexOf, Values, CacheOk, SizeSum, RunsRight, WriterOk, TraceSafe, Uncut;
      WholeRun(es, run);
      LaterSame(State());
      var data := bytes;
      var j := 0;
      while j < |run|
        invariant 0 <= j <= |run| && Valid() && TraceSafe() && Later(old(State()), State(), {})
        invariant forall i | 0 <= i < j :: run[i].key in moved
        invariant Uncut(es, run, j, data)
      {
        var x := run[j];
        ghost var e := CutValue(es, idx, run, j, data);
        var val := data[0..x.size];
        data := data[x.size..];
        ghost var s := State();
        ok := MoveOne(x.key, val);
        if !ok { return; }
        LaterTrans(old(State()), s, State(), {});
        j := j + 1;
      }
      ok := true;
    }

    /** Copy every marked value of a pack that has not been moved. */
    method CopyPack(n: Name, es: seq<Entry>, idx: Index) returns (ok: bool)
      requires Valid() && TraceSafe() && n in start && es == start[n].es && Reorders(idx, es, 0)
      requires RunsRight(idx)
      modifies this, remote
      ensures TraceSafe()
      ensures ok ==> Valid() && Later(old(State()), State(), {}) && Covered(State(), n)
    {
      hide Inv, Later, IndexOf, Values, CacheOk, RunsRight, OffsetSorted, PackOk, SizeSum;
      hide WriterOk, NewPacksOk, TraceSafe;
      LaterSame(State());
      var i := 0;
      while i < |idx|
        invariant Valid() && TraceSafe() && Later(old(State()), State(), {})
        invariant forall j | 0 <= j < |idx| && j < i :: idx[j].key in visited ==> idx[j].key in moved
      {
        var k := idx[i].key;
        if k !in visited || k in moved {
          i := i + 1;
          continue;
        }
        ghost var s := State();
        var found, val;
        ok, found, val := CacheGet(k);
        if !ok { return; }
        if found {
          ok := PutValue(k, val);
          if !ok { return; }
          LaterTrans(old(State()), s, State(), {});
          LaterMoved(s, State());
          i := i + 1;
          continue;
        }
        var run, runSize, end := FindRun(idx, i);
        var fetched: bool := *;
        if !fetched { return false; }
        RunFits(good, start[n], idx, i, end);
        var bytes := Values(es)[run[0].offset..run[0].offset + runSize];
        ok := MoveRun(run, bytes, es, idx);
        if !ok { return; }
        LaterTrans(old(State()), s, State(), {});
        LaterMoved(s, State());
        forall j | i <= j < end ensures idx[j].key in moved { assert idx[j] == run[j - i]; }
        i := end + 1;
      }
      AllMoved(State(), n, idx);
      ok := true;
    }

    /** All keys are marked and none has been moved. */
    method CanSkip(idx: Index) returns (b: bool)
      ensures b <==> forall j | 0 <= j < |idx| :: idx[j].key in visited && idx[j].key !in moved
    {
      for i := 0 to |idx|
        invariant forall j | 0 <= j < i :: idx[j].key in visited && idx[j].key !in moved
      {
        if idx[i].key !in visited || idx[i].key in moved { return false; }
      }
      b := true;
    }

    method MarkMoved(idx: Index)
      modifies this`moved
      ensures moved == old(moved) + set x <- idx :: x.key
    {
      for i := 0 to |idx|
        invariant moved == old(moved) + set x <- idx[..i] :: x.key
      {
        assert idx[..i + 1] == idx[..i] + [idx[i]];
        moved := moved + {idx[i].key};
      }
      assert idx[..|idx|] == idx;
    }

    /** Deal with one listed pack: keep it as it is, or copy what it has and queue it. */
    method SweepPack(n: Name) returns (ok: bool)
      requires Valid() && TraceSafe() && n in start && Untouched(State(), n)
      modifies this, remote
      ensures TraceSafe()
      ensures ok ==> Valid() && Later(old(State()), State(), {n}) && Settled(State(), n) && Covered(State(), n)
    {
      hide Inv, Later, Values, IndexOf, PackOk, RunsRight, SortByOffset, Sort, OffsetSorted;
      hide CacheOk, WriterOk, NewPacksOk, TraceSafe;
      var readable: bool := *;
      if !readable { return false; }
      var p := start[n];
      var idx := SortByOffset(Sort(IndexOf(p.es, 0)));
      SortByOffsetSorts(Sort(IndexOf(p.es, 0)));
      PackTiles(good, p, idx);
      if p.size > SKIP_SIZE {
        var canSkip := CanSkip(idx);
        if canSkip {
          SkipPack(n, idx);
          return true;
        }
      }
      ok := CopyPack(n, p.es, idx);
      if !ok { return; }
      ghost var s := State();
      StillUntouched(old(State()), s, n);
      InvQueue(good, s, n);
      LaterQueue(old(State()), s, n);
      canDelete := canDelete + [n];
      assert State() == s.(queue := s.queue + {n});
    }

    method SkipPack(n: Name, idx: Index)
      requires Valid() && n in start && Untouched(State(), n)
      requires multiset(idx) == multiset(IndexOf(start[n].es, 0))
      requires forall j | 0 <= j < |idx| :: idx[j].key in visited && idx[j].key !in moved
      modifies this`moved, this`done
      ensures Valid() && Later(old(State()), State(), {n}) && Settled(State(), n) && Covered(State(), n)
    {
      hide Inv, Later, IndexOf, PackOk, CacheOk, WriterOk;
      ghost var s, es := State(), start[n].es;
      IndexKeys(es, idx);
      PackGood(good, start[n]);
      forall e <- es ensures e.key in s.visited && e.key !in s.moved {
        var x := EntryListed(es, idx, e);
      }
      InvSkip(good, s, n);
      LaterSkip(s, n);
      MarkMoved(idx);
      done := done + {n};
      assert State() == s.(done := s.done + {n}, moved := s.moved + Keys(es));
    }

    /** The whole sweep, over the listing in any order. */
    method SweepAll(listing: seq<Name>) returns (ok: bool)
      requires Valid() && TraceSafe() && State() == Sweep(start, visited, start, {}, {}, {}, [])
      requires (forall i, j | 0 <= i < j < |listing| :: listing[i] != listing[j]) && start.Keys == set n <- listing
      modifies this, remote
      ensures TraceSafe()
      ensures ok ==> Collected(good, start, visited, remote.packs)
    {
      hide Inv, PackOk, CacheOk, Later, Progress, Collected, TraceSafe, NewPacksOk, Untouched, Settled, Covered;
      var listed: bool := *;
      if !listed { return false; }
      NoProgress(State(), listing);
      var i := 0;
      while i < |listing|
        invariant 0 <= i <= |listing| && Valid() && TraceSafe() && Progress(State(), listing, i)
      {
        ghost var s := State();
        NextListed(s, listing, i);
        ok := SweepPack(listing[i]);
        if !ok { return; }
        ProgressNext(s, State(), listing, i);
        i := i + 1;
      }
      ghost var s := State();
      ok := CloseAndDelete();
      if !ok { return; }
      assert State().queue == {};
      ProgressEnd(good, s, State(), listing);
      InvFinal(good, State());
    }
  }

  lemma QueueListed(good: Genuine, s: Sweep)
    requires Inv(good, s)
    ensures s.queue <= s.start.Keys
  {
  }

  /** The first `i` listed packs are settled and covered, the others untouched. */
  ghost predicate Progress(s: Sweep, listing: seq<Name>, i: nat) {
    && (forall a, b | 0 <= a < b < |listing| :: listing[a] != listing[b]) && s.start.Keys == (set n <- listing)
    && (forall j | 0 <= j < |listing| && j < i ::
          listing[j] in s.start && Settled(s, listing[j]) && Covered(s, listing[j]))
    && (forall j | i <= j < |listing| :: listing[j] in s.start && Untouched(s, listing[j]))
  }

  lemma NoProgress(s: Sweep, listing: seq<Name>)
    requires (forall a, b | 0 <= a < b < |listing| :: listing[a] != listing[b]) && s.start.Keys == (set n <- listing)
    requires s.packs == s.start && s.queue == s.done == {}
    ensures Progress(s, listing, 0)
  {
    forall j | 0 <= j < |listing| ensures listing[j] in s.start { assert listing[j] in listing; }
  }

  lemma NextListed(s: Sweep, listing: seq<Name>, i: nat)
    requires Progress(s, listing, i) && i < |listing|
    ensures listing[i] in s.start && Untouched(s, listing[i])
  {
  }

  lemma ProgressNext(s: Sweep, t: Sweep, listing: seq<Name>, i: nat)
    requires Progress(s, listing, i) && i < |listing| && Later(s, t, {listing[i]})
    requires listing[i] in t.start && Settled(t, listing[i]) && Covered(t, listing[i])
    ensures Progress(t, listing, i + 1)
  {
  }

  lemma ProgressEnd(good: Genuine, s: Sweep, t: Sweep, listing: seq<Name>)
    requires Progress(s, listing, |listing|) && Later(s, t, {}) && Inv(good, t) && t.queue == {}
    ensures t.packs.Keys == t.done && forall n <- t.start :: Covered(t, n)
  {
    forall n <- t.start ensures Settled(t, n) && Covered(t, n) {
      assert n in listing;
      var j :| 0 <= j < |listing| && listing[j] == n;
      assert Covered(s, listing[j]) && Settled(s, listing[j]);
    }
  }

  lemma PackTiles(good: Genuine, p: Pack, idx: Index)
    requires PackOk(good, p) && multiset(idx) == multiset(IndexOf(p.es, 0)) && OffsetSorted(idx)
    ensures Reorders(idx, p.es, 0) && RunsRight(idx)
  {
    SafeRuns(p.es, 0, idx);
  }

  lemma PackGood(good: Genuine, p: Pack)
    requires PackOk(good, p)
    ensures Distinct(p.es) && forall e <- p.es :: good(e)
  {
  }

  lemma IndexKeys(es: seq<Entry>, idx: Index)
    requires multiset(idx) == multiset(IndexOf(es, 0))
    ensures (set x <- idx :: x.key) == Keys(es)
  {
    forall x <- idx ensures x.key in Keys(es) { var e := EntryAt(es, idx, x); }
    forall e <- es ensures e.key in set x <- idx :: x.key { var x := EntryListed(es, idx, e); }
  }

  lemma StillUntouched(a: Sweep, b: Sweep, n: Name)
    requires Later(a, b, {}) && n in a.start && Untouched(a, n)
    ensures Untouched(b, n)
  {
  }

  lemma LaterQueue(a: Sweep, b: Sweep, n: Name)
    requires Later(a, b, {})
    ensures Later(a, b.(queue := b.queue + {n}), {n})
  {
  }

  lemma LaterSkip(s: Sweep, n: Name)
    requires n in s.start
    ensures Later(s, s.(done := s.done + {n}, moved := s.moved + Keys(s.start[n].es)), {n})
  {
  }

  lemma NoSizes()
    ensures SizeSum([]) == 0
  {
  }

  lemma LaterMoved(a: Sweep, b: Sweep)
    requires Later(a, b, {})
    ensures a.moved <= b.moved
  {
  }

  lemma SplitSlice(vals: seq<byte>, p: nat, e: nat, sz: nat)
    requires p + sz <= e <= |vals|
    ensures vals[p..e][0..sz] == vals[p..p + sz] && vals[p..e][sz..] == vals[p + sz..e]
  {
  }

  /** In a right run, the sizes before a value lead to its offset. */
  lemma CutOffset(run: Index, j: nat)
    requires RunsRight(run) && j < |run|
    ensures run[j].size > 0 ==> run[j].offset == run[0].offset + SizeSum(run[..j])
    ensures SizeSum(run[..j]) + run[j].size == SizeSum(run[..j + 1]) <= SizeSum(run)
  {
    hide SizeSum;
    assert run[..j] == run[0..j];
    assert run[j].size > 0 ==> Cut(run, 0, j) == run[j].offset;
    SumSnoc(run, j);
    SumMono(run, j + 1);
  }

  /** `data` is what is left of the bytes of `run` when `j` values have been cut off. */
  ghost predicate Uncut(es: seq<Entry>, run: Index, j: nat, data: seq<byte>) {
    && j <= |run| && run != []
    && var base := run[0].offset;
       && SizeSum(run[..j]) <= SizeSum(run) && base + SizeSum(run) <= |Values(es)|
       && data == Values(es)[base + SizeSum(run[..j])..base + SizeSum(run)]
  }

  lemma WholeRun(es: seq<Entry>, run: Index)
    requires run != [] && run[0].offset + SizeSum(run) <= |Values(es)|
    ensures Uncut(es, run, 0, Values(es)[run[0].offset..run[0].offset + SizeSum(run)])
  {
    hide Values;
    assert run[..0] == [];
  }

  lemma CutValue(es: seq<Entry>, idx: Index, run: Index, j: nat, data: seq<byte>) returns (e: Entry)
    requires multiset(idx) == multiset(IndexOf(es, 0)) && RunsRight(run) && j < |run| && run[j] in idx
    requires Uncut(es, run, j, data)
    ensures e in es && e.key == run[j].key && run[j].size <= |data| && data[0..run[j].size] == e.val
    ensures Uncut(es, run, j + 1, data[run[j].size..])
  {
    hide IndexOf, Values, SizeSum, RunsRight;
    var base, x := run[0].offset, run[j];
    e := EntryAt(es, idx, x);
    CutOffset(run, j);
    SplitSlice(Values(es), base + SizeSum(run[..j]), base + SizeSum(run), x.size);
  }

  lemma SumSnoc(run: Index, j: nat)
    requires j < |run|
    ensures SizeSum(run[..j + 1]) == SizeSum(run[..j]) + run[j].size
  {
    assert run[..j + 1][..j] == run[..j];
  }

  lemma SumWraps(run: Index, x: IndexEnt)
    ensures (SizeSum(run) % TWO_32 + x.size) % TWO_32 == SizeSum(run + [x]) % TWO_32
  {
    assert (run + [x])[..|run|] == run;
  }

  lemma {:induction false} SumMono(run: Index, k: nat)
    requires k <= |run|
    ensures SizeSum(run[..k]) <= SizeSum(run)
    decreases |run| - k
  {
    assert run[..|run|] == run;
    if k < |run| {
      SumMono(run, k + 1);
      assert run[..k + 1][..k] == run[..k];
    }
  }

  /** A run of a pack that fits in 32 bits is in range, and its size does not wrap. */
  lemma RunFits(good: Genuine, p: Pack, idx: Index, i: nat, end: nat)
    requires PackOk(good, p) && Reorders(idx, p.es, 0) && RunsRight(idx) && i < end <= |idx|
    ensures SizeSum(idx[i..end]) % TWO_32 == SizeSum(idx[i..end])
    ensures idx[i].offset + SizeSum(idx[i..end]) <= |Values(p.es)|
    ensures RunsRight(idx[i..end]) && forall x <- idx[i..end] :: x in idx
    ensures forall e <- p.es :: good(e)
  {
    hide IndexOf, Values, SizeSum, RunsRight;
    var e := OwnBytes(p.es, idx, i, end - 1);
    RunSum(idx, i, end);
    SubRun(idx, i, end);
    var run := idx[i..end];
    assert forall j | 0 <= j < |run| :: run[j] == idx[i + j];
  }

  lemma RunSum(idx: Index, i: nat, end: nat)
    requires i < end <= |idx|
    ensures idx[i].offset + SizeSum(idx[i..end]) == Cut(idx, i, end - 1) + idx[end - 1].size
  {
    assert idx[i..end][..end - i - 1] == idx[i..end - 1];
  }

  lemma SubRun(idx: Index, i: nat, end: nat)
    requires RunsRight(idx) && i <= end <= |idx|
    ensures RunsRight(idx[i..end])
  {
    hide SizeSum;
    var run := idx[i..end];
    forall a, b | 0 <= a <= b < |run| && run[b].size > 0 ensures Cut(run, a, b) == run[b].offset {
      SliceSlice(idx, i, end, a, b);
      assert Cut(idx, i + a, i + b) == idx[i + b].offset;
    }
  }

  lemma AllMoved(s: Sweep, n: Name, idx: Index)
    requires n in s.start && multiset(idx) == multiset(IndexOf(s.start[n].es, 0))
    requires forall j | 0 <= j < |idx| :: idx[j].key in s.visited ==> idx[j].key in s.moved
    ensures Covered(s, n)
  {
    forall k | k in Keys(s.start[n].es) && k in s.visited ensures k in s.moved {
      var e :| e in s.start[n].es && e.key == k;
      var x := EntryListed(s.start[n].es, idx, e);
    }
  }
}
