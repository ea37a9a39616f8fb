/**
 The recency list of the chunk cache: a ring of entries linked both ways through a root entry that
 carries no data. `ring` lists the entries from the front; the links are determined by it.
 */
module LruList {
  import opened ChunkStore

  class Ent {
    const hash: Hash
    const size: nat
    var next: Ent?
    var prev: Ent?

    constructor (hash: Hash, size: nat)
      ensures this.hash == hash && this.size == size
    {
      this.hash := hash;
      this.size := size;
      next, prev := null, null;
    }
  }

  lemma InnerPush<T>(s: seq<T>, r: T, e: T)
    requires |s| >= 2
    ensures var t := [r, e] + s[1..]; t[1..|t| - 1] == [e] + s[1..|s| - 1]
  {
  }

  lemma InnerRemove<T>(s: seq<T>, i: nat)
    requires |s| >= 2 && i < |s| - 2
    ensures var t := s[..i + 1] + s[i + 2..];
            t[1..|t| - 1] == s[1..|s| - 1][..i] + s[1..|s| - 1][i + 1..]
  {
  }

  /** A list that begins and ends with `r` and has nothing else twice. */
  ghost predicate Round<T>(s: seq<T>, r: T) {
    |s| >= 2 && s[0] == s[|s| - 1] == r && forall i, j | 0 <= i < j < |s| - 1 :: s[i] != s[j]
  }

  /** Taking out an entry that is listed once. */
  lemma Unlink<T>(s: seq<T>, r: T, i: nat)
    requires Round(s, r) && i < |s| - 2
    ensures var t := s[..i + 1] + s[i + 2..];
            Round(t, r) && s[i + 1] !in t && forall x :: x in t <==> x in s && x != s[i + 1]
  {
    var t := s[..i + 1] + s[i + 2..];
    assert forall k | 0 <= k < |t| :: t[k] == s[if k <= i then k else k + 1];
    forall x | x in s && x != s[i + 1] ensures x in t {
      var k :| 0 <= k < |s| && s[k] == x;
      assert t[if k <= i then k else k - 1] == x;
    }
  }

  /** From either side, an entry of a round list is listed once. */
  lemma Neighbour<T>(s: seq<T>, r: T, i: nat, k: nat)
    requires Round(s, r) && i < |s| - 2 && k < |s| - 1
    ensures (s[k] == s[i] <==> k == i) && (s[k] == s[i + 1] <==> k == i + 1)
  {
  }

  lemma NeighbourBack<T>(s: seq<T>, r: T, i: nat, k: nat)
    requires Round(s, r) && i < |s| - 2 && 1 <= k < |s|
    ensures (s[k] == s[i + 2] <==> k == i + 2) && (s[k] == s[i + 1] <==> k == i + 1)
  {
  }

  ghost predicate Linked(a: Ent, b: Ent)
    reads a, b
  {
    a.next == b && b.prev == a
  }

  ghost predicate Chained(s: seq<Ent>)
    reads s
  {
    forall a, b | 0 <= a < |s| && 0 <= b < |s| && b == a + 1 :: Linked(s[a], s[b])
  }

  /** Chained but for the two links of `s[i + 1]`. */
  ghost predicate ChainedBut(s: seq<Ent>, i: nat)
    reads s
  {
    forall a, b | 0 <= a < |s| && 0 <= b < |s| && b == a + 1 && a != i && a != i + 1 :: Linked(s[a], s[b])
  }

  /** Let the neighbours of `e` point past it. */
  method Bypass(e: Ent, ghost s: seq<Ent>, ghost r: Ent, ghost i: nat)
    requires Round(s, r) && i < |s| - 2 && s[i + 1] == e
    requires Chained(s)
    modifies s
    ensures Linked(s[i], s[i + 2])
    ensures ChainedBut(s, i)
  {
    hide Round;
    assert Linked(s[i], s[i + 1]) && Linked(s[i + 1], s[i + 2]);
    forall k | 0 <= k < |s| - 1 ensures (s[k] == s[i] <==> k == i) && (s[k] == e <==> k == i + 1) {
      Neighbour(s, r, i, k);
    }
    forall k | 1 <= k < |s| ensures (s[k] == s[i + 2] <==> k == i + 2) && (s[k] == e <==> k == i + 1) {
      NeighbourBack(s, r, i, k);
    }
    e.next.prev := e.prev;
    e.prev.next := e.next;
    e.next := null;
    e.prev := null;
  }

  lemma Rejoined(s: seq<Ent>, i: nat)
    requires i + 2 < |s| && Linked(s[i], s[i + 2])
    requires ChainedBut(s, i)
    ensures Chained(s[..i + 1] + s[i + 2..])
  {
    hide Linked;
    var t := s[..i + 1] + s[i + 2..];
    forall a, b | 0 <= a < |t| && 0 <= b < |t| && b == a + 1 ensures Linked(t[a], t[b]) {
      if a < i {
        assert t[a] == s[a] && t[b] == s[b];
      } else if a > i {
        assert t[a] == s[a + 1] && t[b] == s[b + 1];
      }
    }
  }

  /** Put `e` between the root and the entry behind it. */
  method Splice(e: Ent, root: Ent, ghost s: seq<Ent>)
    requires Round(s, root) && Chained(s) && e !in s
    modifies s, e
    ensures Chained([root, e] + s[1..])
  {
    var n := root.next;
    assert Linked(s[0], s[1]);
    root.next := e;
    e.prev := root;
    e.next := n;
    n.prev := e;
    ghost var t := [root, e] + s[1..];
    forall a, b | 0 <= a < |t| && 0 <= b < |t| && b == a + 1 ensures Linked(t[a], t[b]) {
      if a > 1 { assert t[a] == s[a - 1] && t[b] == s[b - 1] && old(Linked(s[a - 1], s[b - 1])); }
    }
  }

  lemma RoundPush<T>(s: seq<T>, r: T, e: T)
    requires Round(s, r) && e !in s
    ensures var t := [r, e] + s[1..];
            Round(t, r) && |t| == |s| + 1 && forall x :: x in t <==> x in s || x == e
  {
    var t := [r, e] + s[1..];
    assert t[0] == s[0] && t[1] == e && forall k | 1 <= k < |s| :: t[k + 1] == s[k];
  }

  class List {
    const root: Ent
    var len: nat
    ghost var ring: seq<Ent>      // once round: the root, the entries from the front, the root again

    ghost function Nodes(): set<object>
      reads this
    {
      set e <- ring
    }

    /** The entries, most recently used first. */
    ghost function Order(): seq<Ent>
      requires |ring| >= 2
      reads this
    {
      ring[1..|ring| - 1]
    }

    ghost predicate Valid()
      reads this, Nodes()
      ensures Valid() ==> |ring| == len + 2 && root in Nodes()
    {
      && |ring| == len + 2 && Round(ring, root)
      && Chained(ring)
    }

    constructor ()
      ensures Valid() && Order() == [] && fresh(Nodes())
    {
      var z: Hash := ZERO_HASH;
      var e := new Ent(z, 0);
      root := e;
      len := 0;
      ring := [e, e];
      new;
      root.next := root;
      root.prev := root;
    }

    method Back() returns (e: Ent?)
      requires Valid()
      ensures e == if Order() == [] then null else Order()[|Order()| - 1]
    {
      if len == 0 { return null; }
      assert ring[len] == Order()[|Order()| - 1] && ring[len + 1].prev == ring[len];
      e := root.prev;
    }

    /** Link an entry that is not in the ring behind the root. */
    method LinkFront(e: Ent)
      requires Valid() && e !in ring
      modifies this, Nodes(), e
      ensures Valid() && Order() == [e] + old(Order())
      ensures Nodes() == old(Nodes()) + {e}
    {
      hide Round, Linked, Chained;
      Splice(e, root, ring);
      len := len + 1;
      InnerPush(ring, root, e);
      RoundPush(ring, root, e);
      ring := [root, e] + ring[1..];
    }

    method PushFront(hash: Hash, size: nat) returns (e: Ent)
      requires Valid()
      modifies this, Nodes()
      ensures Valid() && fresh(e) && e.hash == hash && e.size == size
      ensures Order() == [e] + old(Order()) && Nodes() == old(Nodes()) + {e}
    {
      e := new Ent(hash, size);
      LinkFront(e);
    }

    method Remove(e: Ent, ghost i: nat)
      requires Valid() && i < |Order()| && Order()[i] == e
      modifies this, Nodes()
      ensures Valid() && Order() == old(Order())[..i] + old(Order())[i + 1..]
      ensures e !in ring && Nodes() == old(Nodes()) - {e}
    {
      hide Round, Linked, Chained, ChainedBut;
      ghost var s, t := ring, ring[..i + 1] + ring[i + 2..];
      Bypass(e, s, root, i);
      Rejoined(s, i);
      Unlink(s, root, i);
      InnerRemove(s, i);
      len := len - 1;
      ring := t;
    }

    method MoveToFront(e: Ent, ghost i: nat)
      requires Valid() && i < |Order()| && Order()[i] == e
      modifies this, Nodes()
      ensures Valid() && Order() == [e] + (old(Order())[..i] + old(Order())[i + 1..])
      ensures Nodes() == old(Nodes())
    {
      Remove(e, i);
      LinkFront(e);
    }
  }
}
