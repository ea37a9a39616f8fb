/** Which leaf of a hash tree an offset leads to. */
module HTreeLeaf {
  import opened Bytes
  import opened HTree

  /** Where the leaf starts that a search for `off` ends at: in each node it enters the last child
      that starts at or before `off`. */
  function LeafAt(t: Tree, off: nat): nat
    decreases t, 1
  {
    match t
    case Leaf(start, _) => start
    case Node(_, kids) => if kids == [] then 0 else LeafIn(kids, off)
  }

  function LeafIn(ts: seq<Tree>, off: nat): nat
    requires ts != []
    decreases ts, 0
  {
    if |ts| == 1 || off < Off(ts[1]) then LeafAt(ts[0], off) else LeafIn(ts[1..], off)
  }

  /** Where the leaves below `t` start, from left to right. */
  function Starts(t: Tree): seq<nat>
    decreases t, 1
  {
    match t
    case Leaf(start, _) => [start]
    case Node(_, kids) => StartsOf(kids)
  }

  function StartsOf(ts: seq<Tree>): seq<nat>
    decreases ts, 0
  {
    if ts == [] then [] else Starts(ts[0]) + StartsOf(ts[1..])
  }

  /** `x` is the greatest of `s` that is at most `off`. */
  ghost predicate LastUpTo(s: seq<nat>, off: nat, x: nat) {
    x in s && x <= off && forall y <- s :: y <= off ==> y <= x
  }

  lemma {:induction false} StartsBound(t: Tree)
    requires WellFormed(t)
    ensures Off(t) in Starts(t) && forall y <- Starts(t) :: Off(t) <= y <= Off(t) + |Data(t)|
    decreases t, 1
  {
    if t.Node? { StartsOfBound(t.kids, Off(t)); }
  }

  lemma {:induction false} StartsOfBound(ts: seq<Tree>, off: nat)
    requires Contig(ts, off) && forall t <- ts :: WellFormed(t)
    ensures ts != [] ==> Off(ts[0]) in StartsOf(ts)
    ensures forall y <- StartsOf(ts) :: off <= y <= off + |DataOf(ts)|
    decreases ts, 0
  {
    hide Starts, WellFormed, Data, Off;
    if ts != [] {
      StartsBound(ts[0]);
      StartsOfBound(ts[1..], off + |Data(ts[0])|);
    }
  }

  /** The search ends at the last leaf that starts at or before the offset. */
  lemma {:induction false} LeafAtLast(t: Tree, off: nat)
    requires WellFormed(t) && Off(t) <= off
    ensures LastUpTo(Starts(t), off, LeafAt(t, off))
    decreases t, 1
  {
    if t.Node? { LeafInLast(t.kids, off); }
  }

  lemma {:induction false} LeafInLast(ts: seq<Tree>, off: nat)
    requires ts != [] && Contig(ts, Off(ts[0])) && Off(ts[0]) <= off && forall t <- ts :: WellFormed(t)
    ensures LastUpTo(StartsOf(ts), off, LeafIn(ts, off))
    decreases ts, 0
  {
    hide Starts, LeafAt, WellFormed, Data, Off;
    var t, more := ts[0], ts[1..];
    var next := Off(t) + |Data(t)|;
    assert Contig(more, next);
    StartsBound(t);
    StartsOfBound(more, next);
    if |ts| == 1 || off < Off(ts[1]) {
      LeafAtLast(t, off);
    } else {
      assert more[0] == ts[1];
      LeafInLast(more, off);
    }
  }

  // ---------------------------------------------------------------- written streams

  lemma {:induction false} StartsAppend(a: seq<Tree>, b: seq<Tree>)
    ensures StartsOf(a + b) == StartsOf(a) + StartsOf(b)
  {
    if a == [] {
      assert a + b == b;
    } else {
      assert (a + b)[0] == a[0] && (a + b)[1..] == a[1..] + b;
      StartsAppend(a[1..], b);
    }
  }

  lemma StartsOne(t: Tree)
    ensures StartsOf([t]) == Starts(t)
  {
    assert [t][1..] == [];
  }

  lemma {:induction false} GroupStarts(lvl: nat, ts: seq<Tree>)
    requires ts != []
    ensures StartsOf(Group(lvl, ts)) == StartsOf(ts)
    decreases |ts|
  {
    hide StartsOf;
    if |ts| <= FANOUT {
      assert Group(lvl, ts) == [Node(lvl, ts)];
      StartsOne(Node(lvl, ts));
    } else {
      var a, b := ts[..FANOUT], ts[FANOUT..];
      assert ts == a + b;
      assert Group(lvl, ts) == [Node(lvl, a)] + Group(lvl, b);
      StartsOne(Node(lvl, a));
      StartsAppend([Node(lvl, a)], Group(lvl, b));
      StartsAppend(a, b);
      GroupStarts(lvl, b);
    }
  }

  lemma {:induction false} GroupUpStarts(lvl: nat, ts: seq<Tree>)
    requires ts != []
    ensures Starts(GroupUp(lvl, ts)) == StartsOf(ts)
    decreases |ts|
  {
    hide StartsOf, Group;
    if |ts| == 1 {
      assert ts == [ts[0]];
      StartsOne(ts[0]);
    } else {
      GroupStarts(lvl + 1, ts);
      GroupUpStarts(lvl + 1, Group(lvl + 1, ts));
    }
  }

  /** The leaves of a cut stream start every LEAF bytes. */
  lemma {:induction false} LeavesStarts(data: seq<byte>, off: nat, y: nat)
    ensures y in StartsOf(Leaves(data, off)) <==>
      off <= y && (y - off) % LEAF == 0 && (y == off || y < off + |data|)
    decreases |data|
  {
    hide Leaves, StartsOf;
    if |data| <= LEAF {
      LeavesShort(data, off);
      StartsOne(Leaf(off, data));
    } else {
      var first, rest := data[..LEAF], data[LEAF..];
      assert data == first + rest;
      LeavesStep(first, rest, off);
      StartsOne(Leaf(off, first));
      StartsAppend([Leaf(off, first)], Leaves(rest, off + LEAF));
      LeavesStarts(rest, off + LEAF, y);
    }
  }

  /** In a written stream the leaf is found by dividing, the last one for every offset past the end. */
  lemma CanonLeaf(data: seq<byte>, off: nat)
    requires |data| < TWO_64
    ensures LeafAt(CanonTree(data), off) == if data == [] then 0 else Min(off, |data| - 1) / LEAF * LEAF
  {
    hide LeafAt, Starts, StartsOf, Leaves, GroupUp, WellFormed, Data, Off;
    CanonTreeSpec(data);
    var t := CanonTree(data);
    LeafAtLast(t, off);
    GroupUpStarts(0, Leaves(data, 0));
    var x := LeafAt(t, off);
    var z := if data == [] then 0 else Min(off, |data| - 1) / LEAF * LEAF;
    LeavesStarts(data, 0, x);
    LeavesStarts(data, 0, z);
  }
}
