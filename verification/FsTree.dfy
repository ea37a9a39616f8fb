/**
 The file system as a tree of values. Every update builds a new tree along one path and shares the
 rest; the store-level operations of Fs are proved to compute these functions.
 */
module FsTree {
  import opened Bytes
  import opened Directory
  import opened HTreeWriter

  type Path = seq<Name>
  datatype Node = File(root: Root) | Dir(mode: Mode, ents: seq<Item>)
  type Item = Ent<Node>
  datatype Found = Missing | Found(ent: Item)
  datatype Res = Ok(node: Node) | Err | Panic

  /** As a directory reads itself: its first entry is itself under the name ".". */
  function Dot(d: Node): Item
    requires d.Dir?
  {
    Ent(DOT, 0, 0, d.mode, d)
  }

  /** Index of the first entry of that name, or the length. */
  function Find<B>(ents: seq<Ent<B>>, name: Name): (i: nat)
    ensures i <= |ents| && (i < |ents| ==> ents[i].name == name)
    ensures forall j | 0 <= j < i :: ents[j].name != name
  {
    if ents == [] || ents[0].name == name then 0
    else
      assert ents == [ents[0]] + ents[1..];
      1 + Find(ents[1..], name)
  }

  function Lookup(ents: seq<Item>, name: Name): Found {
    var i := Find(ents, name);
    if i < |ents| then Found(ents[i]) else Missing
  }

  function Resolve(d: Node, path: Path): Found
    requires d.Dir?
    decreases path, 0
  {
    if path == [] then Found(Dot(d))
    else
      match Lookup(d.ents, path[0])
      case Missing => Missing
      case Found(e) => Below(e, path[1..])
  }

  /** Follow the rest of a path from an entry. */
  function Below(e: Item, path: Path): Found
    decreases path, 1
  {
    if path == [] then Found(e) else if e.body.Dir? then Resolve(e.body, path) else Missing
  }

  ghost function MakeDir(mode: Mode, ents: seq<Item>): Res {
    if Accepts(ents) then Ok(Dir(AsDir(mode), Sort(ents))) else Err
  }

  /** The directory with the body of entry `i` replaced. */
  ghost function Replace(d: Node, i: nat, r: Res): Res
    requires d.Dir? && i < |d.ents|
  {
    if r.Ok? then MakeDir(d.mode, d.ents[i := d.ents[i].(body := r.node)]) else r
  }

  ghost function InsertAt(d: Node, path: Path, e: Item): Res
    requires d.Dir?
    decreases path
  {
    if path == [] then MakeDir(d.mode, [e] + d.ents)
    else
      var i := Find(d.ents, path[0]);
      if i == |d.ents| || d.ents[i].body.File? then Err
      else Replace(d, i, InsertAt(d.ents[i].body, path[1..], e))
  }

  function Without<B>(ents: seq<Ent<B>>, name: Name): (r: seq<Ent<B>>)
    ensures |r| <= |ents|
  {
    if ents == [] then []
    else (if ents[0].name == name then [] else [ents[0]]) + Without(ents[1..], name)
  }

  /** An empty parent directory asks for a slice of capacity -1. */
  ghost function RemoveAt(d: Node, path: Path): Res
    requires d.Dir? && path != []
    decreases path
  {
    if |path| == 1 then
      if d.ents == [] then Panic
      else if |Without(d.ents, path[0])| == |d.ents| then Err
      else MakeDir(d.mode, Without(d.ents, path[0]))
    else
      var i := Find(d.ents, path[0]);
      if i == |d.ents| || d.ents[i].body.File? then Err
      else Replace(d, i, RemoveAt(d.ents[i].body, path[1..]))
  }

  ghost function CopyTo(d: Node, dir: Path, name: Name, src: Path): Res
    requires d.Dir?
  {
    match Resolve(d, src)
    case Missing => Err
    case Found(e) => InsertAt(d, dir, e.(name := name))
  }

  ghost function MoveTo(d: Node, dir: Path, name: Name, src: Path): Res
    requires d.Dir?
  {
    match CopyTo(d, dir, name, src)
    case Ok(c) => if src == [] || c.File? then Err else RemoveAt(c, src)
    case Err => Err
    case Panic => Panic
  }

  // ---------------------------------------------------------------- well-formed trees

  /** A tree every directory of which WriteDir could have written. */
  ghost predicate Canonical(n: Node)
    decreases n
  {
    match n
    case File(root) => root.depth < 256
    case Dir(mode, ents) =>
      && mode >= MODE_DIR && Written(ents)
      && forall i | 0 <= i < |ents| :: ItemOk(ents[i])
  }

  ghost predicate ItemOk(e: Item)
    decreases e
  {
    (e.IsDir() <==> e.body.Dir?) && Canonical(e.body)
  }

  ghost predicate Written<B>(ents: seq<Ent<B>>) {
    Strict(ents) && Checked(ents) && NamesFit(ents)
  }

  lemma WrittenAccepted<B>(ents: seq<Ent<B>>)
    requires Written(ents)
    ensures Accepts(ents) && Sort(ents) == ents
  {
    SortStrict(ents);
  }

  lemma AcceptedWritten<B>(ents: seq<Ent<B>>)
    requires Accepts(ents)
    ensures Written(Sort(ents))
  {
    SortSorts(ents);
    CheckedStrict(Sort(ents));
    FitsSame(ents, Sort(ents));
  }

  /** The same names and modes in the same order. */
  ghost predicate SameShape<A, B>(a: seq<Ent<A>>, b: seq<Ent<B>>) {
    |a| == |b| && forall i | 0 <= i < |a| :: a[i].name == b[i].name && a[i].mode == b[i].mode
  }

  lemma SameWritten<A, B>(a: seq<Ent<A>>, b: seq<Ent<B>>)
    requires SameShape(a, b) && Written(a)
    ensures Written(b)
  {
    forall i, j | 0 <= i < j < |b| ensures Less(b[i], b[j]) { assert Less(a[i], a[j]); }
    forall i | 0 <= i < |b| - 1 ensures b[i].name != DOT && b[i].name != b[i + 1].name {
      assert a[i].name != a[i + 1].name && a[i + 1].name == b[i + 1].name;
    }
  }

  lemma SameChecked<A, B>(a: seq<Ent<A>>, b: seq<Ent<B>>)
    requires SameShape(a, b)
    ensures Checked(a) <==> Checked(b)
    ensures NamesFit(a) <==> NamesFit(b)
  {
    if Checked(a) {
      forall i | 0 <= i < |b| - 1 ensures b[i].name != DOT && b[i].name != b[i + 1].name {
        assert a[i].name != a[i + 1].name && a[i + 1].name == b[i + 1].name;
      }
    }
    if Checked(b) {
      forall i | 0 <= i < |a| - 1 ensures a[i].name != DOT && a[i].name != a[i + 1].name {
        assert b[i].name != b[i + 1].name && a[i + 1].name == b[i + 1].name;
      }
    }
  }

  /** Changing what an entry leads to is never refused and keeps the order. */
  lemma Rewrite(d: Node, i: nat, b: Node)
    requires d.Dir? && Canonical(d) && i < |d.ents| && d.ents[i].body.Dir? && b.Dir? && Canonical(b)
    ensures Replace(d, i, Ok(b)) == Ok(Dir(d.mode, d.ents[i := d.ents[i].(body := b)]))
    ensures Canonical(Replace(d, i, Ok(b)).node)
  {
    hide Written, Accepts;
    var ents := d.ents[i := d.ents[i].(body := b)];
    SameWritten(d.ents, ents);
    WrittenAccepted(ents);
    forall j | 0 <= j < |ents| ensures ItemOk(ents[j]) { assert ItemOk(d.ents[j]); }
  }

  lemma MakeCanonical(mode: Mode, ents: seq<Item>)
    requires mode >= MODE_DIR && Accepts(ents) && forall i | 0 <= i < |ents| :: ItemOk(ents[i])
    ensures Canonical(Dir(mode, Sort(ents)))
  {
    hide Written, Accepts;
    AcceptedWritten(ents);
    forall i | 0 <= i < |ents| ensures ItemOk(Sort(ents)[i]) {
      SameMembers(ents, Sort(ents), Sort(ents)[i]);
    }
  }

  lemma {:induction false} InsertCanonical(d: Node, path: Path, e: Item)
    requires d.Dir? && Canonical(d) && ItemOk(e)
    ensures var r := InsertAt(d, path, e);
      r != Panic && (r.Ok? ==> r.node.Dir? && r.node.mode == d.mode && Canonical(r.node))
    decreases path
  {
    hide Accepts;
    if path == [] {
      if Accepts([e] + d.ents) { MakeCanonical(d.mode, [e] + d.ents); }
    } else {
      var i := Find(d.ents, path[0]);
      if i < |d.ents| && d.ents[i].body.Dir? {
        assert ItemOk(d.ents[i]);
        InsertCanonical(d.ents[i].body, path[1..], e);
        var r := InsertAt(d.ents[i].body, path[1..], e);
        if r.Ok? { Rewrite(d, i, r.node); }
      }
    }
  }

  lemma {:induction false} WithoutItems<B>(ents: seq<Ent<B>>, name: Name)
    ensures forall x <- Without(ents, name) :: x in ents && x.name != name
    ensures |Without(ents, name)| == |ents| <==> forall x <- ents :: x.name != name
    ensures |Without(ents, name)| == |ents| ==> Without(ents, name) == ents
  {
    if ents != [] {
      WithoutItems(ents[1..], name);
      assert ents == [ents[0]] + ents[1..];
    }
  }

  lemma StrictTail<B>(ents: seq<Ent<B>>)
    requires Strict(ents) && ents != []
    ensures Strict(ents[1..]) && forall y <- ents[1..] :: Less(ents[0], y)
  {
    hide Less;
    forall y <- ents[1..] ensures Less(ents[0], y) {
      var k :| 0 <= k < |ents[1..]| && ents[1..][k] == y;
      assert ents[k + 1] == y;
    }
  }

  lemma StrictCons<B>(x: Ent<B>, rest: seq<Ent<B>>)
    requires Strict(rest) && forall y <- rest :: Less(x, y)
    ensures Strict([x] + rest)
  {
    hide Less;
    assert forall j | 0 <= j < |rest| :: rest[j] in rest;
  }

  lemma {:induction false} WithoutStrict<B>(ents: seq<Ent<B>>, name: Name)
    requires Strict(ents)
    ensures Strict(Without(ents, name))
  {
    hide Less, Strict;
    if ents == [] {
      assert Without(ents, name) == ents;
    } else {
      StrictTail(ents);
      WithoutStrict(ents[1..], name);
      WithoutItems(ents[1..], name);
      StrictCons(ents[0], Without(ents[1..], name));
      assert [] + Without(ents[1..], name) == Without(ents[1..], name);
    }
  }

  lemma {:induction false} RemoveCanonical(d: Node, path: Path)
    requires d.Dir? && Canonical(d) && path != []
    ensures var r := RemoveAt(d, path);
      r.Ok? ==> r.node.Dir? && r.node.mode == d.mode && Canonical(r.node)
    decreases path
  {
    hide Accepts;
    if |path| == 1 {
      var rest := Without(d.ents, path[0]);
      WithoutItems(d.ents, path[0]);
      forall j | 0 <= j < |rest| ensures ItemOk(rest[j]) { assert rest[j] in d.ents; }
      if Accepts(rest) { MakeCanonical(d.mode, rest); }
    } else {
      var i := Find(d.ents, path[0]);
      if i < |d.ents| && d.ents[i].body.Dir? {
        assert ItemOk(d.ents[i]);
        RemoveCanonical(d.ents[i].body, path[1..]);
        var r := RemoveAt(d.ents[i].body, path[1..]);
        if r.Ok? { Rewrite(d, i, r.node); }
      }
    }
  }

  /** What a path leads to is itself well formed. */
  lemma {:induction false} ResolveCanonical(d: Node, path: Path)
    requires d.Dir? && Canonical(d)
    ensures Resolve(d, path).Found? ==> ItemOk(Resolve(d, path).ent)
    decreases path
  {
    if path != [] {
      var i := Find(d.ents, path[0]);
      if i < |d.ents| {
        assert ItemOk(d.ents[i]);
        if |path| > 1 && d.ents[i].body.Dir? { ResolveCanonical(d.ents[i].body, path[1..]); }
      }
    }
  }
}
