/** What inserting, removing and moving do to every path of the tree. */
module FsLaws {
  import opened Bytes
  import opened Directory
  import opened FsTree

  /** Two results that differ at most in the contents of a directory. */
  ghost predicate SameMeta(a: Found, b: Found) {
    && a.Found? && b.Found? && a.ent.body.Dir? && b.ent.body.Dir?
    && a.ent.(body := b.ent.body) == b.ent
  }

  // ---------------------------------------------------------------- one directory

  lemma {:induction false} WithoutInsert(e: Item, ents: seq<Item>)
    requires forall x <- ents :: x.name != e.name
    ensures Without(Insert(e, ents), e.name) == ents
  {
    WithoutItems(ents, e.name);
    if ents == [] || Less(e, ents[0]) {
      assert ([e] + ents)[1..] == ents;
    } else {
      WithoutInsert(e, ents[1..]);
      assert ([ents[0]] + Insert(e, ents[1..]))[1..] == Insert(e, ents[1..]);
      assert ents == [ents[0]] + ents[1..];
    }
  }

  lemma FindCons(x: Item, ents: seq<Item>, name: Name)
    ensures Lookup([x] + ents, name) == if x.name == name then Found(x) else Lookup(ents, name)
  {
    assert ([x] + ents)[1..] == ents;
  }

  lemma {:induction false} LookupInsert(e: Item, ents: seq<Item>, name: Name)
    requires forall x <- ents :: x.name != e.name
    ensures Lookup(Insert(e, ents), name) == if name == e.name then Found(e) else Lookup(ents, name)
  {
    hide Lookup;
    FindCons(e, ents, name);
    NotThere(ents, e.name);
    if ents != [] && !Less(e, ents[0]) {
      LookupInsert(e, ents[1..], name);
      FindCons(ents[0], ents[1..], name);
      FindCons(ents[0], Insert(e, ents[1..]), name);
      assert ents == [ents[0]] + ents[1..];
    }
  }

  lemma NotThere(ents: seq<Item>, name: Name)
    ensures Lookup(ents, name) == Missing <==> forall x <- ents :: x.name != name
  {
    if Lookup(ents, name) == Missing {
      forall x <- ents ensures x.name != name { var j :| 0 <= j < |ents| && ents[j] == x; }
    }
  }

  lemma {:induction false} LookupWithout(ents: seq<Item>, gone: Name, name: Name)
    ensures Lookup(Without(ents, gone), name) == if name == gone then Missing else Lookup(ents, name)
  {
    if ents != [] {
      hide Lookup;
      var rest := Without(ents[1..], gone);
      LookupWithout(ents[1..], gone, name);
      FindCons(ents[0], ents[1..], name);
      FindCons(ents[0], rest, name);
      assert ents == [ents[0]] + ents[1..];
      assert [] + rest == rest;
    }
  }

  lemma {:induction false} FindUpdate(ents: seq<Item>, i: nat, b: Node, name: Name)
    requires i < |ents|
    ensures Find(ents[i := ents[i].(body := b)], name) == Find(ents, name)
  {
    var ents' := ents[i := ents[i].(body := b)];
    var f, g := Find(ents, name), Find(ents', name);
    assert forall j | 0 <= j < |ents| :: ents'[j].name == ents[j].name;
    assert forall j | 0 <= j < f :: ents'[j].name != name;
    assert forall j | 0 <= j < g :: ents[j].name != name;
  }

  // ---------------------------------------------------------------- inserting

  /** Entry `i` is what `name` is found as, and a directory. */
  ghost predicate Child(d: Node, i: nat, name: Name) {
    && d.Dir? && i < |d.ents| && d.ents[i].body.Dir?
    && d.ents[i].name == name && i == Find(d.ents, name)
  }

  /** `d` with the entry at `i` leading to `b`. */
  ghost function Relinked(d: Node, i: nat, b: Node): Node
    requires d.Dir? && i < |d.ents|
  {
    Dir(d.mode, d.ents[i := d.ents[i].(body := b)])
  }

  /** One level of a path-copying update. */
  lemma Step(d: Node, i: nat, name: Name, b: Node, q: Path)
    requires Child(d, i, name) && b.Dir? && q != []
    ensures var d' := Relinked(d, i, b);
      && (q[0] != name ==> Resolve(d', q) == Resolve(d, q))
      && (q[0] == name && |q| > 1 ==>
            Resolve(d, q) == Resolve(d.ents[i].body, q[1..]) && Resolve(d', q) == Resolve(b, q[1..]))
      && (q[0] == name && |q| == 1 ==>
            Resolve(d, q) == Found(d.ents[i]) && Resolve(d', q) == Found(d.ents[i].(body := b)))
  {
    hide Find;
    FindUpdate(d.ents, i, b, q[0]);
  }

  lemma RootMeta(d: Node, d': Node)
    requires d.Dir? && d'.Dir? && d.mode == d'.mode
    ensures SameMeta(Resolve(d, []), Resolve(d', [])) && Resolve(d, []) == Found(Dot(d))
  {
  }

  /** What an insertion below an entry does to that entry's directory. */
  lemma InsertUnfold(d: Node, path: Path, e: Item) returns (i: nat, b: Node)
    requires d.Dir? && Canonical(d) && ItemOk(e) && path != [] && InsertAt(d, path, e).Ok?
    ensures Child(d, i, path[0]) && Canonical(d.ents[i].body) && b.Dir? && Canonical(b)
    ensures InsertAt(d.ents[i].body, path[1..], e) == Ok(b) && InsertAt(d, path, e) == Ok(Relinked(d, i, b))
    ensures Canonical(Relinked(d, i, b))
  {
    hide Accepts, Canonical, Written, Resolve;
    i := Find(d.ents, path[0]);
    ItemAt(d, i);
    InsertCanonical(d.ents[i].body, path[1..], e);
    b := InsertAt(d.ents[i].body, path[1..], e).node;
    Rewrite(d, i, b);
  }

  /** The same for a removal. */
  lemma RemoveUnfold(d: Node, src: Path) returns (i: nat, b: Node)
    requires d.Dir? && Canonical(d) && |src| > 1 && RemoveAt(d, src).Ok?
    ensures Child(d, i, src[0]) && Canonical(d.ents[i].body) && b.Dir? && Canonical(b)
    ensures RemoveAt(d.ents[i].body, src[1..]) == Ok(b) && RemoveAt(d, src) == Ok(Relinked(d, i, b))
  {
    hide Accepts, Canonical, Written, Resolve;
    i := Find(d.ents, src[0]);
    ItemAt(d, i);
    RemoveCanonical(d.ents[i].body, src[1..]);
    b := RemoveAt(d.ents[i].body, src[1..]).node;
    Rewrite(d, i, b);
  }

  lemma Prefixes(p: Path, q: Path)
    requires p != [] && q != []
    ensures p <= q <==> p[0] == q[0] && p[1..] <= q[1..]
  {
    if p[0] == q[0] && p[1..] <= q[1..] {
      assert p == [p[0]] + p[1..] && q == [q[0]] + q[1..];
    }
  }

  /** Inserting succeeds exactly when the path leads to a directory that takes the entry. */
  lemma {:induction false} InsertIff(d: Node, path: Path, e: Item)
    requires d.Dir? && Canonical(d) && ItemOk(e)
    ensures InsertAt(d, path, e).Ok? <==>
      Resolve(d, path).Found? && Resolve(d, path).ent.body.Dir? && Accepts([e] + Resolve(d, path).ent.body.ents)
    decreases path
  {
    hide Accepts, Canonical;
    if path != [] {
      var i := Find(d.ents, path[0]);
      if i < |d.ents| && d.ents[i].body.Dir? {
        ItemAt(d, i);
        var b := d.ents[i].body;
        InsertIff(b, path[1..], e);
        InsertCanonical(b, path[1..], e);
        var r := InsertAt(b, path[1..], e);
        if r.Ok? { Rewrite(d, i, r.node); }
      }
    }
  }

  lemma ItemAt(d: Node, i: nat)
    requires d.Dir? && Canonical(d) && i < |d.ents|
    ensures ItemOk(d.ents[i]) && Canonical(d.ents[i].body)
  {
  }

  /** Every path after an insertion under a name that was free. */
  lemma {:induction false} InsertResolve(d: Node, path: Path, e: Item, p: Path)
    requires d.Dir? && Canonical(d) && ItemOk(e) && InsertAt(d, path, e).Ok? && Resolve(d, path + [e.name]) == Missing
    ensures var d' := InsertAt(d, path, e).node;
      && d'.Dir?
      && (path + [e.name] <= p ==> Resolve(d', p) == Below(e, p[|path| + 1..]))
      && (p <= path ==> SameMeta(Resolve(d, p), Resolve(d', p)))
      && (!(path + [e.name] <= p) && !(p <= path) ==> Resolve(d', p) == Resolve(d, p))
    decreases path
  {
    hide Canonical, InsertAt, Resolve, Child, SameMeta, ItemOk;
    var full := path + [e.name];
    if path == [] {
      assert full == [e.name];
      InsertedOk(d, e);
      InsertHere(d, e, p);
    } else {
      var i, b' := InsertUnfold(d, path, e);
      var b := ChildBody(d, i, path[0]);
      RootMeta(d, Relinked(d, i, b'));
      Step(d, i, path[0], b', full);
      assert full[1..] == path[1..] + [e.name];
      if p != [] {
        InsertResolve(b, path[1..], e, p[1..]);
        Step(d, i, path[0], b', p);
        Prefixes(full, p);
        Prefixes(p, path);
        if |p| == 1 { ChildMeta(d, i, path[0], b'); }
        if full <= p { assert p[1..][|path|..] == p[|path| + 1..]; }
      }
    }
  }

  lemma InsertedOk(d: Node, e: Item)
    requires d.Dir? && InsertAt(d, [], e).Ok?
    ensures Accepts([e] + d.ents)
  {
    hide Accepts;
  }

  lemma ChildBody(d: Node, i: nat, name: Name) returns (b: Node)
    requires Child(d, i, name)
    ensures d.Dir? && i < |d.ents| && b == d.ents[i].body && b.Dir? && d.ents[i].name == name
  {
    hide Find;
    b := d.ents[i].body;
  }

  lemma ChildMeta(d: Node, i: nat, name: Name, b: Node)
    requires Child(d, i, name) && b.Dir?
    ensures SameMeta(Found(d.ents[i]), Found(d.ents[i].(body := b)))
  {
    hide Find;
  }

  lemma InsertHere(d: Node, e: Item, p: Path)
    requires d.Dir? && Canonical(d) && Accepts([e] + d.ents) && Resolve(d, [e.name]) == Missing
    ensures InsertAt(d, [], e).Ok?
    ensures var d' := InsertAt(d, [], e).node;
      && d'.Dir? && d' == Dir(d.mode, Insert(e, d.ents))
      && ([e.name] <= p ==> Resolve(d', p) == Below(e, p[1..]))
      && (p == [] ==> SameMeta(Resolve(d, p), Resolve(d', p)))
      && (!([e.name] <= p) && p != [] ==> Resolve(d', p) == Resolve(d, p))
  {
    hide Accepts, Canonical, Less, Find;
    InsertedList(d, e);
    NotThere(d.ents, e.name);
    if p != [] {
      assert [e.name] <= p <==> p[0] == e.name;
      LookupInsert(e, d.ents, p[0]);
    }
  }

  lemma InsertedList(d: Node, e: Item)
    requires d.Dir? && Canonical(d) && Accepts([e] + d.ents)
    ensures InsertAt(d, [], e) == Ok(Dir(d.mode, Insert(e, d.ents)))
  {
    hide Accepts, Written, ItemOk, Less;
    WrittenAccepted(d.ents);
    assert ([e] + d.ents)[1..] == d.ents;
  }

  /** Inserting under a free name and removing it again gives the identical tree, whatever the depth. */
  lemma {:induction false} InsertRemove(d: Node, path: Path, e: Item)
    requires d.Dir? && Canonical(d) && ItemOk(e) && InsertAt(d, path, e).Ok? && Resolve(d, path + [e.name]) == Missing
    ensures InsertAt(d, path, e).node.Dir? && RemoveAt(InsertAt(d, path, e).node, path + [e.name]) == Ok(d)
    decreases path
  {
    hide Canonical, InsertAt, RemoveAt, Resolve, Child, ItemOk;
    var full := path + [e.name];
    if path == [] {
      assert full == [e.name];
      InsertedOk(d, e);
      RemoveHere(d, e);
    } else {
      var i, b' := InsertUnfold(d, path, e);
      var b := ChildBody(d, i, path[0]);
      assert full[1..] == path[1..] + [e.name];
      Step(d, i, path[0], b', full);
      InsertRemove(b, path[1..], e);
      RemoveRelinked(d, i, b', full);
    }
  }

  /** Removing below an entry of a rewritten directory so that its old body is back. */
  lemma RemoveRelinked(d: Node, i: nat, b': Node, path: Path)
    requires d.Dir? && Canonical(d) && |path| > 1 && Child(d, i, path[0]) && b'.Dir? && Canonical(Relinked(d, i, b'))
    requires RemoveAt(b', path[1..]) == Ok(d.ents[i].body)
    ensures RemoveAt(Relinked(d, i, b'), path) == Ok(d)
  {
    hide Accepts, Canonical, Written, Find;
    var d', b := Relinked(d, i, b'), d.ents[i].body;
    ItemAt(d, i);
    FindUpdate(d.ents, i, b', path[0]);
    Rewrite(d', i, b);
    assert d'.ents[i := d'.ents[i].(body := b)] == d.ents;
  }

  lemma RemoveHere(d: Node, e: Item)
    requires d.Dir? && Canonical(d) && Accepts([e] + d.ents) && Resolve(d, [e.name]) == Missing
    ensures InsertAt(d, [], e).Ok? && InsertAt(d, [], e).node.Dir?
    ensures RemoveAt(InsertAt(d, [], e).node, [e.name]) == Ok(d)
  {
    hide Accepts, Canonical, InsertAt, RemoveAt, Find;
    InsertedList(d, e);
    NotThere(d.ents, e.name);
    RemoveInserted(d, e);
  }

  lemma RemoveInserted(d: Node, e: Item)
    requires d.Dir? && Canonical(d) && forall x <- d.ents :: x.name != e.name
    ensures RemoveAt(Dir(d.mode, Insert(e, d.ents)), [e.name]) == Ok(d)
  {
    hide Accepts, Written, Sort, Insert, Without, Less;
    WrittenAccepted(d.ents);
    WithoutInsert(e, d.ents);
  }

  // ---------------------------------------------------------------- removing

  /** Every path after a removal. */
  lemma {:induction false} RemoveResolve(d: Node, src: Path, p: Path)
    requires d.Dir? && Canonical(d) && src != [] && RemoveAt(d, src).Ok?
    ensures var d' := RemoveAt(d, src).node;
      && d'.Dir?
      && (src <= p ==> Resolve(d', p) == Missing)
      && (p < src ==> SameMeta(Resolve(d, p), Resolve(d', p)))
      && (!(src <= p) && !(p <= src) ==> Resolve(d', p) == Resolve(d, p))
    decreases src
  {
    hide Canonical, RemoveAt, Resolve, Child, SameMeta;
    if |src| == 1 {
      RemoveLast(d, src, p);
    } else {
      var i, b' := RemoveUnfold(d, src);
      var b := ChildBody(d, i, src[0]);
      RootMeta(d, Relinked(d, i, b'));
      if p != [] {
        Step(d, i, src[0], b', p);
        Prefixes(src, p);
        Prefixes(p, src);
        if |p| > 1 { RemoveResolve(b, src[1..], p[1..]); } else { ChildMeta(d, i, src[0], b'); }
      }
    }
  }

  lemma RemoveLast(d: Node, src: Path, p: Path)
    requires d.Dir? && Canonical(d) && |src| == 1 && RemoveAt(d, src).Ok?
    ensures var d' := RemoveAt(d, src).node;
      && d'.Dir?
      && (src <= p ==> Resolve(d', p) == Missing)
      && (p < src ==> SameMeta(Resolve(d, p), Resolve(d', p)))
      && (!(src <= p) && !(p <= src) ==> Resolve(d', p) == Resolve(d, p))
  {
    hide Accepts, Less, Sort, Without, Find;
    WithoutStrict(d.ents, src[0]);
    SortStrict(Without(d.ents, src[0]));
    if p != [] {
      assert src <= p <==> p[0] == src[0];
      LookupWithout(d.ents, src[0], p[0]);
    }
  }

  /** Removing panics exactly when the parent is an empty directory. */
  lemma {:induction false} RemovePanicIff(d: Node, dir: Path, name: Name)
    requires d.Dir? && Canonical(d)
    ensures RemoveAt(d, dir + [name]) == Panic <==>
      Resolve(d, dir).Found? && Resolve(d, dir).ent.body.Dir? && Resolve(d, dir).ent.body.ents == []
    decreases dir
  {
    hide Accepts, Canonical;
    var path := dir + [name];
    if dir != [] {
      assert path[1..] == dir[1..] + [name];
      var i := Find(d.ents, dir[0]);
      if i < |d.ents| && d.ents[i].body.Dir? {
        ItemAt(d, i);
        RemovePanicIff(d.ents[i].body, dir[1..], name);
      }
    }
  }

  /** Removing succeeds exactly when the parent has such a name and takes its other entries. */
  lemma {:induction false} RemoveIff(d: Node, dir: Path, name: Name)
    requires d.Dir? && Canonical(d)
    ensures RemoveAt(d, dir + [name]).Ok? <==>
      && Resolve(d, dir).Found? && Resolve(d, dir).ent.body.Dir?
      && Lookup(Resolve(d, dir).ent.body.ents, name).Found? && Accepts(Without(Resolve(d, dir).ent.body.ents, name))
    decreases dir
  {
    hide Accepts, Canonical;
    var path := dir + [name];
    if dir == [] {
      NotThere(d.ents, name);
      WithoutItems(d.ents, name);
    } else {
      assert path[1..] == dir[1..] + [name];
      var i := Find(d.ents, dir[0]);
      if i < |d.ents| && d.ents[i].body.Dir? {
        ItemAt(d, i);
        var b := d.ents[i].body;
        RemoveIff(b, dir[1..], name);
        RemoveCanonical(b, path[1..]);
        var r := RemoveAt(b, path[1..]);
        if r.Ok? { Rewrite(d, i, r.node); }
      }
    }
  }

  // ---------------------------------------------------------------- paths

  lemma {:induction false} ResolveAppend(d: Node, p: Path, q: Path)
    requires d.Dir? && Resolve(d, p).Found?
    ensures Resolve(d, p + q) == Below(Resolve(d, p).ent, q)
    decreases p
  {
    if p == [] {
      assert p + q == q;
    } else {
      assert (p + q)[1..] == p[1..] + q;
      var e := Lookup(d.ents, p[0]).ent;
      if |p| == 1 { assert p[1..] + q == q; } else { ResolveAppend(e.body, p[1..], q); }
    }
  }

  lemma {:induction false} PrefixFound(d: Node, p: Path, q: Path)
    requires d.Dir? && q <= p && Resolve(d, p).Found?
    ensures Resolve(d, q).Found?
    decreases p
  {
    if q != [] {
      Prefixes(q, p);
      var e := Lookup(d.ents, p[0]).ent;
      if |p| > 1 && |q| > 1 { PrefixFound(e.body, p[1..], q[1..]); }
    }
  }

  // ---------------------------------------------------------------- directories after an insertion

  /** An accepted list has no two entries of one name and kind. */
  lemma NoTwin(e: Item, ents: seq<Item>, x: Item)
    requires Accepts([e] + ents) && x in ents && x.IsDir()
    ensures !(e.IsDir() && e.name == x.name)
  {
    hide Sort, Less;
    var es := [e] + ents;
    var s := Sort(es);
    SortSorts(es);
    CheckedStrict(s);
    SameMembers(es, s, e);
    SameMembers(es, s, x);
    var i :| 0 <= i < |s| && s[i] == e;
    var j :| 0 <= j < |s| && s[j] == x;
    LessTotal(e, x);
    var k :| 0 <= k < |ents| && ents[k] == x;
    assert es[k + 1] == x && es[0] == e;
    if e == x { TwiceCounts(es, 0, k + 1); }
    StrictOnce(s, j);
  }

  /** A new entry is never found in place of a directory that was there. */
  lemma {:induction false} LookupDirInsert(e: Item, ents: seq<Item>, name: Name)
    requires Strict(ents) && Lookup(ents, name).Found? && Lookup(ents, name).ent.IsDir()
    requires !(e.IsDir() && e.name == name)
    ensures Lookup(Insert(e, ents), name) == Lookup(ents, name)
  {
    hide Lookup;
    NotThere(ents, name);
    var x := Lookup(ents, name).ent;
    FoundIn(ents, name);
    assert ents == [ents[0]] + ents[1..];
    FindCons(ents[0], ents[1..], name);
    if Less(e, ents[0]) {
      FindCons(e, ents, name);
      var k :| 0 <= k < |ents| && ents[k] == x;
      assert k > 0 ==> Less(ents[0], ents[k]);
    } else {
      FindCons(ents[0], Insert(e, ents[1..]), name);
      if ents[0].name != name {
        StrictTail(ents);
        LookupDirInsert(e, ents[1..], name);
      }
    }
  }

  lemma FoundIn(ents: seq<Item>, name: Name)
    requires Lookup(ents, name).Found?
    ensures Lookup(ents, name).ent in ents && Lookup(ents, name).ent.name == name
  {
  }

  ghost predicate IsDirAt(d: Node, p: Path)
    requires d.Dir?
  {
    Resolve(d, p).Found? && Resolve(d, p).ent.body.Dir?
  }

  ghost function EntsAt(d: Node, p: Path): seq<Item>
    requires d.Dir? && IsDirAt(d, p)
  {
    Resolve(d, p).ent.body.ents
  }

  /** Every directory after any insertion: the target gains the entry, those on the way to it keep
      names and modes, the others do not change. */
  lemma {:induction false} InsertDirs(d: Node, path: Path, e: Item, p: Path)
    requires d.Dir? && Canonical(d) && ItemOk(e) && InsertAt(d, path, e).Ok? && IsDirAt(d, p)
    ensures var d' := InsertAt(d, path, e).node;
      && d'.Dir? && IsDirAt(d', p)
      && (p == path ==> EntsAt(d', p) == Insert(e, EntsAt(d, p)))
      && (p < path ==> SameShape(EntsAt(d, p), EntsAt(d', p)))
      && (!(p <= path) ==> EntsAt(d', p) == EntsAt(d, p))
    decreases path
  {
    hide Canonical, InsertAt, Resolve, Child, ItemOk, Insert, SameShape;
    if path == [] {
      InsertedOk(d, e);
      InsertedList(d, e);
      RootMeta(d, InsertAt(d, path, e).node);
      RootMeta(InsertAt(d, path, e).node, d);
      if p != [] { DirsHere(d, e, p); }
    } else {
      var i, b' := InsertUnfold(d, path, e);
      var b := ChildBody(d, i, path[0]);
      var d' := Relinked(d, i, b');
      RootMeta(d, d');
      RootMeta(d', d);
      RelinkedShape(d, i, b');
      if p != [] {
        Step(d, i, path[0], b', p);
        Prefixes(p, path);
        if p[0] == path[0] {
          RootMeta(b, b);
          RootMeta(b', b');
          assert p == [p[0]] + p[1..] && path == [path[0]] + path[1..];
          InsertDirs(b, path[1..], e, p[1..]);
        }
      }
    }
  }

  lemma RelinkedShape(d: Node, i: nat, b: Node)
    requires d.Dir? && i < |d.ents|
    ensures SameShape(d.ents, Relinked(d, i, b).ents)
  {
  }

  lemma DirsHere(d: Node, e: Item, p: Path)
    requires d.Dir? && Canonical(d) && Accepts([e] + d.ents) && p != [] && IsDirAt(d, p)
    ensures Resolve(Dir(d.mode, Insert(e, d.ents)), p) == Resolve(d, p)
  {
    hide Accepts, Less, Find, Written;
    var x := Lookup(d.ents, p[0]).ent;
    FoundIn(d.ents, p[0]);
    assert Resolve(d, p) == Below(x, p[1..]);
    CanonicalList(d, x);
    NoTwin(e, d.ents, x);
    LookupDirInsert(e, d.ents, p[0]);
  }

  lemma CanonicalList(d: Node, x: Item)
    requires d.Dir? && Canonical(d) && x in d.ents
    ensures Strict(d.ents) && (x.IsDir() <==> x.body.Dir?)
  {
    hide Checked, NamesFit, Less;
    var k :| 0 <= k < |d.ents| && d.ents[k] == x;
    assert ItemOk(d.ents[k]);
  }

  // ---------------------------------------------------------------- moving

  /** What is left of the source's parent once the copy is made and the source is gone. */
  ghost function Leftover(d: Node, dir: Path, e: Item, src: Path): seq<Item>
    requires d.Dir? && src != [] && IsDirAt(d, src[..|src| - 1])
  {
    var parent := src[..|src| - 1];
    Without(if parent == dir then Insert(e, EntsAt(d, parent)) else EntsAt(d, parent), src[|src| - 1])
  }

  /** The source is there and not the root, the destination is a directory that takes it, and what is
      left of the source's parent is taken too. */
  ghost predicate MoveAllowed(d: Node, dir: Path, name: Name, src: Path)
    requires d.Dir?
  {
    && src != [] && Resolve(d, src).Found? && IsDirAt(d, dir) && IsDirAt(d, src[..|src| - 1])
    && Accepts([Moved(d, name, src)] + EntsAt(d, dir))
    && Accepts(Leftover(d, dir, Moved(d, name, src), src))
  }

  /** A move succeeds exactly when it is allowed, and never panics. */
  lemma MoveIff(d: Node, dir: Path, name: Name, src: Path)
    requires d.Dir? && Canonical(d)
    ensures MoveTo(d, dir, name, src).Ok? <==> MoveAllowed(d, dir, name, src)
    ensures MoveTo(d, dir, name, src) != Panic
  {
    hide Accepts, Canonical, InsertAt, RemoveAt, Resolve, ItemOk;
    if Resolve(d, src).Found? {
      var e := Moved(d, name, src);
      ResolveCanonical(d, src);
      MovedOk(d, name, src);
      InsertIff(d, dir, e);
      InsertCanonical(d, dir, e);
      if src != [] {
        ParentHas(d, src);
        if InsertAt(d, dir, e).Ok? { RemoveMoved(d, dir, e, src); }
      }
    }
  }

  lemma MovedOk(d: Node, name: Name, src: Path)
    requires d.Dir? && Resolve(d, src).Found? && ItemOk(Resolve(d, src).ent)
    ensures ItemOk(Moved(d, name, src))
  {
    hide Canonical;
  }

  /** The parent of a path that leads somewhere is a directory with an entry of that name. */
  lemma {:induction false} ParentHas(d: Node, src: Path)
    requires d.Dir? && src != [] && Resolve(d, src).Found?
    ensures IsDirAt(d, src[..|src| - 1]) && Lookup(EntsAt(d, src[..|src| - 1]), src[|src| - 1]).Found?
    decreases src
  {
    if |src| == 1 {
      assert src[..0] == [];
    } else {
      var x := Lookup(d.ents, src[0]).ent;
      ParentHas(x.body, src[1..]);
      assert src[1..][..|src| - 2] == src[..|src| - 1][1..];
    }
  }

  /** Removing the source after the copy: it works exactly if what is left is taken. */
  lemma RemoveMoved(d: Node, dir: Path, e: Item, src: Path)
    requires d.Dir? && Canonical(d) && ItemOk(e) && InsertAt(d, dir, e).Ok? && src != []
    requires IsDirAt(d, src[..|src| - 1]) && Lookup(EntsAt(d, src[..|src| - 1]), src[|src| - 1]).Found?
    ensures var c := InsertAt(d, dir, e).node;
      c.Dir? && RemoveAt(c, src) != Panic && (RemoveAt(c, src).Ok? <==> Accepts(Leftover(d, dir, e, src)))
  {
    hide Accepts, Canonical, InsertAt, RemoveAt, Resolve, ItemOk, Insert, Without, Find;
    var parent, n := src[..|src| - 1], src[|src| - 1];
    var c := InsertAt(d, dir, e).node;
    InsertCanonical(d, dir, e);
    InsertDirs(d, dir, e, parent);
    assert src == parent + [n];
    RemoveIff(c, parent, n);
    RemovePanicIff(c, parent, n);
    var was, now := EntsAt(d, parent), EntsAt(c, parent);
    StillHas(e, was, now, n);
    DirStrict(d, parent);
    DirStrict(c, parent);
    if parent < dir { ShapeAccepts(was, now, n); }
  }

  lemma StillHas(e: Item, was: seq<Item>, now: seq<Item>, n: Name)
    requires Lookup(was, n).Found? && (now == was || now == Insert(e, was) || SameShape(was, now))
    ensures Lookup(now, n).Found? && now != []
  {
    hide Less, Find;
    NotThere(was, n);
    NotThere(now, n);
    FoundIn(was, n);
    var x := Lookup(was, n).ent;
    if now == Insert(e, was) {
      assert x in multiset(was) && x in multiset(now);
    } else if now != was {
      var k :| 0 <= k < |was| && was[k] == x;
      assert now[k] in now && now[k].name == n;
    }
  }

  lemma DirStrict(d: Node, p: Path)
    requires d.Dir? && Canonical(d) && IsDirAt(d, p)
    ensures Strict(EntsAt(d, p))
  {
    hide Less, Checked, NamesFit, Resolve;
    ResolveCanonical(d, p);
  }

  /** Whether entries are taken once a name is gone depends on names and modes alone. */
  lemma ShapeAccepts(a: seq<Item>, b: seq<Item>, n: Name)
    requires SameShape(a, b) && Strict(a) && Strict(b)
    ensures Accepts(Without(a, n)) <==> Accepts(Without(b, n))
  {
    hide Without, Less, Checked, NamesFit, Sort, SameShape, Strict;
    WithoutStrict(a, n);
    WithoutStrict(b, n);
    SortStrict(Without(a, n));
    SortStrict(Without(b, n));
    ShapeWithout(a, b, n);
    SameChecked(Without(a, n), Without(b, n));
  }

  lemma {:induction false} ShapeWithout(a: seq<Item>, b: seq<Item>, n: Name)
    requires SameShape(a, b)
    ensures SameShape(Without(a, n), Without(b, n))
  {
    if a != [] {
      ShapeWithout(a[1..], b[1..], n);
      hide Without, SameShape;
      ShapeStep(a, b, n);
    }
  }

  lemma ShapeStep(a: seq<Item>, b: seq<Item>, n: Name)
    requires SameShape(a, b) && a != [] && SameShape(Without(a[1..], n), Without(b[1..], n))
    ensures SameShape(Without(a, n), Without(b, n))
  {
    WithoutCons(a, n);
    WithoutCons(b, n);
    hide Without;
    if a[0].name != n {
      ShapeCons(a[0], b[0], Without(a[1..], n), Without(b[1..], n));
    }
  }

  lemma WithoutCons(a: seq<Item>, n: Name)
    requires a != []
    ensures Without(a, n) == if a[0].name == n then Without(a[1..], n) else [a[0]] + Without(a[1..], n)
  {
  }

  lemma ShapeCons(x: Item, y: Item, a: seq<Item>, b: seq<Item>)
    requires SameShape(a, b) && x.name == y.name && x.mode == y.mode
    ensures SameShape([x] + a, [y] + b)
  {
  }

  /** The entry a move is about, under its new name. */
  ghost function Moved(d: Node, name: Name, src: Path): Item
    requires d.Dir? && Resolve(d, src).Found?
  {
    Resolve(d, src).ent.(name := name)
  }

  lemma MoveParts(d: Node, dir: Path, name: Name, src: Path)
    requires d.Dir? && Canonical(d) && MoveTo(d, dir, name, src).Ok?
    ensures src != [] && Resolve(d, src).Found? && ItemOk(Moved(d, name, src))
    ensures InsertAt(d, dir, Moved(d, name, src)).Ok?
    ensures var c := InsertAt(d, dir, Moved(d, name, src)).node;
      c.Dir? && Canonical(c) && MoveTo(d, dir, name, src) == RemoveAt(c, src)
    ensures MoveTo(d, dir, name, src).node.Dir?
  {
    hide Canonical;
    ResolveCanonical(d, src);
    InsertCanonical(d, dir, Moved(d, name, src));
    RemoveCanonical(InsertAt(d, dir, Moved(d, name, src)).node, src);
  }

  /** After a move to a free name the source is gone, and the destination resolves to the old source
      exactly when it is not inside the source. */
  lemma MoveEnds(d: Node, dir: Path, name: Name, src: Path)
    requires d.Dir? && Canonical(d) && MoveTo(d, dir, name, src).Ok? && Resolve(d, dir + [name]) == Missing
    ensures var d' := MoveTo(d, dir, name, src).node;
      && d'.Dir? && Resolve(d, src).Found? && Resolve(d', src) == Missing
      && (Resolve(d', dir + [name]) == Found(Moved(d, name, src)) <==> !(src <= dir + [name]))
      && (src <= dir + [name] ==> Resolve(d', dir + [name]) == Missing)
  {
    MoveParts(d, dir, name, src);
    MoveBelow(d, dir, name, src, []);
    var c := InsertAt(d, dir, Moved(d, name, src)).node;
    RemoveResolve(c, src, src);
    RemoveResolve(c, src, dir + [name]);
    assert dir + [name] + [] == dir + [name];
  }

  /** Everything below the source is found below the destination. */
  lemma MoveBelow(d: Node, dir: Path, name: Name, src: Path, q: Path)
    requires d.Dir? && Canonical(d) && MoveTo(d, dir, name, src).Ok? && Resolve(d, dir + [name]) == Missing
    ensures MoveTo(d, dir, name, src).node.Dir? && Resolve(d, src).Found?
    ensures !(src <= dir + [name]) ==>
      var r := Resolve(MoveTo(d, dir, name, src).node, dir + [name] + q);
      r == Below(Moved(d, name, src), q) && (q != [] ==> r == Resolve(d, src + q))
  {
    hide Canonical, InsertAt, RemoveAt, Resolve, ItemOk;
    MoveParts(d, dir, name, src);
    var dst := dir + [name];
    var e := Moved(d, name, src);
    var c := InsertAt(d, dir, e).node;
    InsertResolve(d, dir, e, dst + q);
    RemoveResolve(c, src, dst + q);
    if dst <= src { PrefixFound(d, src, dst); }
    Comparable(src, dst, q);
    ResolveAppend(d, src, q);
    assert (dst + q)[|dir| + 1..] == q;
  }

  lemma Comparable(src: Path, dst: Path, q: Path)
    ensures src <= dst + q || dst + q <= src ==> src <= dst || dst <= src
  {
    if src <= dst + q {
      assert |src| <= |dst| ==> (dst + q)[..|src|] == dst[..|src|];
      assert |src| > |dst| ==> src[..|dst|] == (dst + q)[..|dst|] == dst;
    }
    if dst + q <= src { assert src[..|dst|] == (dst + q)[..|dst|] == dst; }
  }

  /** No other path changes; the directories on the way to either end keep their attributes. */
  lemma MoveOthers(d: Node, dir: Path, name: Name, src: Path, p: Path)
    requires d.Dir? && Canonical(d) && MoveTo(d, dir, name, src).Ok? && Resolve(d, dir + [name]) == Missing
    requires !(src <= p) && !(dir + [name] <= p)
    ensures var d' := MoveTo(d, dir, name, src).node;
      && d'.Dir?
      && (p <= src || p <= dir ==> SameMeta(Resolve(d, p), Resolve(d', p)))
      && (!(p <= src) && !(p <= dir) ==> Resolve(d', p) == Resolve(d, p))
  {
    hide Canonical, InsertAt, RemoveAt, Resolve, ItemOk;
    MoveParts(d, dir, name, src);
    var e := Moved(d, name, src);
    var c := InsertAt(d, dir, e).node;
    InsertResolve(d, dir, e, p);
    RemoveResolve(c, src, p);
  }

  // ---------------------------------------------------------------- examples

  /** An empty directory, and an entry for it. */
  ghost const EMPTY: Node := Dir(MODE_DIR, [])

  ghost function EmptyAt(name: Name): Item {
    Ent(name, 0, 0, MODE_DIR, EMPTY)
  }

  lemma OneTaken(mode: Mode, e: Item)
    requires |e.name| <= MAX_NAME
    ensures MakeDir(mode, [e]) == Ok(Dir(AsDir(mode), [e])) && MakeDir(mode, []) == Ok(Dir(AsDir(mode), []))
  {
    assert Written([e]) && Written<Node>([]);
    WrittenAccepted([e]);
    WrittenAccepted<Node>([]);
  }

  /** Removing anything from an empty directory panics. */
  lemma EmptyPanics(name: Name)
    ensures Canonical(EMPTY) && RemoveAt(EMPTY, [name]) == Panic
  {
  }

  /** Moving the directory a to a/b leaves nothing. */
  lemma MoveInside(a: Name, b: Name)
    requires |a| <= MAX_NAME && |b| <= MAX_NAME
    ensures var d := Dir(MODE_DIR, [EmptyAt(a)]);
      CopyTo(d, [a], b, [a]).Ok? && MoveTo(d, [a], b, [a]) == Ok(EMPTY)
  {
    hide MakeDir;
    var x, e := EmptyAt(a), EmptyAt(b);
    var d, full := Dir(MODE_DIR, [x]), Dir(MODE_DIR, [e]);
    var x' := x.(body := full);
    OneTaken(MODE_DIR, e);
    OneTaken(MODE_DIR, x');
    assert Resolve(d, [a]) == Found(x);
    assert x.(name := b) == e && [e] + [] == [e];
    assert InsertAt(EMPTY, [], e) == Ok(full);
    assert [x][0 := x'] == [x'] && [a][1..] == [];
    assert InsertAt(d, [a], e) == Ok(Dir(MODE_DIR, [x']));
    assert Without([x'], a) == [];
  }

  lemma TwinsFound(x: Node, y: Node, z: Node)
    ensures var es := Twins(x, y, z);
      Find(es, [97]) == 0 && Find(es, [98]) == 1 && Without(es, [98]) == [es[0], es[2]]
  {
    var es := Twins(x, y, z);
    assert es[1..] == [es[1], es[2]] && es[1..][1..] == [es[2]] && es[1..][1..][1..] == [];
    assert Without([es[2]], [98]) == [es[2]];
    assert Without([es[1], es[2]], [98]) == [es[2]];
  }

  lemma TwinsMade(x: Node, y: Node, z: Node)
    ensures MakeDir(MODE_DIR, Twins(x, y, z)) == Ok(Dir(MODE_DIR, Twins(x, y, z)))
  {
    hide Accepts, Sort, Twins;
    DuplicateTaken(x, y, z);
  }

  lemma TwinsReplace(x: Node, x': Node, y: Node, z: Node)
    ensures var es := Twins(x, y, z); es[0].body == x && es[0 := es[0].(body := x')] == Twins(x', y, z)
  {
  }

  /** With directories a and b and a file a, moving b into the directory a is refused after the copy. */
  lemma MoveRefused(file: Node)
    requires file.File?
    ensures var d := Dir(MODE_DIR, Twins(EMPTY, EMPTY, file));
      CopyTo(d, [[97]], [98], [[98]]).Ok? && MoveTo(d, [[97]], [98], [[98]]) == Err
  {
    hide Accepts, Sort, Find, Without, InsertAt, RemoveAt;
    var es := Twins(EMPTY, EMPTY, file);
    TwinsFound(EMPTY, EMPTY, file);
    var a: Path, b: Path := [[97]], [[98]];
    assert Resolve(Dir(MODE_DIR, es), b) == Found(EmptyAt([98]));
    TwinsInsert(file);
    TwinsRemove(Dir(MODE_DIR, [EmptyAt([98])]), file);
  }

  lemma TwinsInsert(file: Node)
    ensures var full := Dir(MODE_DIR, [EmptyAt([98])]);
      InsertAt(Dir(MODE_DIR, Twins(EMPTY, EMPTY, file)), [[97]], EmptyAt([98])) ==
        Ok(Dir(MODE_DIR, Twins(full, EMPTY, file)))
  {
    hide Accepts, Sort, Find, Twins, MakeDir;
    var e, full := EmptyAt([98]), Dir(MODE_DIR, [EmptyAt([98])]);
    var es, es' := Twins(EMPTY, EMPTY, file), Twins(full, EMPTY, file);
    OneTaken(MODE_DIR, e);
    TwinsFound(EMPTY, EMPTY, file);
    assert [e] + [] == [e];
    assert InsertAt(EMPTY, [], e) == Ok(full);
    assert MakeDir(MODE_DIR, es') == Ok(Dir(MODE_DIR, es')) by { TwinsMade(full, EMPTY, file); }
    TwinsReplace(EMPTY, full, EMPTY, file);
    var path: Path := [[97]];
    assert path[1..] == [];
  }

  lemma TwinsRemove(x: Node, file: Node)
    ensures RemoveAt(Dir(MODE_DIR, Twins(x, EMPTY, file)), [[98]]) == Err
  {
    hide Accepts, Sort, Find, Without;
    TwinsFound(x, EMPTY, file);
    DuplicateTaken(x, EMPTY, file);
  }
}
