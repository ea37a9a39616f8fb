/**
 Pack files: values one after the other, then an index sorted by key, then the offset of the index.
 Every number is little-endian; key and value lengths have 24 bits, counts and offsets 64.
 */
module BPack {
  import opened Bytes

  type Key = seq<byte>
  datatype IndexEnt = IndexEnt(key: Key, size: nat, offset: nat)
  type Index = seq<IndexEnt>

  /** One value of a pack, under its key. */
  datatype Entry = Entry(key: Key, val: seq<byte>)

  const MAX_ENTRY: nat := 16777215

  // ---------------------------------------------------------------- key order

  /** Go's string order: bytewise, a proper prefix comes first. */
  predicate KeyLess(l: Key, r: Key) {
    if r == [] then false
    else if l == [] then true
    else if l[0] != r[0] then l[0] < r[0]
    else KeyLess(l[1..], r[1..])
  }

  function KeyCmp(l: Key, r: Key): int {
    if l == r then 0 else if KeyLess(l, r) then -1 else 1
  }

  lemma {:induction false} KeyLessTotal(l: Key, r: Key)
    ensures l == r ==> !KeyLess(l, r)
    ensures l != r ==> (KeyLess(l, r) <==> !KeyLess(r, l))
  {
    if l != [] && r != [] && l[0] == r[0] {
      KeyLessTotal(l[1..], r[1..]);
      assert l == [l[0]] + l[1..] && r == [r[0]] + r[1..];
    }
  }

  lemma {:induction false} KeyLessTrans(a: Key, b: Key, c: Key)
    requires KeyLess(a, b) && KeyLess(b, c)
    ensures KeyLess(a, c)
  {
    if a != [] && a[0] == b[0] == c[0] {
      KeyLessTrans(a[1..], b[1..], c[1..]);
    }
  }

  // ---------------------------------------------------------------- sorting

  /** Strictly ascending keys. */
  ghost predicate Sorted(idx: Index) {
    forall i, j | 0 <= i < j < |idx| :: KeyLess(idx[i].key, idx[j].key)
  }

  ghost predicate DistinctKeys(idx: Index) {
    forall i, j | 0 <= i < j < |idx| :: idx[i].key != idx[j].key
  }

  function Insert(e: IndexEnt, idx: Index): (r: Index)
    ensures |r| == |idx| + 1 && multiset(r) == multiset(idx) + multiset{e}
  {
    if idx == [] || KeyLess(e.key, idx[0].key) then [e] + idx
    else
      assert idx == [idx[0]] + idx[1..];
      [idx[0]] + Insert(e, idx[1..])
  }

  /** Stands for sort.Sort; `SortedUnique` shows that with distinct keys there is no choice. */
  function Sort(idx: Index): (r: Index)
    ensures |r| == |idx| && multiset(r) == multiset(idx)
  {
    if idx == [] then []
    else
      assert idx == [idx[0]] + idx[1..];
      Insert(idx[0], Sort(idx[1..]))
  }

  lemma {:induction false} InsertSorted(e: IndexEnt, idx: Index)
    requires Sorted(idx) && forall x <- idx :: x.key != e.key
    ensures Sorted(Insert(e, idx))
  {
    if idx == [] {
    } else if KeyLess(e.key, idx[0].key) {
      forall j | 0 <= j < |idx| ensures KeyLess(e.key, idx[j].key) {
        if j > 0 { KeyLessTrans(e.key, idx[0].key, idx[j].key); }
      }
    } else {
      var rest := Insert(e, idx[1..]);
      InsertSorted(e, idx[1..]);
      KeyLessTotal(e.key, idx[0].key);
      forall j | 0 <= j < |rest| ensures KeyLess(idx[0].key, rest[j].key) {
        assert rest[j] in multiset(rest);
        assert rest[j] == e || rest[j] in multiset(idx[1..]);
      }
    }
  }

  lemma {:induction false} SortSorts(idx: Index)
    requires DistinctKeys(idx)
    ensures Sorted(Sort(idx))
  {
    if idx != [] {
      SortSorts(idx[1..]);
      forall x <- Sort(idx[1..]) ensures x.key != idx[0].key {
        SameMembers(Sort(idx[1..]), idx[1..], x);
        var j :| 0 <= j < |idx[1..]| && idx[1..][j] == x;
        assert idx[j + 1] == x;
      }
      InsertSorted(idx[0], Sort(idx[1..]));
    }
  }

  /** A sorted index is determined by its entries: any sorting algorithm gives the same one. */
  lemma {:induction false} SortedUnique(a: Index, b: Index)
    requires Sorted(a) && Sorted(b) && multiset(a) == multiset(b)
    ensures a == b
  {
    hide KeyLess;
    SameLength(a, b);
    if a != [] {
      FirstLeast(a, b);
      TailMultiset(a);
      TailMultiset(b);
      SortedTails(a, b);
      SortedUnique(a[1..], b[1..]);
      assert a == [a[0]] + a[1..] && b == [b[0]] + b[1..];
    }
  }

  lemma SortedTails(a: Index, b: Index)
    requires Sorted(a) && Sorted(b) && a != [] && b != []
    ensures Sorted(a[1..]) && Sorted(b[1..])
  {
    hide KeyLess;
  }

  lemma FirstLeast(a: Index, b: Index)
    requires Sorted(a) && Sorted(b) && multiset(a) == multiset(b) && a != [] && b != []
    ensures a[0] == b[0]
  {
    SameMembers(a, b, a[0]);
    SameMembers(a, b, b[0]);
    var i :| 0 <= i < |b| && b[i] == a[0];
    var j :| 0 <= j < |a| && a[j] == b[0];
    KeyLessTotal(a[0].key, b[0].key);
    assert i == 0 || KeyLess(b[0].key, b[i].key);
  }

  // ---------------------------------------------------------------- search

  /** Bisection. In a sorted index it finds the entry of `key` exactly when there is one. */
  method Search(idx: Index, key: Key) returns (at: int, found: bool)
    ensures found ==> 0 <= at < |idx| && idx[at].key == key
    ensures Sorted(idx) && !found ==> forall e <- idx :: e.key != key
  {
    var lo, hi := 0, |idx| - 1;
    while lo <= hi
      invariant 0 <= lo <= hi + 1 <= |idx|
      invariant Sorted(idx) ==> forall i | 0 <= i < |idx| && !(lo <= i <= hi) :: idx[i].key != key
      decreases hi - lo
    {
      var mid := (hi + lo) / 2;
      var c := KeyCmp(key, idx[mid].key);
      if c == 0 { return mid, true; }
      ghost var pivot := idx[mid].key;
      KeyLessTotal(key, pivot);
      if Sorted(idx) {
        forall i | 0 <= i < |idx| && (if c < 0 then i >= mid else i <= mid) ensures idx[i].key != key {
          KeyLessTotal(idx[i].key, pivot);
          assert c < 0 && i > mid ==> KeyLess(pivot, idx[i].key);
          assert c >= 0 && i < mid ==> KeyLess(idx[i].key, pivot);
        }
      }
      if c < 0 { hi := mid - 1; } else { lo := mid + 1; }
    }
    return -1, false;
  }

  // ---------------------------------------------------------------- layout of the values

  function ValOf(e: Entry): seq<byte> {
    e.val
  }

  function Values(es: seq<Entry>): seq<byte> {
    Flat(ValOf, es)
  }

  /** The index in the order of writing: offsets tile the value region. */
  function IndexOf(es: seq<Entry>, off: nat): (idx: Index)
    ensures |idx| == |es|
  {
    if es == [] then [] else [IndexEnt(es[0].key, |es[0].val|, off)] + IndexOf(es[1..], off + |es[0].val|)
  }

  lemma IndexCons(e: Entry, es: seq<Entry>, off: nat)
    ensures IndexOf([e] + es, off) == [IndexEnt(e.key, |e.val|, off)] + IndexOf(es, off + |e.val|)
    ensures Values([e] + es) == e.val + Values(es) && IndexOf([], off) == [] && Values([]) == []
  {
    assert ([e] + es)[1..] == es;
    FlatCons(ValOf, e, es);
  }

  lemma {:induction false} IndexAppend(es: seq<Entry>, e: Entry, off: nat)
    ensures IndexOf(es + [e], off) == IndexOf(es, off) + [IndexEnt(e.key, |e.val|, off + |Values(es)|)]
    ensures Values(es + [e]) == Values(es) + e.val
  {
    hide IndexOf, Values;
    IndexCons(e, [], off);
    assert [e] + [] == [e];
    if es == [] {
      assert es + [e] == [e];
    } else {
      var x, xs := es[0], es[1..];
      IndexAppend(xs, e, off + |x.val|);
      assert es == [x] + xs && es + [e] == [x] + (xs + [e]);
      IndexJoin(x, xs, e, off);
    }
  }

  lemma IndexJoin(x: Entry, xs: seq<Entry>, e: Entry, off: nat)
    requires var o := off + |x.val|;
      IndexOf(xs + [e], o) == IndexOf(xs, o) + [IndexEnt(e.key, |e.val|, o + |Values(xs)|)]
    requires Values(xs + [e]) == Values(xs) + e.val
    ensures var es := [x] + xs;
      && IndexOf([x] + (xs + [e]), off) == IndexOf(es, off) + [IndexEnt(e.key, |e.val|, off + |Values(es)|)]
      && Values([x] + (xs + [e])) == Values(es) + e.val
  {
    hide IndexOf, Values;
    IndexCons(x, xs, off);
    IndexCons(x, xs + [e], off);
    Assoc(x.val, Values(xs), e.val);
  }

  /** An index entry points at its own value. */
  lemma {:induction false} IndexAt(es: seq<Entry>, off: nat, i: nat)
    requires i < |es|
    ensures var x, o := IndexOf(es, off)[i], |Values(es[..i])|;
            && x == IndexEnt(es[i].key, |es[i].val|, off + o)
            && o + x.size <= |Values(es)|
            && Values(es)[o..o + x.size] == es[i].val
  {
    hide IndexOf, Values;
    var x, xs := es[0], es[1..];
    assert es == [x] + xs;
    IndexCons(x, xs, off);
    if i == 0 {
      IndexCons(x, [], off);
      assert es[..i] == [];
    } else {
      IndexAt(xs, off + |x.val|, i - 1);
      assert es[..i] == [x] + xs[..i - 1];
      IndexCons(x, xs[..i - 1], off);
      var o := |Values(xs[..i - 1])|;
      SliceRight(x.val, Values(xs), o, o + |es[i].val|);
    }
  }

  // ---------------------------------------------------------------- encoding

  function EncodeEnt(e: IndexEnt): seq<byte> {
    LE(|e.key|, 3) + e.key + LE(e.size, 3) + LE(e.offset, 8)
  }

  /** What WriteIndex writes for an index already in order. */
  function EncodeIndex(idx: Index): seq<byte> {
    LE(|idx|, 8) + Flat(EncodeEnt, idx)
  }

  function PackBytes(es: seq<Entry>): seq<byte> {
    Values(es) + EncodeIndex(Sort(IndexOf(es, 0))) + LE(|Values(es)|, 8)
  }

  // ---------------------------------------------------------------- a pack as a map

  ghost predicate Distinct(es: seq<Entry>) {
    forall i, j | 0 <= i < j < |es| :: es[i].key != es[j].key
  }

  function Keys(es: seq<Entry>): set<Key> {
    set e <- es :: e.key
  }

  lemma KeysSnoc(es: seq<Entry>, e: Entry)
    ensures Keys(es + [e]) == Keys(es) + {e.key}
  {
    assert e in es + [e];
    forall x <- es ensures x in es + [e] { }
  }

  predicate HasKey(es: seq<Entry>, key: Key) {
    exists e <- es :: e.key == key
  }

  /** Adding under a key that is already there changes nothing. */
  function AddEntry(es: seq<Entry>, key: Key, val: seq<byte>): seq<Entry> {
    if HasKey(es, key) then es else es + [Entry(key, val)]
  }

  lemma AddDistinct(es: seq<Entry>, key: Key, val: seq<byte>)
    requires Distinct(es)
    ensures Distinct(AddEntry(es, key, val))
  {
    if !HasKey(es, key) {
      forall i | 0 <= i < |es| ensures es[i].key != key { assert es[i] in es; }
    }
  }
}
