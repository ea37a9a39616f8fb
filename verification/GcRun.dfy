/**
 The sweep reads values in runs: entries that are next to each other when the index is sorted by
 offset are fetched with one read, and the buffer is cut at the entries' sizes. The sort is not
 stable, so an empty value may end up after the value it shares an offset with; a run that starts
 there reads from the wrong place.
 */
module GcRun {
  import opened Bytes
  import opened BPack

  ghost predicate OffsetSorted(idx: Index) {
    forall i, j | 0 <= i < j < |idx| :: idx[i].offset <= idx[j].offset
  }

  /** Each entry starts where the one before it ends. */
  ghost predicate Tiled(idx: Index) {
    forall i, j | 0 <= i < |idx| && 0 <= j < |idx| && j == i + 1 :: idx[i].offset + idx[i].size == idx[j].offset
  }

  function SizeSum(idx: Index): nat {
    if idx == [] then 0 else SizeSum(idx[..|idx| - 1]) + idx[|idx| - 1].size
  }

  /** Where the cut for entry `j` falls in the file when a run starts at entry `i`. */
  function Cut(idx: Index, i: nat, j: nat): nat
    requires i <= j < |idx|
  {
    idx[i].offset + SizeSum(idx[i..j])
  }

  /** Every run is cut so that each value gets its own bytes. An empty value has none to get. */
  ghost predicate RunsRight(idx: Index) {
    forall i, j | 0 <= i <= j < |idx| && idx[j].size > 0 :: Cut(idx, i, j) == idx[j].offset
  }

  /** Every cut falls on its entry's offset, also those of empty values, if and only if the index is
      tiled. */
  lemma CutsIffTiled(idx: Index)
    ensures Tiled(idx) <==> forall i, j | 0 <= i <= j < |idx| :: Cut(idx, i, j) == idx[j].offset
  {
    if Tiled(idx) {
      forall i, j | 0 <= i <= j < |idx| ensures Cut(idx, i, j) == idx[j].offset { CutTiled(idx, i, j); }
    } else {
      var i, j :| 0 <= i < |idx| && 0 <= j < |idx| && j == i + 1 && idx[i].offset + idx[i].size != idx[j].offset;
      assert idx[i..j] == [idx[i]];
      assert SizeSum([idx[i]]) == SizeSum([]) + idx[i].size by { assert [idx[i]][..0] == []; }
      assert Cut(idx, i, j) != idx[j].offset;
    }
  }

  lemma {:induction false} CutTiled(idx: Index, i: nat, j: nat)
    requires Tiled(idx) && i <= j < |idx|
    ensures Cut(idx, i, j) == idx[j].offset
    decreases j
  {
    if i == j {
      assert idx[i..j] == [];
    } else {
      CutTiled(idx, i, j - 1);
      assert idx[i..j][..j - i - 1] == idx[i..j - 1];
    }
  }

  // ---------------------------------------------------------------- which packs are safe

  /** No empty value comes before a non-empty one. */
  ghost predicate NoGap(es: seq<Entry>) {
    forall i, j | 0 <= i < j < |es| :: es[i].val == [] ==> es[j].val == []
  }

  ghost predicate Reorders(p: Index, es: seq<Entry>, off: nat) {
    multiset(p) == multiset(IndexOf(es, off)) && OffsetSorted(p)
  }

  /** Sorting by offset is not stable, so it may put an empty value after the value it shares an
      offset with. Every sorted order is tiled if and only if no empty value precedes a non-empty
      one. */
  lemma SortTilesIff(es: seq<Entry>, off: nat)
    ensures NoGap(es) <==> forall p | Reorders(p, es, off) :: Tiled(p)
  {
    if NoGap(es) {
      forall p | Reorders(p, es, off) ensures Tiled(p) { NoGapTiles(es, off, p); }
    } else {
      var i := AdjacentGap(es);
      var raw := IndexOf(es, off);
      var p := raw[i := raw[i + 1]][i + 1 := raw[i]];
      SwapGap(es, off, i);
      assert Reorders(p, es, off) && !Tiled(p);
    }
  }

  /** No empty value is followed by two non-empty ones. */
  ghost predicate CopySafe(es: seq<Entry>) {
    forall i, j, k | 0 <= i < j < k < |es| :: es[i].val == [] && es[j].val != [] ==> es[k].val == []
  }

  /** Every run of every sorted order is cut right if and only if no empty value is followed by two
      non-empty ones. */
  lemma RunsIff(es: seq<Entry>, off: nat)
    ensures CopySafe(es) <==> forall p | Reorders(p, es, off) :: RunsRight(p)
  {
    if CopySafe(es) {
      forall p | Reorders(p, es, off) ensures RunsRight(p) { SafeRuns(es, off, p); }
    } else {
      var i, k := GapThenTwo(es);
      BadRun(es, off, i, k);
    }
  }

  lemma {:induction false} SafeRuns(es: seq<Entry>, off: nat, p: Index)
    requires CopySafe(es) && Reorders(p, es, off)
    ensures RunsRight(p)
    decreases |es|
  {
    hide IndexOf, Values, Reorders, CopySafe, DropAt, SizeSum;
    if es == [] {
      NothingWritten(off, p);
    } else {
      var n := |p| - 1;
      var k := DropLast(es, off, p);
      DropSafe(es, k);
      SafeRuns(DropAt(es, k), off, p[..n]);
      IndexAt(es, off, k);
      forall i, j | 0 <= i <= j < |p| && p[j].size > 0 ensures Cut(p, i, j) == p[j].offset {
        if j < n {
          assert p[..n][i..j] == p[i..j];
          assert Cut(p[..n], i, j) == p[..n][j].offset;
        } else {
          LastCut(es, off, p, i);
        }
      }
    }
  }

  lemma DropSafe(es: seq<Entry>, k: nat)
    requires CopySafe(es) && k < |es|
    ensures CopySafe(DropAt(es, k))
  {
    var d := DropAt(es, k);
    forall a, b, c | 0 <= a < b < c < |d| ensures d[a].val == [] && d[b].val != [] ==> d[c].val == [] {
      DroppedAt(es, k, a);
      DroppedAt(es, k, b);
      DroppedAt(es, k, c);
    }
  }

  lemma DroppedAt<T>(s: seq<T>, k: nat, a: nat)
    requires k < |s| && a < |s| - 1
    ensures DropAt(s, k)[a] == s[if a < k then a else a + 1]
  {
  }

  /** When a non-empty value comes last, what precedes it is tiled, so every run reaches it right. */
  lemma LastCut(es: seq<Entry>, off: nat, p: Index, i: nat)
    requires CopySafe(es) && Reorders(p, es, off) && i < |p| == |es|
    requires p[|p| - 1] == IndexOf(es, off)[|es| - 1] && es[|es| - 1].val != []
    ensures Cut(p, i, |p| - 1) == p[|p| - 1].offset
  {
    hide IndexOf, Values, CopySafe, Reorders;
    var n := |es| - 1;
    PrefixTiles(es, off, p);
    if i < n {
      RunBytes(p[..n], i, n);
      assert p[..n][i..n] == p[i..n];
    } else {
      assert p[n..n] == [];
    }
  }

  lemma PrefixTiles(es: seq<Entry>, off: nat, p: Index)
    requires CopySafe(es) && Reorders(p, es, off) && es != [] && |p| == |es|
    requires p[|p| - 1] == IndexOf(es, off)[|es| - 1] && es[|es| - 1].val != []
    ensures var q := p[..|p| - 1]; Tiled(q) && (q != [] ==> q[|q| - 1].offset + q[|q| - 1].size == p[|p| - 1].offset)
  {
    hide IndexOf, Values, Tiled, CopySafe, NoGap;
    var n := |es| - 1;
    assert DropAt(es, n) == es[..n];
    InitNoGap(es);
    DropEntry(es, off, n);
    PrefixReorders(es, off, p);
    NoGapTiles(es[..n], off, p[..n]);
    IndexAt(es, off, n);
  }

  lemma PrefixReorders(es: seq<Entry>, off: nat, p: Index)
    requires Reorders(p, es, off) && es != [] && |p| == |es|
    requires p[|p| - 1] == IndexOf(es, off)[|es| - 1]
    ensures Reorders(p[..|p| - 1], es[..|es| - 1], off)
  {
    hide IndexOf, Values;
    var n := |es| - 1;
    assert DropAt(es, n) == es[..n];
    DropEntry(es, off, n);
    MultisetInit(p, IndexOf(es, off), n);
  }

  lemma InitNoGap(es: seq<Entry>)
    requires CopySafe(es) && es != [] && es[|es| - 1].val != []
    ensures NoGap(es[..|es| - 1])
  {
    var init := es[..|es| - 1];
    forall a, b | 0 <= a < b < |init| ensures init[a].val == [] ==> init[b].val == [] {
      assert init[a] == es[a] && init[b] == es[b];
    }
  }

  /** An empty value right before a non-empty one, and the next non-empty one after that. */
  lemma GapThenTwo(es: seq<Entry>) returns (i: nat, k: nat)
    requires !CopySafe(es)
    ensures i + 1 < k < |es| && es[i].val == [] && es[i + 1].val != [] && es[k].val != []
    ensures forall j | i + 1 < j < k :: es[j].val == []
  {
    var a, b, c :| 0 <= a < b < c < |es| && es[a].val == [] && es[b].val != [] && es[c].val != [];
    i := a;
    while es[i + 1].val == []
      invariant a <= i < b && es[i].val == []
      decreases b - i
    {
      i := i + 1;
    }
    k := i + 2;
    while es[k].val == []
      invariant i + 1 < k <= c && forall j | i + 1 < j < k :: es[j].val == []
      decreases c - k
    {
      k := k + 1;
    }
  }

  /** Swapped, the empty value starts a run that gives the next value the bytes of the one before. */
  lemma BadRun(es: seq<Entry>, off: nat, i: nat, k: nat)
    requires i + 1 < k < |es| && es[i].val == [] && es[i + 1].val != [] && es[k].val != []
    requires forall j | i + 1 < j < k :: es[j].val == []
    ensures exists p :: Reorders(p, es, off) && !RunsRight(p)
  {
    hide IndexOf, Values;
    var raw: Index := IndexOf(es, off);
    var p: Index := raw[i := raw[i + 1]][i + 1 := raw[i]];
    SwapGap(es, off, i);
    IndexAt(es, off, i);
    IndexAt(es, off, k);
    ValuesMono(es, i, k);
    forall j | i + 1 <= j < k ensures p[j].size == 0 { IndexAt(es, off, j); }
    NoSize(p, i + 1, k);
    assert Cut(p, i + 1, k) != p[k].offset;
    assert !RunsRight(p);
  }

  lemma {:induction false} NoSize(p: Index, i: nat, k: nat)
    requires i <= k <= |p| && forall j | i <= j < k :: p[j].size == 0
    ensures SizeSum(p[i..k]) == 0
    decreases k
  {
    if i < k {
      NoSize(p, i, k - 1);
      assert p[i..k][..k - i - 1] == p[i..k - 1];
    }
  }

  /** An order in which a run copies wrong bytes: with `k2` unmarked the run starts at the empty value,
      and `k3` is given the bytes of `k2`. */
  lemma WrongBytes(k1: Key, k2: Key, k3: Key)
    ensures var es := [Entry(k1, []), Entry(k2, [1]), Entry(k3, [2])];
      var p := [IndexEnt(k2, 1, 0), IndexEnt(k1, 0, 0), IndexEnt(k3, 1, 1)];
      && Reorders(p, es, 0) && Cut(p, 1, 2) + 1 <= |Values(es)|
      && Values(es)[Cut(p, 1, 2)..Cut(p, 1, 2) + 1] == [1] != es[2].val
  {
    hide IndexOf, Values, SizeSum;
    var p := [IndexEnt(k2, 1, 0), IndexEnt(k1, 0, 0), IndexEnt(k3, 1, 1)];
    ThreeValues(k1, k2, k3);
    assert multiset(p) == multiset([p[1], p[0], p[2]]);
    NoSize(p, 1, 2);
  }

  lemma ThreeValues(k1: Key, k2: Key, k3: Key)
    ensures var es := [Entry(k1, []), Entry(k2, [1]), Entry(k3, [2])];
      && IndexOf(es, 0) == [IndexEnt(k1, 0, 0), IndexEnt(k2, 1, 0), IndexEnt(k3, 1, 1)]
      && Values(es) == [1, 2]
  {
    hide IndexOf, Values;
    var a, b, c := Entry(k1, []), Entry(k2, [1]), Entry(k3, [2]);
    IndexCons(c, [], 1);
    assert [c] + [] == [c] && [b] + [c] == [b, c] && [a] + [b, c] == [a, b, c];
    IndexCons(b, [c], 0);
    IndexCons(a, [b, c], 0);
  }

  lemma AdjacentGap(es: seq<Entry>) returns (i: nat)
    requires !NoGap(es)
    ensures i + 1 < |es| && es[i].val == [] && es[i + 1].val != []
  {
    var a, b :| 0 <= a < b < |es| && es[a].val == [] && es[b].val != [];
    i := a;
    while es[i + 1].val == []
      invariant a <= i < b && es[i].val == []
      decreases b - i
    {
      i := i + 1;
    }
  }

  lemma SwapGap(es: seq<Entry>, off: nat, i: nat)
    requires i + 1 < |es| && es[i].val == [] && es[i + 1].val != []
    ensures var raw := IndexOf(es, off);
            var p := raw[i := raw[i + 1]][i + 1 := raw[i]];
            Reorders(p, es, off) && p[i].offset + p[i].size != p[i + 1].offset
  {
    hide IndexOf, Values;
    IndexAt(es, off, i);
    IndexAt(es, off, i + 1);
    ValuesStep(es, i);
    IndexOffsets(es, off);
    SwapEqual(IndexOf(es, off), i);
  }

  lemma SwapEqual(raw: Index, i: nat)
    requires OffsetSorted(raw) && i + 1 < |raw| && raw[i].offset == raw[i + 1].offset
    ensures var p := raw[i := raw[i + 1]][i + 1 := raw[i]];
            OffsetSorted(p) && multiset(p) == multiset(raw)
  {
  }

  lemma ValuesStep(es: seq<Entry>, i: nat)
    requires i < |es|
    ensures |Values(es[..i + 1])| == |Values(es[..i])| + |es[i].val|
  {
    assert es[..i + 1] == es[..i] + [es[i]];
    IndexAppend(es[..i], es[i], 0);
  }

  lemma {:induction false} ValuesMono(es: seq<Entry>, i: nat, j: nat)
    requires i <= j <= |es|
    ensures |Values(es[..i])| <= |Values(es[..j])|
    ensures (exists k :: i <= k < j && es[k].val != []) ==> |Values(es[..i])| < |Values(es[..j])|
    ensures (forall k | i <= k < j :: es[k].val == []) ==> |Values(es[..i])| == |Values(es[..j])|
    decreases j
  {
    if i < j {
      ValuesMono(es, i, j - 1);
      ValuesStep(es, j - 1);
    }
  }

  /** Offsets in the order of writing never go down. */
  lemma IndexOffsets(es: seq<Entry>, off: nat)
    ensures OffsetSorted(IndexOf(es, off))
  {
    forall i, j | 0 <= i < j < |es| ensures IndexOf(es, off)[i].offset <= IndexOf(es, off)[j].offset {
      IndexAt(es, off, i);
      IndexAt(es, off, j);
      ValuesMono(es, i, j);
    }
  }

  /** `es` without entry `k`. */
  function DropAt<T>(s: seq<T>, k: nat): (r: seq<T>)
    requires k < |s|
    ensures |r| == |s| - 1
  {
    s[..k] + s[k + 1..]
  }

  /** Leaving out the last value, or an empty one, leaves the other offsets as they are. */
  lemma {:induction false} DropEntry(es: seq<Entry>, off: nat, k: nat)
    requires k < |es| && (k == |es| - 1 || es[k].val == [])
    ensures IndexOf(DropAt(es, k), off) == DropAt(IndexOf(es, off), k)
    ensures |Values(DropAt(es, k))| + |es[k].val| == |Values(es)|
  {
    hide IndexOf, Values;
    var x, xs := es[0], es[1..];
    assert es == [x] + xs;
    IndexCons(x, xs, off);
    if k == 0 {
      assert DropAt(es, 0) == xs;
      assert |es| == 1 ==> xs == [];
      assert DropAt(IndexOf(es, off), 0) == IndexOf(xs, off + |x.val|);
    } else {
      DropEntry(xs, off + |x.val|, k - 1);
      assert DropAt(es, k) == [x] + DropAt(xs, k - 1);
      IndexCons(x, DropAt(xs, k - 1), off);
      DropAtCons(IndexEnt(x.key, |x.val|, off), IndexOf(xs, off + |x.val|), k - 1);
    }
  }

  lemma DropAtCons<T>(x: T, xs: seq<T>, k: nat)
    requires k < |xs|
    ensures DropAt([x] + xs, k + 1) == [x] + DropAt(xs, k)
  {
  }

  /** The entry that sorts last is the last one written, or an empty one after all the others. */
  lemma LastEntry(es: seq<Entry>, off: nat, p: Index, k: nat)
    requires Reorders(p, es, off) && k < |es| == |p| && IndexOf(es, off)[k] == p[|p| - 1]
    ensures k == |es| - 1 || es[k].val == []
    ensures NoGap(es) ==>
      p[|p| - 1].offset == off + |Values(es)| - |es[k].val| && p[|p| - 1].size == |es[k].val|
  {
    hide IndexOf, Values;
    var raw, n := IndexOf(es, off), |p| - 1;
    IndexAt(es, off, k);
    assert es[..|es|] == es;
    if k < |es| - 1 {
      IndexAt(es, off, k + 1);
      ValuesStep(es, k);
      SameMembers(p, raw, raw[k + 1]);
      var j :| 0 <= j < |p| && p[j] == raw[k + 1];
      assert p[j].offset <= p[n].offset;
      ValuesMono(es, k, |es|);
    } else {
      ValuesStep(es, k);
    }
  }

  lemma MultisetInit(p: Index, raw: Index, k: nat)
    requires multiset(p) == multiset(raw) && p != [] && k < |raw| && raw[k] == p[|p| - 1]
    ensures multiset(p[..|p| - 1]) == multiset(DropAt(raw, k))
  {
    InitMultiset(p);
    DropMultiset(raw, k);
  }

  /** Taking the last entry of a sorted order off both the order and what was written. */
  lemma DropLast(es: seq<Entry>, off: nat, p: Index) returns (k: nat)
    requires Reorders(p, es, off) && es != []
    ensures |p| == |es| && k < |es| && IndexOf(es, off)[k] == p[|p| - 1]
    ensures k == |es| - 1 || es[k].val == []
    ensures Reorders(p[..|p| - 1], DropAt(es, k), off)
    ensures |Values(DropAt(es, k))| + |es[k].val| == |Values(es)|
  {
    hide IndexOf, Values, DropAt;
    var raw, n := IndexOf(es, off), |p| - 1;
    SameLength(p, raw);
    SameMembers(p, raw, p[n]);
    k :| 0 <= k < |raw| && raw[k] == p[n];
    LastEntry(es, off, p, k);
    DropEntry(es, off, k);
    MultisetInit(p, raw, k);
  }

  lemma {:induction false} NoGapTiles(es: seq<Entry>, off: nat, p: Index)
    requires NoGap(es) && Reorders(p, es, off)
    ensures Tiled(p) && |p| == |es|
    ensures p != [] ==> p[0].offset == off && p[|p| - 1].offset + p[|p| - 1].size == off + |Values(es)|
    decreases |es|
  {
    hide IndexOf, Values, Reorders, NoGap, DropAt;
    if es == [] {
      NothingWritten(off, p);
    } else {
      var n := |p| - 1;
      var k := DropLast(es, off, p);
      LastEnds(es, off, p, k);
      DropNoGap(es, k);
      NoGapTiles(DropAt(es, k), off, p[..n]);
      NoValues();
      assert forall i | 0 <= i < n :: p[..n][i] == p[i];
    }
  }

  lemma NothingWritten(off: nat, p: Index)
    requires Reorders(p, [], off)
    ensures p == []
  {
    SameLength(p, IndexOf([], off));
  }

  lemma NoValues()
    ensures Values([]) == []
  {
  }

  lemma LastEnds(es: seq<Entry>, off: nat, p: Index, k: nat)
    requires NoGap(es) && Reorders(p, es, off) && k < |es| == |p| && IndexOf(es, off)[k] == p[|p| - 1]
    ensures p[|p| - 1].offset == off + |Values(es)| - |es[k].val| && p[|p| - 1].size == |es[k].val|
    ensures |DropAt(es, k)| == |es| - 1 && (|es| == 1 ==> DropAt(es, k) == [])
  {
    hide IndexOf, Values, NoGap;
    LastEntry(es, off, p, k);
  }

  lemma DropNoGap(es: seq<Entry>, k: nat)
    requires NoGap(es) && k < |es|
    ensures NoGap(DropAt(es, k))
  {
    hide DropAt;
    var d := DropAt(es, k);
    forall a, b | 0 <= a < b < |d| ensures d[a].val == [] ==> d[b].val == [] {
      DroppedAt(es, k, a);
      DroppedAt(es, k, b);
    }
  }

  // ---------------------------------------------------------------- sorting by offset

  function InsertByOffset(e: IndexEnt, idx: Index): (r: Index)
    ensures multiset(r) == multiset(idx) + multiset{e}
  {
    if idx == [] || e.offset <= idx[0].offset then [e] + idx
    else
      assert idx == [idx[0]] + idx[1..];
      [idx[0]] + InsertByOffset(e, idx[1..])
  }

  /** Stands for sort.Sort on offsets; what is proved holds of every sorted order. */
  function SortByOffset(idx: Index): (r: Index)
    ensures multiset(r) == multiset(idx)
  {
    if idx == [] then []
    else
      assert idx == [idx[0]] + idx[1..];
      InsertByOffset(idx[0], SortByOffset(idx[1..]))
  }

  lemma OffsetCons(x: IndexEnt, rest: Index)
    requires OffsetSorted(rest) && forall y <- rest :: x.offset <= y.offset
    ensures OffsetSorted([x] + rest)
  {
    assert forall j | 0 <= j < |rest| :: rest[j] in rest;
  }

  lemma {:induction false} InsertByOffsetSorted(e: IndexEnt, idx: Index)
    requires OffsetSorted(idx)
    ensures OffsetSorted(InsertByOffset(e, idx))
  {
    if idx == [] || e.offset <= idx[0].offset {
      OffsetCons(e, idx);
    } else {
      InsertByOffsetSorted(e, idx[1..]);
      InsertedBehind(e, idx[1..], idx[0].offset);
      OffsetCons(idx[0], InsertByOffset(e, idx[1..]));
    }
  }

  lemma InsertedBehind(e: IndexEnt, idx: Index, off: nat)
    requires off <= e.offset && forall y <- idx :: off <= y.offset
    ensures forall y <- InsertByOffset(e, idx) :: off <= y.offset
  {
    hide InsertByOffset;
    forall y <- InsertByOffset(e, idx) ensures off <= y.offset {
      SameMembers(InsertByOffset(e, idx), idx + [e], y);
    }
  }

  lemma {:induction false} SortByOffsetSorts(idx: Index)
    ensures OffsetSorted(SortByOffset(idx))
  {
    if idx != [] {
      SortByOffsetSorts(idx[1..]);
      InsertByOffsetSorted(idx[0], SortByOffset(idx[1..]));
    }
  }

  /** An entry of a reordered index points at the bytes of the value written under its key. */
  lemma EntryAt(es: seq<Entry>, idx: Index, x: IndexEnt) returns (e: Entry)
    requires multiset(idx) == multiset(IndexOf(es, 0)) && x in idx
    ensures e in es && e.key == x.key && |e.val| == x.size
    ensures x.offset + x.size <= |Values(es)| && Values(es)[x.offset..x.offset + x.size] == e.val
  {
    hide IndexOf, Values;
    SameMembers(idx, IndexOf(es, 0), x);
    var i :| 0 <= i < |es| && IndexOf(es, 0)[i] == x;
    IndexAt(es, 0, i);
    e := es[i];
  }

  /** Every value has its entry. */
  lemma EntryListed(es: seq<Entry>, idx: Index, e: Entry) returns (x: IndexEnt)
    requires multiset(idx) == multiset(IndexOf(es, 0)) && e in es
    ensures x in idx && x.key == e.key
  {
    hide IndexOf, Values;
    var i :| 0 <= i < |es| && es[i] == e;
    IndexAt(es, 0, i);
    x := IndexOf(es, 0)[i];
    SameMembers(idx, IndexOf(es, 0), x);
  }

  /** A right run, cut at `j`, gives the entry at `j` the bytes written for it, and lies inside the
      values. */
  lemma OwnBytes(es: seq<Entry>, p: Index, i: nat, j: nat) returns (e: Entry)
    requires Reorders(p, es, 0) && RunsRight(p) && i <= j < |p|
    ensures e in es && e.key == p[j].key && |e.val| == p[j].size && Cut(p, i, j) + p[j].size <= |Values(es)|
    ensures Values(es)[Cut(p, i, j)..Cut(p, i, j) + p[j].size] == e.val
    decreases j
  {
    hide IndexOf, Values;
    e := EntryAt(es, p, p[j]);
    if p[j].size == 0 {
      CutInside(es, p, i, j);
    }
  }

  lemma {:induction false} CutInside(es: seq<Entry>, p: Index, i: nat, j: nat)
    requires multiset(p) == multiset(IndexOf(es, 0)) && RunsRight(p) && i <= j < |p|
    ensures Cut(p, i, j) <= |Values(es)|
    decreases j
  {
    hide IndexOf, Values;
    if i == j {
      var e := EntryAt(es, p, p[i]);
      assert p[i..i] == [];
    } else {
      CutInside(es, p, i, j - 1);
      var e := EntryAt(es, p, p[j - 1]);
      assert p[i..j][..j - i - 1] == p[i..j - 1];
      assert p[j - 1].size > 0 ==> Cut(p, i, j - 1) == p[j - 1].offset;
    }
  }

  /** The bytes a run covers: from the first entry's offset to the last one's end. */
  lemma RunBytes(idx: Index, i: nat, j: nat)
    requires Tiled(idx) && i < j <= |idx|
    ensures idx[i].offset + SizeSum(idx[i..j]) == idx[j - 1].offset + idx[j - 1].size
  {
    CutTiled(idx, i, j - 1);
    assert idx[i..j][..j - i - 1] == idx[i..j - 1];
  }
}
