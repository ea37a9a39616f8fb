/**
 The hash tree reader: one buffer and one cursor per level. `rest[k]` is what level `k`'s cursor has
 still to hand down, so the bytes still to be read are the unread part of the leaf followed by the
 bytes below `rest[1]`, `rest[2]`, and so on up to the root's level.
 */
module HTreeReader {
  import opened Bytes
  import opened ChunkStore
  import opened HTree
  import opened HTreeLeaf

  ghost predicate Kid(H: Hasher, m: Chunks, lvl: nat, t: Tree) {
    Stored(H, m, t) && WellFormed(t) && Level(t) == lvl - 1 && Data(t) != []
  }

  /** Trees a cursor of level `lvl` may hand down. */
  ghost predicate Kids(H: Hasher, m: Chunks, lvl: nat, ts: seq<Tree>) {
    ts != [] ==> Kid(H, m, lvl, ts[0]) && Kids(H, m, lvl, ts[1..])
  }

  lemma {:induction false} KidsOf(H: Hasher, m: Chunks, lvl: nat, ts: seq<Tree>)
    requires forall t <- ts :: Kid(H, m, lvl, t)
    ensures Kids(H, m, lvl, ts)
  {
    if ts != [] { KidsOf(H, m, lvl, ts[1..]); }
  }

  /** The bytes still to come from levels `k` and up. */
  ghost function RestFrom(rest: seq<seq<Tree>>, k: nat): seq<byte>
    decreases |rest| - k
  {
    if k >= |rest| then [] else DataOf(rest[k]) + RestFrom(rest, k + 1)
  }

  lemma {:induction false} RestFromSame(a: seq<seq<Tree>>, b: seq<seq<Tree>>, k: nat)
    requires |a| == |b| && forall j | k <= j < |a| :: a[j] == b[j]
    ensures RestFrom(a, k) == RestFrom(b, k)
    decreases |a| - k
  {
    if k < |a| { RestFromSame(a, b, k + 1); }
  }

  lemma {:induction false} RestFromEmpty(rest: seq<seq<Tree>>, k: nat)
    requires forall j | k <= j < |rest| :: rest[j] == []
    ensures RestFrom(rest, k) == []
    decreases |rest| - k
  {
    if k < |rest| { RestFromEmpty(rest, k + 1); }
  }

  lemma NonEmptyData(H: Hasher, m: Chunks, lvl: nat, ts: seq<Tree>)
    requires Kids(H, m, lvl, ts)
    ensures DataOf(ts) == [] <==> ts == []
  {
  }

  /** The first entry of a list of entries. */
  lemma FirstEntry(H: Hasher, s: seq<byte>, p: nat, ts: seq<Tree>)
    requires p <= |s| && s[p..] == Entries(H, ts) && ts != []
    ensures p + ENTRY <= |s|
    ensures s[p..p + 8] == LE(Off(ts[0]), 8) && s[p + 8..p + ENTRY] == Addr(H, ts[0])
    ensures s[p + ENTRY..] == Entries(H, ts[1..])
  {
    var e := Entry(H, ts[0]);
    assert |s[p..]| == ENTRY * |ts|;
    assert s[p..][..ENTRY] == e && s[p..][ENTRY..] == Entries(H, ts[1..]);
    assert s[p..p + 8] == s[p..][..ENTRY][..8] == e[..8];
    assert s[p + 8..p + ENTRY] == s[p..][..ENTRY][8..] == e[8..];
    assert s[p + ENTRY..] == s[p..][ENTRY..];
  }

  lemma EntryFits(H: Hasher, m: Chunks, height: nat, cur: seq<Cursor>, rest: seq<seq<Tree>>, lvl: nat)
    requires LevelsFrom(H, m, height, cur, rest, lvl) && 0 < lvl < NLEVELS
    ensures LevelOk(H, m, lvl, cur[lvl], rest[lvl]) && 0 <= cur[lvl].pos
    ensures cur[lvl].pos < |cur[lvl].buf| <==> rest[lvl] != []
    ensures rest[lvl] != [] ==> cur[lvl].pos + ENTRY <= MAXLEN
  {
    hide Entries, Kids, DataOf;
    assert LevelOk(H, m, lvl, cur[lvl], rest[lvl]);
    LevelFront(H, m, lvl, cur[lvl], rest[lvl]);
  }

  /** What the cursor of an inner level stands before. */
  lemma LevelFront(H: Hasher, m: Chunks, k: nat, c: Cursor, ts: seq<Tree>)
    requires k > 0 && LevelOk(H, m, k, c, ts)
    ensures 0 <= c.pos && (c.pos >= |c.buf| <==> ts == []) && (DataOf(ts) == [] <==> ts == [])
    ensures ts != [] ==>
      && Kid(H, m, k, ts[0]) && c.pos + ENTRY <= |c.buf| && c.buf[c.pos + 8..c.pos + ENTRY] == Addr(H, ts[0])
      && Addr(H, ts[0]) in m && m[Addr(H, ts[0])] == Encode(H, ts[0])
      && LevelOk(H, m, k, c.(pos := c.pos + ENTRY), ts[1..])
  {
    hide Data, Encode;
    NonEmptyData(H, m, k, ts);
    if ts != [] { FirstEntry(H, c.buf, c.pos, ts); }
  }

  /** One level of the reader: the chunk loaded there and the cursor into it. */
  datatype Cursor = Cursor(buf: seq<byte>, pos: int)

  /** The cursor stands inside its chunk or at its end. */
  ghost predicate Inside(c: Cursor) {
    0 <= c.pos <= |c.buf|
  }

  /** The cursor of level `k` stands before the entries of `ts`; level 0 hands down no trees. */
  ghost predicate LevelOk(H: Hasher, m: Chunks, k: nat, c: Cursor, ts: seq<Tree>) {
    && 0 <= c.pos <= |c.buf| <= MAXLEN
    && if k == 0 then ts == [] && (c.buf == [] || c.pos >= 1) else c.buf[c.pos..] == Entries(H, ts) && Kids(H, m, k, ts)
  }

  /** The levels from `lvl` up are in order, and nothing waits above the root. */
  ghost predicate LevelsFrom(H: Hasher, m: Chunks, height: nat, cur: seq<Cursor>, rest: seq<seq<Tree>>, lvl: nat)
    ensures LevelsFrom(H, m, height, cur, rest, lvl) ==> |cur| == |rest| == NLEVELS
  {
    && |cur| == |rest| == NLEVELS && height <= NLEVELS - 2
    && (forall k | lvl <= k < NLEVELS :: LevelOk(H, m, k, cur[k], rest[k]))
    && (forall k | height < k < NLEVELS :: rest[k] == [])
  }

  ghost predicate LevelsOk(H: Hasher, m: Chunks, height: nat, cur: seq<Cursor>, rest: seq<seq<Tree>>)
    ensures LevelsOk(H, m, height, cur, rest) ==> |cur| == |rest| == NLEVELS
  {
    LevelsFrom(H, m, height, cur, rest, 0)
  }

  lemma LevelsUp(H: Hasher, m: Chunks, height: nat, cur: seq<Cursor>, rest: seq<seq<Tree>>, lvl: nat, lvl': nat)
    requires LevelsFrom(H, m, height, cur, rest, lvl) && lvl <= lvl'
    ensures LevelsFrom(H, m, height, cur, rest, lvl')
  {
    hide LevelOk;
  }

  lemma LevelsSame(H: Hasher, m: Chunks, height: nat, cur: seq<Cursor>, rest: seq<seq<Tree>>, cur': seq<Cursor>,
                   rest': seq<seq<Tree>>, lvl: nat)
    requires LevelsFrom(H, m, height, cur, rest, lvl) && lvl <= height + 1 && |cur'| == |rest'| == NLEVELS
    requires forall k | lvl <= k < NLEVELS :: cur[k] == cur'[k] && rest[k] == rest'[k]
    ensures LevelsFrom(H, m, height, cur', rest', lvl)
  {
    hide LevelOk;
  }

  /** A level joins those in order above it. */
  lemma LevelsJoin(H: Hasher, m: Chunks, height: nat, cur: seq<Cursor>, rest: seq<seq<Tree>>, lvl: nat)
    requires lvl <= height && LevelsFrom(H, m, height, cur, rest, lvl + 1) && LevelOk(H, m, lvl, cur[lvl], rest[lvl])
    ensures LevelsFrom(H, m, height, cur, rest, lvl)
  {
    hide LevelOk;
  }

  /** Bytes still to come from level `k` and up; level 0 is the unread part of the leaf. */
  ghost function Tail(cur: seq<Cursor>, rest: seq<seq<Tree>>, k: nat): seq<byte>
    requires |cur| == |rest| && 0 < |cur| && Inside(cur[0])
  {
    if k == 0 then cur[0].buf[cur[0].pos..] + RestFrom(rest, 1) else RestFrom(rest, k)
  }

  /** Level `k` itself has nothing left to hand down. */
  ghost predicate Drained(cur: seq<Cursor>, rest: seq<seq<Tree>>, k: nat)
    requires k < |cur| == |rest|
  {
    rest[k] == [] && (k == 0 ==> cur[0].pos >= |cur[0].buf|)
  }

  /** The chunk of `t` just loaded at its level. */
  ghost predicate Loaded(H: Hasher, c: Cursor, ts: seq<Tree>, t: Tree) {
    c == Cursor(Encode(H, t), 1) && ts == if t.Leaf? then [] else t.kids
  }

  lemma LoadOk(H: Hasher, m: Chunks, c: Cursor, ts: seq<Tree>, t: Tree)
    requires Stored(H, m, t) && WellFormed(t) && Loaded(H, c, ts, t)
    ensures LevelOk(H, m, Level(t), c, ts)
  {
    if t.Node? {
      forall k <- t.kids ensures Kid(H, m, t.lvl, k) { }
      KidsOf(H, m, t.lvl, t.kids);
    }
  }

  /** A child just loaded has something to hand down. */
  lemma KidLoaded(H: Hasher, m: Chunks, lvl: nat, c: Cursor, ts: seq<Tree>, t: Tree)
    requires Kid(H, m, lvl + 1, t) && Loaded(H, c, ts, t)
    ensures LevelOk(H, m, lvl, c, ts) && Level(t) == lvl
    ensures if lvl == 0 then c.pos < |c.buf| else ts != []
  {
    LoadOk(H, m, c, ts, t);
  }

  /** With `t` just loaded at level `lvl`, its bytes come next. */
  lemma LoadedTail(H: Hasher, cur: seq<Cursor>, rest: seq<seq<Tree>>, lvl: nat, t: Tree)
    requires lvl < |cur| == |rest| && Level(t) == lvl && WellFormed(t) && Loaded(H, cur[lvl], rest[lvl], t)
    requires Inside(cur[0])
    ensures Tail(cur, rest, lvl) == Data(t) + RestFrom(rest, lvl + 1)
  {
  }

  lemma {:induction false} DrainedTail(cur: seq<Cursor>, rest: seq<seq<Tree>>, k: nat, lvl: nat)
    requires k <= lvl < |cur| == |rest| && Inside(cur[0])
    requires forall j | k <= j < lvl :: Drained(cur, rest, j)
    ensures Tail(cur, rest, k) == Tail(cur, rest, lvl)
    decreases lvl - k
  {
    if k < lvl {
      assert Drained(cur, rest, k);
      DrainedTail(cur, rest, k + 1, lvl);
    }
  }

  /** Handing the first waiting tree down one level does not change the bytes to come. */
  lemma DescendTail(H: Hasher, cur: seq<Cursor>, rest: seq<seq<Tree>>, cur': seq<Cursor>, rest': seq<seq<Tree>>,
                    lvl: nat, t: Tree)
    requires lvl + 1 < |cur| == |rest| == |cur'| == |rest'|
    requires Inside(cur[0]) && Inside(cur'[0])
    requires Drained(cur, rest, lvl) && rest[lvl + 1] == [t] + rest'[lvl + 1]
    requires forall k | lvl + 2 <= k < |rest| :: rest[k] == rest'[k]
    requires Level(t) == lvl && WellFormed(t) && Loaded(H, cur'[lvl], rest'[lvl], t)
    ensures Tail(cur', rest', lvl) == Tail(cur, rest, lvl)
  {
    hide *;
    RestFromSame(rest, rest', lvl + 2);
    LoadedTail(H, cur', rest', lvl, t);
    DrainedTail(cur, rest, lvl, lvl + 1);
    RestStep(cur, rest, lvl + 1);
    RestStep(cur, rest', lvl + 1);
    DataOfCons(t, rest'[lvl + 1]);
    var a, b, c := Data(t), DataOf(rest'[lvl + 1]), RestFrom(rest, lvl + 2);
    assert (a + b) + c == a + (b + c);
  }

  lemma RestStep(cur: seq<Cursor>, rest: seq<seq<Tree>>, k: nat)
    requires 0 < k < |rest| == |cur| && Inside(cur[0])
    ensures Tail(cur, rest, k) == RestFrom(rest, k) == DataOf(rest[k]) + RestFrom(rest, k + 1)
  {
  }

  lemma SliceStep(d: seq<byte>, at: nat, k: nat)
    requires at + k <= |d|
    ensures d[at..][..k] == d[at..at + k] && d[at..][k..] == d[at + k..]
  {
  }

  /** Taking bytes out of the current leaf. */
  lemma TakeLeaf(H: Hasher, m: Chunks, height: nat, cur: seq<Cursor>, rest: seq<seq<Tree>>, k: nat)
    requires LevelsOk(H, m, height, cur, rest) && cur[0].pos + k <= |cur[0].buf|
    ensures var cur' := cur[0 := cur[0].(pos := cur[0].pos + k)];
            && LevelsOk(H, m, height, cur', rest) && LevelOk(H, m, 0, cur'[0], rest[0])
            && Tail(cur', rest, 0) == Tail(cur, rest, 0)[k..]
    ensures |Tail(cur, rest, 0)| >= |cur[0].buf| - cur[0].pos
    ensures cur[0].buf[cur[0].pos..cur[0].pos + k] == Tail(cur, rest, 0)[..k]
  {
    hide RestFrom, Entries, Kids;
    var cur' := cur[0 := cur[0].(pos := cur[0].pos + k)];
    assert LevelOk(H, m, 0, cur[0], rest[0]);
    forall j | 0 <= j < NLEVELS ensures LevelOk(H, m, j, cur'[j], rest[j]) {
      assert LevelOk(H, m, j, cur[j], rest[j]);
    }
  }

  /** A reader that has loaded only its root has the whole stream to come. */
  lemma FreshCursors(H: Hasher, m: Chunks, cur: seq<Cursor>, rest: seq<seq<Tree>>, t: Tree)
    requires |cur| == |rest| == NLEVELS && Level(t) <= NLEVELS - 2
    requires Stored(H, m, t) && WellFormed(t) && Loaded(H, cur[Level(t)], rest[Level(t)], t)
    requires forall k | 0 <= k < NLEVELS && k != Level(t) :: cur[k] == Cursor([], 0) && rest[k] == []
    ensures LevelsOk(H, m, Level(t), cur, rest) && Inside(cur[0])
    ensures Tail(cur, rest, 0) == Data(t)
  {
    hide Data, WellFormed, Stored, LevelOk, LevelsOk, RestFrom, Tail, Loaded, Level;
    FreshLevels(H, m, cur, rest, t);
    LevelZero(H, m, Level(t), cur, rest);
    LoadedTail(H, cur, rest, Level(t), t);
    RestFromEmpty(rest, Level(t) + 1);
    DrainedTail(cur, rest, 0, Level(t));
  }

  lemma FreshLevels(H: Hasher, m: Chunks, cur: seq<Cursor>, rest: seq<seq<Tree>>, t: Tree)
    requires |cur| == |rest| == NLEVELS && Level(t) <= NLEVELS - 2
    requires Stored(H, m, t) && WellFormed(t) && Loaded(H, cur[Level(t)], rest[Level(t)], t)
    requires forall k | 0 <= k < NLEVELS && k != Level(t) :: cur[k] == Cursor([], 0) && rest[k] == []
    ensures LevelsOk(H, m, Level(t), cur, rest)
  {
    hide Level, WellFormed, Stored, LevelOk, Loaded;
    LoadOk(H, m, cur[Level(t)], rest[Level(t)], t);
    forall k | 0 <= k < NLEVELS ensures LevelOk(H, m, k, cur[k], rest[k]) {
      if k != Level(t) { NoEntries(H, m, k); }
    }
  }

  lemma LevelZero(H: Hasher, m: Chunks, height: nat, cur: seq<Cursor>, rest: seq<seq<Tree>>)
    requires LevelsOk(H, m, height, cur, rest)
    ensures LevelOk(H, m, 0, cur[0], rest[0]) && Inside(cur[0]) && rest[0] == []
  {
    hide Entries, Kids;
    assert LevelOk(H, m, 0, cur[0], rest[0]);
  }

  lemma NoEntries(H: Hasher, m: Chunks, k: nat)
    ensures LevelOk(H, m, k, Cursor([], 0), [])
  {
  }

  // ---------------------------------------------------------------- seeking

  /** Some child still waiting at level `lvl` covers offset `absoff` of stream `d`, or comes last. */
  ghost predicate Scanning(rest: seq<seq<Tree>>, lvl: nat, absoff: nat, d: seq<byte>) {
    && 0 < lvl < |rest| && rest[lvl] != []
    && var off := Off(rest[lvl][0]);
       && off <= absoff && off <= |d| && Contig(rest[lvl], off)
       && RestFrom(rest, lvl) == d[off..]
       && (absoff < off + |DataOf(rest[lvl])| || RestFrom(rest, lvl + 1) == [])
  }

  /** The leaf loaded starts at `off`, and covers offset `absoff` of stream `d` or comes last. */
  ghost predicate Landed(cur: seq<Cursor>, rest: seq<seq<Tree>>, off: nat, absoff: nat, d: seq<byte>) {
    && |cur| > 0 && cur[0].pos == 1 <= |cur[0].buf| && cur[0].buf[0] == 0
    && off <= absoff && off <= |d|
    && cur[0].buf[1..] + RestFrom(rest, 1) == d[off..]
    && (absoff < off + |cur[0].buf[1..]| || RestFrom(rest, 1) == [])
  }

  ghost predicate SeekingAt(cur: seq<Cursor>, rest: seq<seq<Tree>>, lvl: nat, off: nat, absoff: nat, d: seq<byte>) {
    if lvl == 0 then Landed(cur, rest, off, absoff, d) else Scanning(rest, lvl, absoff, d)
  }

  /** The search at level `lvl` will end at the leaf that starts at `leaf`. */
  ghost predicate Heading(rest: seq<seq<Tree>>, lvl: nat, off: nat, absoff: nat, leaf: nat) {
    if lvl == 0 then off == leaf else lvl < |rest| && rest[lvl] != [] && LeafIn(rest[lvl], absoff) == leaf
  }

  lemma DataNode(t: Tree)
    ensures t.Node? ==> Data(t) == DataOf(t.kids)
    ensures t.Node? && t.kids != [] ==> Off(t) == Off(t.kids[0])
    ensures forall H: Hasher :: t.Leaf? ==> Encode(H, t)[1..] == Data(t)
  {
  }

  lemma RootScan(H: Hasher, m: Chunks, cur: seq<Cursor>, rest: seq<seq<Tree>>, t: Tree, absoff: nat)
    requires LevelsFrom(H, m, Level(t), cur, rest, Level(t)) && Loaded(H, cur[Level(t)], rest[Level(t)], t)
    requires WellFormed(t) && Off(t) == 0
    ensures SeekingAt(cur, rest, Level(t), 0, absoff, Data(t)) && Heading(rest, Level(t), 0, absoff, LeafAt(t, absoff))
  {
    hide Landed, Scanning, RestFrom, Data, WellFormed, Off, LevelOk, Encode;
    RestFromEmpty(rest, Level(t) + 1);
    if t.Leaf? { RootLeaf(H, cur, rest, t, absoff); } else { RootNode(H, cur, rest, t, absoff); }
  }

  lemma RootLeaf(H: Hasher, cur: seq<Cursor>, rest: seq<seq<Tree>>, t: Tree, absoff: nat)
    requires |cur| > 0 && |rest| > 0 && t.Leaf? && Loaded(H, cur[0], rest[0], t) && RestFrom(rest, 1) == []
    ensures Landed(cur, rest, 0, absoff, Data(t)) && LeafAt(t, absoff) == Off(t)
  {
    hide RestFrom;
  }

  lemma RootNode(H: Hasher, cur: seq<Cursor>, rest: seq<seq<Tree>>, t: Tree, absoff: nat)
    requires t.Node? && WellFormed(t) && Off(t) == 0 && t.lvl < |rest| && rest[t.lvl] == t.kids
    requires RestFrom(rest, t.lvl + 1) == []
    ensures t.lvl > 0 && Scanning(rest, t.lvl, absoff, Data(t))
    ensures t.kids != [] && LeafAt(t, absoff) == LeafIn(t.kids, absoff)
  {
    hide Data, DataOf, Off, RestFrom;
    DataNode(t);
    RestFromStep(rest, t.lvl);
  }

  /** What the scan decodes: the offset of this entry and, if there is one, of the next. */
  lemma ScanOffsets(H: Hasher, m: Chunks, lvl: nat, c: Cursor, rest: seq<seq<Tree>>, absoff: nat, d: seq<byte>)
    requires Scanning(rest, lvl, absoff, d) && LevelOk(H, m, lvl, c, rest[lvl]) && |d| < TWO_64
    ensures c.pos + ENTRY <= |c.buf| && FromLE(c.buf[c.pos..c.pos + 8]) == Off(rest[lvl][0])
    ensures c.buf[c.pos + 8..c.pos + ENTRY] == Addr(H, rest[lvl][0])
    ensures var t := rest[lvl][0]; Kid(H, m, lvl, t) && Addr(H, t) in m && m[Addr(H, t)] == Encode(H, t)
    ensures var p := c.pos + ENTRY;
            && (p < |c.buf| <==> |rest[lvl]| > 1)
            && (p < |c.buf| ==> p + 8 <= |c.buf| && FromLE(c.buf[p..p + 8]) == Off(rest[lvl][1]))
            && LevelOk(H, m, lvl, c.(pos := p), rest[lvl][1..])
  {
    hide WellFormed, Data, DataOf, RestFrom, Encode;
    var ts := rest[lvl];
    Pow256Values();
    FirstEntry(H, c.buf, c.pos, ts);
    LERoundTrip(Off(ts[0]), 8);
    if |ts| > 1 {
      ScanBound(rest, lvl, absoff, d);
      FirstEntry(H, c.buf, c.pos + ENTRY, ts[1..]);
      LERoundTrip(Off(ts[1]), 8);
    }
  }

  lemma ScanBound(rest: seq<seq<Tree>>, lvl: nat, absoff: nat, d: seq<byte>)
    requires Scanning(rest, lvl, absoff, d)
    ensures Off(rest[lvl][0]) + |Data(rest[lvl][0])| <= |d|
    ensures |rest[lvl]| > 1 ==> Off(rest[lvl][1]) == Off(rest[lvl][0]) + |Data(rest[lvl][0])|
    ensures RestFrom(rest, lvl) == Data(rest[lvl][0]) + (DataOf(rest[lvl][1..]) + RestFrom(rest, lvl + 1))
  {
    hide Data, Off;
    var a, b, c := Data(rest[lvl][0]), DataOf(rest[lvl][1..]), RestFrom(rest, lvl + 1);
    assert (a + b) + c == a + (b + c);
    assert Contig(rest[lvl][1..], Off(rest[lvl][0]) + |a|);
    assert |RestFrom(rest, lvl)| == |d| - Off(rest[lvl][0]);
  }

  lemma ScanNext(rest: seq<seq<Tree>>, rest': seq<seq<Tree>>, lvl: nat, absoff: nat, d: seq<byte>)
    requires Scanning(rest, lvl, absoff, d) && |rest[lvl]| > 1 && Off(rest[lvl][1]) <= absoff
    requires rest' == rest[lvl := rest[lvl][1..]]
    ensures Scanning(rest', lvl, absoff, d)
  {
    hide Data, Off, DataOf, RestFrom;
    var ts, x, xs := rest[lvl], rest[lvl][0], rest[lvl][1..];
    ScanBound(rest, lvl, absoff, d);
    RestFromSame(rest, rest', lvl + 1);
    RestFromStep(rest', lvl);
    assert ts == [x] + xs;
    DataOfCons(x, xs);
    SkipFirst(d, Off(x), Data(x), DataOf(xs) + RestFrom(rest, lvl + 1));
  }

  lemma RestFromStep(rest: seq<seq<Tree>>, k: nat)
    requires k < |rest|
    ensures RestFrom(rest, k) == DataOf(rest[k]) + RestFrom(rest, k + 1)
  {
  }

  lemma SkipFirst(d: seq<byte>, off: nat, a: seq<byte>, b: seq<byte>)
    requires off + |a| <= |d| && d[off..] == a + b
    ensures d[off + |a|..] == b
  {
    assert d[off..][|a|..] == d[off + |a|..];
  }

  lemma ScanDown(H: Hasher, m: Chunks, cur: seq<Cursor>, rest: seq<seq<Tree>>, rest': seq<seq<Tree>>, lvl: nat,
                 absoff: nat, d: seq<byte>)
    requires Scanning(rest, lvl, absoff, d) && lvl < |cur| && |rest| == |rest'|
    requires |rest[lvl]| == 1 || absoff < Off(rest[lvl][1])
    requires Kid(H, m, lvl, rest[lvl][0]) && Loaded(H, cur[lvl - 1], rest'[lvl - 1], rest[lvl][0])
    requires rest' == rest[lvl := rest[lvl][1..]][lvl - 1 := rest'[lvl - 1]]
    ensures SeekingAt(cur, rest', lvl - 1, Off(rest[lvl][0]), absoff, d)
  {
    hide Data, DataOf, Off, RestFrom, Encode, Stored, WellFormed, Contig, Landed, SeeksIn;
    KidRest(rest, rest', lvl, absoff, d);
    if lvl == 1 {
      KidLeaf(H, cur, rest', rest[lvl][0], absoff, d);
    } else {
      KidNode(rest', lvl - 1, rest[lvl][0], absoff, d);
    }
  }

  /** What the stream holds from the first child waiting at level `lvl` on, once the child is passed. */
  lemma KidRest(rest: seq<seq<Tree>>, rest': seq<seq<Tree>>, lvl: nat, absoff: nat, d: seq<byte>)
    requires Scanning(rest, lvl, absoff, d) && (|rest[lvl]| == 1 || absoff < Off(rest[lvl][1]))
    requires |rest| == |rest'| && rest'[lvl] == rest[lvl][1..]
    requires forall k | lvl < k < |rest| :: rest[k] == rest'[k]
    ensures SeeksIn(rest', lvl, rest[lvl][0], absoff, d)
  {
    hide Data, DataOf, Off, RestFrom, Contig;
    var t, ts := rest[lvl][0], rest[lvl][1..];
    ScanBound(rest, lvl, absoff, d);
    RestFromSame(rest, rest', lvl + 1);
    RestFromStep(rest', lvl);
    assert rest[lvl] == [t] + ts;
    DataOfCons(t, ts);
    NoData();
  }

  /** The stream from `t`'s offset on is `t` and what level `lvl` and up have to come, and `t` covers
      `absoff` or comes last. */
  ghost predicate SeeksIn(rest: seq<seq<Tree>>, lvl: nat, t: Tree, absoff: nat, d: seq<byte>) {
    && Off(t) <= absoff && Off(t) <= |d| && Data(t) + RestFrom(rest, lvl) == d[Off(t)..]
    && (absoff < Off(t) + |Data(t)| || RestFrom(rest, lvl) == [])
  }

  lemma KidLeaf(H: Hasher, cur: seq<Cursor>, rest: seq<seq<Tree>>, t: Tree, absoff: nat, d: seq<byte>)
    requires |cur| > 0 && |rest| > 0 && Level(t) == 0 && WellFormed(t) && Loaded(H, cur[0], rest[0], t)
    requires SeeksIn(rest, 1, t, absoff, d)
    ensures Landed(cur, rest, Off(t), absoff, d)
  {
    hide RestFrom;
  }

  lemma KidNode(rest: seq<seq<Tree>>, lvl: nat, t: Tree, absoff: nat, d: seq<byte>)
    requires 0 < lvl < |rest| && Level(t) == lvl && WellFormed(t) && SeeksIn(rest, lvl + 1, t, absoff, d)
    requires t.Node? ==> rest[lvl] == t.kids
    ensures Scanning(rest, lvl, absoff, d)
  {
    hide Data, DataOf, Off, RestFrom;
    DataNode(t);
    RestFromStep(rest, lvl);
  }

  lemma HeadNext(rest: seq<seq<Tree>>, lvl: nat, off: nat, absoff: nat, leaf: nat)
    requires 0 < lvl < |rest| && |rest[lvl]| > 1 && Off(rest[lvl][1]) <= absoff && Heading(rest, lvl, off, absoff, leaf)
    ensures Heading(rest[lvl := rest[lvl][1..]], lvl, off, absoff, leaf)
  {
    assert LeafIn(rest[lvl], absoff) == LeafIn(rest[lvl][1..], absoff);
  }

  lemma HeadDown(H: Hasher, m: Chunks, c: Cursor, rest: seq<seq<Tree>>, rest': seq<seq<Tree>>, lvl: nat, off: nat,
                 absoff: nat, leaf: nat)
    requires 0 < lvl < |rest| == |rest'| && rest[lvl] != [] && Heading(rest, lvl, off, absoff, leaf)
    requires |rest[lvl]| == 1 || absoff < Off(rest[lvl][1])
    requires Kid(H, m, lvl, rest[lvl][0]) && Loaded(H, c, rest'[lvl - 1], rest[lvl][0])
    ensures Heading(rest', lvl - 1, Off(rest[lvl][0]), absoff, leaf)
  {
    hide Stored, Encode, Data, Contig;
    var t := rest[lvl][0];
    assert LeafIn(rest[lvl], absoff) == LeafAt(t, absoff);
    assert t.Node? ==> LeafAt(t, absoff) == LeafIn(t.kids, absoff);
  }

  /** Skipping inside the leaf, or stopping at the end of the stream. */
  lemma Landing(H: Hasher, m: Chunks, height: nat, cur: seq<Cursor>, rest: seq<seq<Tree>>, off: nat, absoff: nat,
                d: seq<byte>)
    requires LevelsOk(H, m, height, cur, rest) && Landed(cur, rest, off, absoff, d)
    ensures var skip := absoff - off;
            var k := if skip + 1 > |cur[0].buf| then |cur[0].buf| - 1 else skip;
            var cur' := cur[0 := cur[0].(pos := 1 + k)];
            && off + k == Min(absoff, |d|) && LevelOk(H, m, 0, cur'[0], rest[0])
            && LevelsOk(H, m, height, cur', rest) && Tail(cur', rest, 0) == d[off + k..]
  {
    hide LevelsOk, RestFrom;
    var skip := absoff - off;
    var k := if skip + 1 > |cur[0].buf| then |cur[0].buf| - 1 else skip;
    TakeLeaf(H, m, height, cur, rest, k);
    assert |d[off..]| >= k;
    SliceStep(d, off, k);
    assert RestFrom(rest, 1) == [] ==> |cur[0].buf[1..]| == |d| - off;
  }

  /** Level 0 of a reader that went astray: its position in the leaf's chunk is not one of stream data,
      and would be stream position `at`, which is negative. */
  ghost predicate Strayed(cur: seq<Cursor>, rest: seq<seq<Tree>>, at: int, d: seq<byte>) {
    && |cur| > 0 && |rest| > 0 && rest[0] == []
    && var c := cur[0];
       && c.pos <= 0 && at < 0 && (c.pos == 0 <==> at == -1)
       && 1 <= |c.buf| <= MAXLEN && c.buf[0] == 0
       && 0 <= at + 1 - c.pos <= |d| && c.buf[1..] + RestFrom(rest, 1) == d[at + 1 - c.pos..]
  }

  lemma StrayFacts(cur: seq<Cursor>, rest: seq<seq<Tree>>, at: int, d: seq<byte>)
    requires Strayed(cur, rest, at, d)
    ensures |cur| > 0 && cur[0].pos <= 0 && |cur[0].buf| > 0 && at < 0 && (cur[0].pos == 0 <==> at == -1)
  {
  }

  /** Overflow leaves the cursor before the leaf. */
  lemma Straying(H: Hasher, m: Chunks, height: nat, cur: seq<Cursor>, rest: seq<seq<Tree>>, off: nat, absoff: nat,
                 d: seq<byte>)
    requires LevelsOk(H, m, height, cur, rest) && Landed(cur, rest, off, absoff, d)
    requires absoff < TWO_64 && absoff - off + 1 >= TWO_63 && (absoff == TWO_64 - 1 ==> off == 0)
    ensures var cur' := cur[0 := cur[0].(pos := absoff - off + 1 - TWO_64)];
            LevelsFrom(H, m, height, cur', rest, 1) && Strayed(cur', rest, absoff - TWO_64, d)
  {
    hide RestFrom, Entries, Kids;
    var cur' := cur[0 := cur[0].(pos := absoff - off + 1 - TWO_64)];
    assert LevelOk(H, m, 0, cur[0], rest[0]);
    forall j | 1 <= j < NLEVELS ensures LevelOk(H, m, j, cur'[j], rest[j]) {
      assert LevelOk(H, m, j, cur[j], rest[j]);
    }
  }

  /** Reading from just before the stream starts with the level byte and leads back into it. */
  lemma TakeStray(H: Hasher, m: Chunks, height: nat, cur: seq<Cursor>, rest: seq<seq<Tree>>, d: seq<byte>, k: nat)
    requires LevelsFrom(H, m, height, cur, rest, 1) && Strayed(cur, rest, -1, d) && k <= |cur[0].buf|
    ensures k <= 1 + |d| && cur[0].buf[..k] == ([0] + d)[..k]
    ensures var cur' := cur[0 := cur[0].(pos := k)];
            k > 0 ==>
              && LevelsOk(H, m, height, cur', rest) && LevelOk(H, m, 0, cur'[0], rest[0])
              && Tail(cur', rest, 0) == d[k - 1..]
  {
    hide RestFrom, Entries, Kids;
    var buf := cur[0].buf;
    assert d[0..] == d;
    assert buf == [0] + buf[1..];
    assert [0] + d == buf + RestFrom(rest, 1);
    if k > 0 {
      var cur' := cur[0 := cur[0].(pos := k)];
      forall j | 0 <= j < NLEVELS ensures LevelOk(H, m, j, cur'[j], rest[j]) {
        if j > 0 { assert LevelOk(H, m, j, cur[j], rest[j]); }
      }
      assert buf[k..] == buf[1..][k - 1..];
    }
  }

  lemma SignedSum(x: nat)
    requires x < TWO_64
    ensures Signed((Signed(x) + 1) % TWO_64) == if x + 1 < TWO_63 then x + 1 else x + 1 - TWO_64
  {
  }

  /** Where a seek to `absoff` takes a reader of `t` that has to move: to the target, or the end of a
      shorter stream, unless the target is so far behind the start of the leaf that the signed position
      in it overflows. */
  ghost function Lands(t: Tree, absoff: nat): int {
    if absoff - LeafAt(t, absoff) + 1 < TWO_63 then Min(absoff, |Data(t)|) else absoff - TWO_64
  }

  /** Where the last leaf of a written stream starts. */
  function LastStart(data: seq<byte>): nat {
    if data == [] then 0 else (|data| - 1) / LEAF * LEAF
  }

  /** In a written stream a seek that has to move the reader goes astray exactly from 2^63 - 1 bytes
      behind the start of the last leaf on. */
  lemma CanonLands(data: seq<byte>, absoff: nat)
    requires |data| < TWO_64
    ensures Lands(CanonTree(data), absoff) ==
      if absoff < TWO_63 - 1 + LastStart(data) then Min(absoff, |data|) else absoff - TWO_64
  {
    hide CanonTree, LeafAt, WellFormed, Data, Off, Level;
    CanonTreeSpec(data);
    CanonLeaf(data, absoff);
  }

  /** What a seek reports, or that it panics. */
  datatype Sought = At(off: nat) | Crashed

  class Reader {
    const store: Store
    const root: Hash
    var cur: seq<Cursor>
    var height: nat
    var offset: nat
    ghost const tree: Tree
    ghost var rest: seq<seq<Tree>>
    ghost var at: int             // the true stream position, negative if the reader went astray

    /** The tree being read is in the store; heights beyond 8 would leave no level for `next`. */
    ghost predicate Rooted()
      reads this, store
    {
      && Stored(store.H, store.m, tree) && WellFormed(tree) && root == Addr(store.H, tree)
      && Off(tree) == 0 && |Data(tree)| < TWO_64
      && height == Level(tree)
    }

    ghost predicate Cursors()
      reads this, store
    {
      LevelsOk(store.H, store.m, height, cur, rest)
    }

    ghost predicate From(lvl: nat)
      reads this, store
    {
      LevelsFrom(store.H, store.m, height, cur, rest, lvl)
    }

    ghost predicate Valid()
      reads this, store
    {
      && Rooted() && Cursors() && LevelOk(store.H, store.m, 0, cur[0], rest[0])
      && 0 <= at <= |Data(tree)| && Tail(cur, rest, 0) == Data(tree)[at..]
    }

    /** A seek took the position in the leaf below the start of the stream data. */
    ghost predicate Lost()
      reads this, store
    {
      Rooted() && From(1) && Strayed(cur, rest, at, Data(tree))
    }

    /** All that a seek which moves the reader needs: whatever state the levels up to the root are in. */
    ghost predicate Opened()
      reads this, store
    {
      Rooted() && From(height + 1)
    }

    /** The position is not one of stream data; a reader that is neither valid nor lost is not read. */
    predicate IsLost()
      requires |cur| > 0
      reads this
    {
      cur[0].pos < 0 || (cur[0].pos == 0 && cur[0].buf != [])
    }

    lemma ReadyOpened()
      requires Valid() || Lost()
      ensures Opened() && |cur| == NLEVELS && (Lost() <==> IsLost()) && (Lost() <==> at < 0) && (Valid() <==> at >= 0)
    {
      hide LevelsFrom, Data, Stored, WellFormed, RestFrom, Tail;
      if Valid() {
        LevelsUp(store.H, store.m, height, cur, rest, 0, height + 1);
      } else {
        LevelsUp(store.H, store.m, height, cur, rest, 1, height + 1);
      }
    }

    constructor (store: Store, root: Hash, ghost tree: Tree)
      requires Stored(store.H, store.m, tree) && WellFormed(tree) && root == Addr(store.H, tree)
      requires Off(tree) == 0 && |Data(tree)| < TWO_64 && Level(tree) <= NLEVELS - 2
      ensures Valid() && this.store == store && this.tree == tree
      ensures at == 0 && offset == 0 && height == Level(tree)
    {
      this.store := store;
      this.root := root;
      this.tree := tree;
      cur := seq(NLEVELS, _ => Cursor([], 0));
      rest := seq(NLEVELS, _ => []);
      offset := 0;
      at := 0;
      height := 0;
      new;
      LoadRoot();
      FreshCursors(store.H, store.m, cur, rest, tree);
    }

    /** Load the root chunk into the level its first byte names. */
    method LoadRoot()
      requires |cur| == |rest| == NLEVELS && Level(tree) <= NLEVELS - 2
      requires Stored(store.H, store.m, tree) && WellFormed(tree) && root == Addr(store.H, tree)
      modifies this`height, this`rest, this`cur
      ensures height == Level(tree) && |cur| == |rest| == NLEVELS
      ensures Loaded(store.H, cur[height], rest[height], tree)
      ensures cur == old(cur)[height := cur[height]] && rest == old(rest)[height := rest[height]]
      ensures LevelOk(store.H, store.m, height, cur[height], rest[height])
    {
      hide Entries, Kids;
      var buf := store.Get(root);
      height := buf[0] as nat;
      cur := cur[height := Cursor(buf, 1)];
      rest := rest[height := if tree.Leaf? then [] else tree.kids];
      LoadOk(store.H, store.m, cur[height], rest[height], tree);
    }

    /** Bring the next node into level `lvl`, whose own cursor is used up; true at the end. */
    method Next(lvl: nat) returns (eof: bool)
      requires Cursors() && lvl <= height && Inside(cur[0]) && Drained(cur, rest, lvl)
      modifies this`cur, this`rest
      ensures Cursors() && Inside(cur[0])
      ensures eof <==> old(Tail(cur, rest, lvl)) == []
      ensures !eof ==> !Drained(cur, rest, lvl)
      ensures Tail(cur, rest, lvl) == old(Tail(cur, rest, lvl))
      ensures forall k | 0 <= k < lvl :: cur[k] == old(cur)[k] && rest[k] == old(rest)[k]
      decreases NLEVELS - lvl
    {
      hide DataOf, Encode, Addr, LevelOk, RestFrom, Tail;
      var up := lvl + 1;
      DrainedTail(cur, rest, lvl, up);
      RestStep(cur, rest, up);
      LevelFront(store.H, store.m, up, cur[up], rest[up]);
      if cur[up].pos >= |cur[up].buf| {
        if up > height {
          RestFromEmpty(rest, up);
          return true;
        }
        eof := Next(up);
        DrainedTail(cur, rest, lvl, up);
        if eof { return; }
        LevelFront(store.H, store.m, up, cur[up], rest[up]);
      }
      var hash := cur[up].buf[cur[up].pos + 8..cur[up].pos + ENTRY];
      var buf := store.Get(hash);
      Descend(lvl, buf);
      eof := false;
    }

    /** Load the first child waiting at level `lvl + 1` and move that cursor past it. */
    method Descend(lvl: nat, buf: seq<byte>)
      requires Cursors() && lvl < height && Inside(cur[0]) && Drained(cur, rest, lvl)
      requires rest[lvl + 1] != [] && buf == Encode(store.H, rest[lvl + 1][0])
      modifies this`cur, this`rest
      ensures Cursors() && Inside(cur[0]) && !Drained(cur, rest, lvl)
      ensures Tail(cur, rest, lvl) == old(Tail(cur, rest, lvl))
      ensures forall k | 0 <= k < lvl :: cur[k] == old(cur)[k] && rest[k] == old(rest)[k]
    {
      hide Data, DataOf, Encode, Addr, LevelOk, Stored, WellFormed, RestFrom, Tail, Level;
      ghost var t := rest[lvl + 1][0];
      LevelFront(store.H, store.m, lvl + 1, cur[lvl + 1], rest[lvl + 1]);
      var up := cur[lvl + 1];
      cur := cur[lvl := Cursor(buf, 1)][lvl + 1 := up.(pos := up.pos + ENTRY)];
      rest := rest[lvl := if t.Leaf? then [] else t.kids][lvl + 1 := rest[lvl + 1][1..]];
      KidLoaded(store.H, store.m, lvl, cur[lvl], rest[lvl], t);
      DescendTail(store.H, old(cur), old(rest), cur, rest, lvl, t);
    }

    /** Move to the next leaf if this one is used up. */
    method Refill() returns (eof: bool)
      requires Valid()
      modifies this`cur, this`rest
      ensures Valid() && (eof <==> at == |Data(tree)|)
      ensures !eof ==> 0 <= cur[0].pos < |cur[0].buf|
    {
      hide RestFrom, Data, Stored, WellFormed, LevelsOk, LevelOk;
      LevelZero(store.H, store.m, height, cur, rest);
      eof := false;
      if cur[0].pos >= |cur[0].buf| {
        eof := Next(0);
        LevelZero(store.H, store.m, height, cur, rest);
      }
    }

    /** Copy out at most `n` bytes of the current leaf, moving to the next leaf when it is used up. */
    method Read(n: nat) returns (out: seq<byte>, eof: bool)
      requires Valid()
      modifies this`cur, this`rest, this`at, this`offset
      ensures Valid()
      ensures eof <==> old(at) == |Data(tree)|
      ensures |out| <= n && (!eof && n > 0 ==> |out| > 0)
      ensures at == old(at) + |out| && out == Data(tree)[old(at)..at]
      ensures offset == old(offset) + |out|
    {
      hide RestFrom, Data, Stored, WellFormed, LevelsOk, LevelOk, Tail;
      eof := Refill();
      if eof { return [], true; }
      var src := cur[0].buf[cur[0].pos..];
      var k := if n < |src| then n else |src|;
      TakeLeaf(store.H, store.m, height, cur, rest, k);
      SliceStep(Data(tree), at, k);
      cur := cur[0 := cur[0].(pos := cur[0].pos + k)];
      offset := offset + k;
      at := at + k;
      out, eof := src[..k], false;
    }

    /** Read to the end, with buffers of any sizes. */
    method ReadAll() returns (out: seq<byte>)
      requires Valid()
      modifies this`cur, this`rest, this`at, this`offset
      ensures Valid()
      ensures out == Data(tree)[old(at)..] && at == |Data(tree)|
    {
      out := [];
      var eof := false;
      while !eof
        invariant Valid() && old(at) <= at && out == Data(tree)[old(at)..at]
        invariant eof ==> at == |Data(tree)|
        decreases |Data(tree)| - at, !eof
      {
        var n: int := *;
        var part;
        part, eof := Read(if n > 0 then n else 1);
        out := out + part;
      }
    }

    /**
     Position the reader at stream offset `absoff`, or at the end if the stream is shorter.

     The shortcut trusts `offset`, which counts the bytes Read has returned and is not set by Seek. A
     seek that moves the reader needs nothing of where it was, so it also repairs a lost reader.
     */
    method Seek(absoff: nat) returns (r: Sought)
      requires Opened() && absoff < TWO_64
      modifies this`cur, this`rest, this`at, this`height
      ensures Opened()
      ensures r == Crashed <==> offset != absoff && absoff == TWO_64 - 1 && Level(tree) > 0
      ensures offset == absoff ==> r == At(absoff) && unchanged(this)
      ensures offset != absoff && r.At? ==>
        && at == Lands(tree, absoff)
        && if at >= 0 then Valid() && r.off == at else Lost() && r.off == absoff
    {
      hide LevelsFrom, LevelsOk, Data, RestFrom, WellFormed, Stored, Tail, Landed, Strayed, LeafAt;
      if offset == absoff { return At(offset); }
      var curoff, panics := FindLeaf(absoff);
      if panics { return Crashed; }
      r := Land(absoff, curoff);
    }

    /** Skip inside the leaf that was found, or stop at its end. The sum is a signed 64-bit one. */
    method Land(absoff: nat, curoff: nat) returns (r: Sought)
      requires Rooted() && Cursors() && Landed(cur, rest, curoff, absoff, Data(tree)) && absoff < TWO_64
      requires absoff == TWO_64 - 1 ==> curoff == 0
      modifies this`cur, this`at
      ensures Opened() && r.At?
      ensures if absoff - curoff + 1 < TWO_63 then Valid() && r.off == at == Min(absoff, |Data(tree)|)
              else Lost() && r.off == absoff && at == absoff - TWO_64
    {
      hide LevelsOk, LevelsFrom, Data, RestFrom, WellFormed, Stored, Tail, Strayed, LevelOk, Signed, Unsigned;
      var c := cur[0];
      var skip := Signed(absoff - curoff);
      var sum := Signed((skip + c.pos) % TWO_64);
      SignedSum(absoff - curoff);
      if absoff - curoff + 1 < TWO_63 {
        Landing(store.H, store.m, height, cur, rest, curoff, absoff, Data(tree));
      } else {
        Straying(store.H, store.m, height, cur, rest, curoff, absoff, Data(tree));
      }
      if sum > |c.buf| {
        r := At(absoff - (sum - |c.buf|));
        cur := cur[0 := c.(pos := |c.buf|)];
      } else {
        r := At(absoff);
        cur := cur[0 := c.(pos := sum)];
      }
      at := if absoff - curoff + 1 < TWO_63 then r.off else absoff - TWO_64;
      ReadyOpened();
    }

    /** A read after going astray: a negative position is a slice out of range, and the position just
        before the stream is that of the level byte. */
    method ReadAstray(n: nat) returns (panics: bool, out: seq<byte>)
      requires Lost()
      modifies this`cur, this`at, this`offset
      ensures panics <==> old(at) < -1
      ensures panics ==> unchanged(this) && out == []
      ensures |out| <= n && (!panics && n > 0 ==> |out| > 0)
      ensures !panics ==> |out| <= 1 + |Data(tree)| && out == ([0] + Data(tree))[..|out|]
      ensures at == old(at) + |out| && offset == old(offset) + |out|
      ensures if out == [] then Lost() else Valid()
    {
      hide LevelsFrom, LevelsOk, Data, RestFrom, WellFormed, Stored, Tail, LevelOk, Strayed;
      StrayFacts(cur, rest, at, Data(tree));
      if cur[0].pos < 0 { return true, []; }
      var src := cur[0].buf[cur[0].pos..];
      var k := if n < |src| then n else |src|;
      TakeStray(store.H, store.m, height, cur, rest, Data(tree), k);
      out, panics := src[..k], false;
      assert src == cur[0].buf;
      ghost var was := cur;
      cur := cur[0 := cur[0].(pos := cur[0].pos + k)];
      assert k == 0 ==> cur == was;
      offset := offset + k;
      at := at + k;
    }

    /** Descend from the root to the leaf that covers `absoff`. */
    method FindLeaf(absoff: nat) returns (curoff: nat, panics: bool)
      requires Opened() && absoff < TWO_64
      modifies this`cur, this`rest, this`height
      ensures panics <==> absoff == TWO_64 - 1 && Level(tree) > 0
      ensures panics ==> Opened()
      ensures !panics ==> Rooted() && Cursors() && Landed(cur, rest, curoff, absoff, Data(tree))
      ensures !panics ==> curoff == LeafAt(tree, absoff)
      ensures !panics && absoff == TWO_64 - 1 ==> curoff == 0
    {
      hide Data, RestFrom, WellFormed, Stored, Landed, Scanning, LeafAt, LeafIn, LevelOk;
      LoadRoot();
      var lvl: nat := height;
      curoff, panics := 0, false;
      RootScan(store.H, store.m, cur, rest, tree, absoff);
      while lvl != 0
        invariant lvl <= height && Rooted() && From(lvl)
        invariant SeekingAt(cur, rest, lvl, curoff, absoff, Data(tree))
        invariant Heading(rest, lvl, curoff, absoff, LeafAt(tree, absoff))
        invariant lvl < height ==> absoff < TWO_64 - 1
        invariant lvl == height ==> curoff == 0
      {
        curoff, panics := SeekLevel(lvl, absoff, LeafAt(tree, absoff));
        if panics { return; }
        lvl := lvl - 1;
      }
    }

    /** Scan level `lvl` for the entry covering `absoff` and load that child. No offset is above the
        greatest one, so the scan for that reads on through what earlier chunks have left in the buffer
        until the buffer ends. */
    method SeekLevel(lvl: nat, absoff: nat, ghost leaf: nat) returns (curoff: nat, panics: bool)
      requires Rooted() && From(lvl) && 0 < lvl <= height && absoff < TWO_64
      requires Scanning(rest, lvl, absoff, Data(tree)) && Heading(rest, lvl, 0, absoff, leaf)
      modifies this`cur, this`rest
      ensures Rooted() && (panics <==> absoff == TWO_64 - 1)
      ensures panics ==> From(height + 1)
      ensures !panics ==> From(lvl - 1) && SeekingAt(cur, rest, lvl - 1, curoff, absoff, Data(tree))
      ensures !panics ==> Heading(rest, lvl - 1, curoff, absoff, leaf)
    {
      hide Stored, WellFormed, Data, RestFrom, Encode, Off, FromLE, LevelOk, LevelsFrom, Heading, Contig;
      LevelsUp(store.H, store.m, height, cur, rest, lvl, height + 1);
      EntryFits(store.H, store.m, height, cur, rest, lvl);
      curoff := 0;
      while cur[lvl].pos + 8 <= MAXLEN
        invariant |cur| == |rest| == NLEVELS && 0 <= cur[lvl].pos && From(height + 1)
        invariant cur[lvl].pos >= |cur[lvl].buf| ==> absoff == TWO_64 - 1
        invariant cur[lvl].pos < |cur[lvl].buf| ==> cur[lvl].pos + ENTRY <= MAXLEN
        invariant cur[lvl].pos < |cur[lvl].buf| ==>
          From(lvl) && Scanning(rest, lvl, absoff, Data(tree)) && Heading(rest, lvl, 0, absoff, leaf)
        decreases MAXLEN - cur[lvl].pos
      {
        var entered: bool;
        if cur[lvl].pos < |cur[lvl].buf| {
          curoff, entered := ScanEntry(lvl, absoff, leaf);
        } else {
          curoff, entered := ScanStale(lvl, absoff);
        }
        if entered { return curoff, false; }
      }
      panics := true;
    }

    /** One step of the scan: pass the entry, and load its child if the next entry is behind `absoff`. */
    method ScanEntry(lvl: nat, absoff: nat, ghost leaf: nat) returns (curoff: nat, entered: bool)
      requires Rooted() && From(lvl) && 0 < lvl <= height && absoff < TWO_64
      requires Scanning(rest, lvl, absoff, Data(tree)) && Heading(rest, lvl, 0, absoff, leaf)
      modifies this`cur, this`rest
      ensures entered ==> absoff < TWO_64 - 1 && From(lvl - 1) && Heading(rest, lvl - 1, curoff, absoff, leaf)
      ensures entered ==> SeekingAt(cur, rest, lvl - 1, curoff, absoff, Data(tree))
      ensures !entered ==>
        && |cur| == |rest| == NLEVELS && cur[lvl].pos == old(cur)[lvl].pos + ENTRY && From(height + 1)
        && if cur[lvl].pos >= |cur[lvl].buf| then absoff == TWO_64 - 1
           else
             && cur[lvl].pos + ENTRY <= MAXLEN && From(lvl)
             && Scanning(rest, lvl, absoff, Data(tree)) && Heading(rest, lvl, 0, absoff, leaf)
    {
      hide Stored, WellFormed, Data, Entries, Kids, RestFrom, Encode, Off, FromLE, Pow256, LevelOk, LevelsFrom, Heading;
      hide Contig;
      var c := cur[lvl];
      EntryFits(store.H, store.m, height, cur, rest, lvl);
      ScanOffsets(store.H, store.m, lvl, c, rest, absoff, Data(tree));
      curoff := FromLE(c.buf[c.pos..c.pos + 8]);
      var enthash := c.buf[c.pos + 8..c.pos + ENTRY];
      var p := c.pos + ENTRY;
      var nextoff := if p < |c.buf| then FromLE(c.buf[p..p + 8]) else (absoff + 1) % TWO_64;
      Pow256Values();
      ghost var was, before := rest, cur;
      cur := cur[lvl := c.(pos := p)];
      rest := rest[lvl := rest[lvl][1..]];
      LevelsUp(store.H, store.m, height, before, was, lvl, lvl + 1);
      LevelsSame(store.H, store.m, height, before, was, cur, rest, lvl + 1);
      LevelsJoin(store.H, store.m, height, cur, rest, lvl);
      LevelsUp(store.H, store.m, height, cur, rest, lvl, height + 1);
      entered := absoff < nextoff;
      if entered {
        EnterKid(lvl, absoff, enthash, was, leaf);
      } else if p < |c.buf| {
        ScanNext(was, rest, lvl, absoff, Data(tree));
        HeadNext(was, lvl, 0, absoff, leaf);
        EntryFits(store.H, store.m, height, cur, rest, lvl);
      }
    }

    /** The same step past the entries: there is no next entry, so the child is loaded if `absoff` is
        below its own successor. */
    method ScanStale(lvl: nat, absoff: nat) returns (curoff: nat, entered: bool)
      requires |cur| == |rest| == NLEVELS && lvl < NLEVELS && lvl <= height && From(height + 1) && absoff == TWO_64 - 1
      modifies this`cur
      ensures |cur| == NLEVELS && From(height + 1) && !entered
      ensures cur[lvl] == old(cur)[lvl].(pos := old(cur)[lvl].pos + ENTRY)
    {
      hide LevelOk, LevelsFrom;
      curoff := *;
      var nextoff := (absoff + 1) % TWO_64;
      var c := cur[lvl];
      cur := cur[lvl := c.(pos := c.pos + ENTRY)];
      LevelsSame(store.H, store.m, height, old(cur), rest, cur, rest, height + 1);
      entered := absoff < nextoff;
    }

    /** Load the child just passed, the first one of `was` at level `lvl`. */
    method EnterKid(lvl: nat, absoff: nat, enthash: Hash, ghost was: seq<seq<Tree>>, ghost leaf: nat)
      requires Rooted() && From(lvl) && 0 < lvl <= height && |was| == |rest|
      requires Scanning(was, lvl, absoff, Data(tree)) && rest == was[lvl := was[lvl][1..]]
      requires |was[lvl]| == 1 || absoff < Off(was[lvl][1])
      requires Kid(store.H, store.m, lvl, was[lvl][0]) && enthash == Addr(store.H, was[lvl][0])
      requires enthash in store.m && store.m[enthash] == Encode(store.H, was[lvl][0])
      requires Heading(was, lvl, 0, absoff, leaf)
      modifies this`cur, this`rest
      ensures Rooted() && From(lvl - 1)
      ensures SeekingAt(cur, rest, lvl - 1, Off(was[lvl][0]), absoff, Data(tree))
      ensures Heading(rest, lvl - 1, Off(was[lvl][0]), absoff, leaf)
    {
      hide Stored, WellFormed, Data, Entries, Kids, RestFrom, Encode, Landed, Addr, Off, Heading, LevelsFrom, LevelOk;
      ghost var t := was[lvl][0];
      ghost var before, mid := cur, rest;
      var buf := store.Get(enthash);
      cur := cur[lvl - 1 := Cursor(buf, 1)];
      rest := rest[lvl - 1 := if t.Leaf? then [] else t.kids];
      KidLoaded(store.H, store.m, lvl - 1, cur[lvl - 1], rest[lvl - 1], t);
      LevelsSame(store.H, store.m, height, before, mid, cur, rest, lvl);
      LevelsJoin(store.H, store.m, height, cur, rest, lvl - 1);
      ScanDown(store.H, store.m, cur, was, rest, lvl, absoff, Data(tree));
      HeadDown(store.H, store.m, cur[lvl - 1], was, rest, lvl, 0, absoff, leaf);
    }
  }
}
