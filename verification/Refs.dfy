/**
 Refs: a time stamp, the root of a file system and, for all but the first version, the hash of the
 previous ref. A history is the list of versions, newest first; its ref commits to all of it.
 */
module Refs {
  import opened Bytes
  import opened ChunkStore
  import opened Directory
  import opened DirCodec
  import opened HTree
  import opened HTreeWriter
  import opened HTreeStream

  datatype Ref = Ref(createdAt: Int64, root: Hash, prev: Option<Hash>)
  datatype RefResult = Ok(ref: Ref) | Invalid | Panic

  datatype Version = Version(createdAt: Int64, root: Hash)
  type History = seq<Version>

  function Parts(ref: Ref): seq<seq<byte>> {
    [LE(Unsigned(ref.createdAt), 8), ref.root] + if ref.prev.Some? then [ref.prev.value] else []
  }

  function EncodeRef(ref: Ref): seq<byte> {
    LE(Unsigned(ref.createdAt), 8) + (ref.root + if ref.prev.Some? then ref.prev.value else [])
  }

  /** Anything but one or two hashes after the time is invalid; less than a time is a slice out of range. */
  function DecodeRef(data: seq<byte>): RefResult {
    if |data| < 8 then Panic
    else
      Pow256Values();
      var at, rest := Signed(FromLE(data[..8])), data[8..];
      if |rest| == 32 then Ok(Ref(at, rest, None))
      else if |rest| == 64 then Ok(Ref(at, rest[..32], Some(rest[32..])))
      else Invalid
  }

  /** Exactly the encodings decode, each to the ref it came from. */
  lemma DecodeRefIff(data: seq<byte>, ref: Ref)
    ensures DecodeRef(data) == Ok(ref) <==> data == EncodeRef(ref)
  {
    hide LE, FromLE;
    Pow256Values();
    var n := Unsigned(ref.createdAt);
    var rest := ref.root + if ref.prev.Some? then ref.prev.value else [];
    LERoundTrip(n, 8);
    Cut(LE(n, 8), rest);
    Cut(ref.root, if ref.prev.Some? then ref.prev.value else []);
    if |data| >= 8 {
      FromLERoundTrip(data[..8]);
      assert data == data[..8] + data[8..];
      if |data[8..]| == 64 { assert data[8..] == data[8..][..32] + data[8..][32..]; }
      assert |data[8..]| == 32 ==> data[8..] + [] == data[8..];
    }
  }

  // ---------------------------------------------------------------- histories

  ghost function RefOf(H: Hasher, hist: History): Ref
    requires hist != []
    decreases |hist|, 0
  {
    Ref(hist[0].createdAt, hist[0].root, if |hist| == 1 then None else Some(RefAddr(H, hist[1..])))
  }

  ghost function RefAddr(H: Hasher, hist: History): Hash
    requires hist != []
    decreases |hist|, 1
  {
    Addr(H, CanonTree(EncodeRef(RefOf(H, hist))))
  }

  ghost predicate RefStored(H: Hasher, m: Chunks, ref: Ref) {
    Stored(H, m, CanonTree(EncodeRef(ref)))
  }

  /** The refs of every version are in the store. */
  ghost predicate HistoryStored(H: Hasher, m: Chunks, hist: History) {
    hist != [] ==> RefStored(H, m, RefOf(H, hist)) && HistoryStored(H, m, hist[1..])
  }

  lemma PartsJoined(ref: Ref)
    ensures Flatten(Parts(ref)) == EncodeRef(ref)
  {
    hide LE;
    var ps := Parts(ref);
    FlattenStep(ps, 0);
    FlattenStep(ps, 1);
    FlattenStep(ps, 2);
    if ref.prev.Some? { FlattenStep(ps, 3); }
    assert ref.prev.Some? ==> ref.prev.value + [] == ref.prev.value;
  }

  /** Written in two or three parts, stored under the hash of the whole. */
  method PutRef(store: Store, ref: Ref) returns (h: Hash)
    modifies store
    ensures h == Addr(store.H, CanonTree(EncodeRef(ref)))
    ensures store.clean ==> RefStored(store.H, store.m, ref)
    ensures Grows(old(store.m), store.m) && (store.clean ==> old(store.clean))
  {
    hide Stored, CanonTree, Addr, Level, Flatten;
    PartsJoined(ref);
    var r := WriteParts(store, Parts(ref));
    h := r.addr;
  }

  method GetRef(store: Store, hash: Hash, ghost ref: Ref) returns (r: RefResult)
    requires RefStored(store.H, store.m, ref) && hash == Addr(store.H, CanonTree(EncodeRef(ref)))
    ensures r == Ok(ref)
  {
    hide Stored, CanonTree, Addr, Level;
    var data, height := ReadBack(store, hash, EncodeRef(ref));
    DecodeRefIff(data, ref);
    r := DecodeRef(data);
  }

  /** One version back. */
  lemma Previous(H: Hasher, m: Chunks, hist: History)
    requires hist != [] && HistoryStored(H, m, hist[1..])
    ensures RefOf(H, hist).prev.Some? <==> |hist| > 1
    ensures |hist| > 1 ==> RefStored(H, m, RefOf(H, hist[1..])) && HistoryStored(H, m, hist[1..][1..])
    ensures |hist| > 1 ==> RefOf(H, hist).prev.value == Addr(H, CanonTree(EncodeRef(RefOf(H, hist[1..]))))
  {
    hide RefStored, CanonTree, Addr, EncodeRef;
  }

  /** Index of the newest version in list order that is not after `at`, or the length. */
  function FirstAt(hist: History, at: Int64): (i: nat)
    ensures i <= |hist| && (i < |hist| ==> hist[i].createdAt <= at)
    ensures forall j | 0 <= j < i :: hist[j].createdAt > at
  {
    if hist == [] || hist[0].createdAt <= at then 0
    else
      assert hist == [hist[0]] + hist[1..];
      1 + FirstAt(hist[1..], at)
  }

  method GetAtTime(store: Store, start: Ref, at: Int64, ghost hist: History) returns (found: bool, ref: Ref)
    requires hist != [] && start == RefOf(store.H, hist) && HistoryStored(store.H, store.m, hist[1..])
    ensures found <==> exists i | 0 <= i < |hist| :: hist[i].createdAt <= at
    ensures found ==> ref == RefOf(store.H, hist[FirstAt(hist, at)..])
  {
    hide RefStored, CanonTree, Addr, HistoryStored, FirstAt;
    ref := start;
    ghost var i := 0;
    assert hist[0..] == hist;
    while true
      invariant i < |hist| && ref == RefOf(store.H, hist[i..]) && HistoryStored(store.H, store.m, hist[i..][1..])
      invariant forall j | 0 <= j < i :: hist[j].createdAt > at
      decreases |hist| - i
    {
      if at >= ref.createdAt {
        assert FirstAt(hist, at) == i;
        return true, ref;
      }
      Previous(store.H, store.m, hist[i..]);
      if ref.prev.None? { return false, ref; }
      var got := GetRef(store, ref.prev.value, RefOf(store.H, hist[i..][1..]));
      ref := got.ref;
      i := i + 1;
      assert hist[i - 1..][1..] == hist[i..];
    }
  }

  /** When every version is at least as new as the one before it, what GetAtTime finds is the newest
      version of that time or earlier. */
  lemma FirstAtNewest(hist: History, at: Int64, i: nat)
    requires forall a, b | 0 <= a < b < |hist| :: hist[a].createdAt >= hist[b].createdAt
    requires i < |hist| && hist[i].createdAt <= at
    ensures FirstAt(hist, at) <= i && hist[FirstAt(hist, at)].createdAt >= hist[i].createdAt
  {
    hide FirstAt;
  }

  /** The history as it was `n` versions ago, or at its first version when there are not that many. */
  function Ago(hist: History, n: nat): (r: History)
    requires hist != []
    ensures r != [] && |r| <= |hist| && r == hist[|hist| - |r|..]
    ensures |r| == if n < |hist| then |hist| - n else 1
  {
    if n == 0 || |hist| == 1 then hist else Ago(hist[1..], n - 1)
  }

  method GetNVersionsAgo(store: Store, start: Ref, n: nat, ghost hist: History) returns (ref: Ref)
    requires hist != [] && start == RefOf(store.H, hist) && HistoryStored(store.H, store.m, hist[1..])
    ensures ref == RefOf(store.H, Ago(hist, n))
  {
    hide RefStored, CanonTree, Addr, HistoryStored, Ago;
    ref := start;
    var left: nat := n;
    ghost var i := 0;
    assert hist[0..] == hist;
    while left != 0
      invariant i < |hist| && ref == RefOf(store.H, hist[i..]) && HistoryStored(store.H, store.m, hist[i..][1..])
      invariant left + i == n
      decreases left
    {
      Previous(store.H, store.m, hist[i..]);
      if ref.prev.None? { break; }
      var got := GetRef(store, ref.prev.value, RefOf(store.H, hist[i..][1..]));
      ref := got.ref;
      left := left - 1;
      i := i + 1;
      assert hist[i - 1..][1..] == hist[i..];
    }
    assert left > 0 ==> i == |hist| - 1;
    assert Ago(hist, n) == hist[i..];
  }
}
