/** Whole runs of the content store against a plain map. */
module CStoreRun {
  import opened Bytes
  import opened ChunkStore
  import opened BPack
  import CStore
  import GcSweep

  /** `Arrive`: another client has written the pack `es`, and the contents are `more` from then on. */
  datatype Op = Put(data: seq<byte>) | Get(hash: Hash) | Flush | Arrive(es: seq<Entry>, more: CStore.Contents)

  /** What a plain map makes of an operation. A chunk too large for a pack entry is refused. */
  function Step(H: Hasher, c: CStore.Codec, m: CStore.Contents, op: Op): CStore.Contents {
    match op
    case Put(data) => if |c.compress(data)| <= MAX_ENTRY then m[H(data) := data] else m
    case Get(_) => m
    case Flush => m
    case Arrive(_, more) => more
  }

  datatype Answer = Got(r: CStore.Fetched) | Stored(ok: bool) | Done

  function Reply(c: CStore.Codec, m: CStore.Contents, op: Op): Answer {
    match op
    case Put(data) => Stored(|c.compress(data)| <= MAX_ENTRY)
    case Get(h) => Got(if h in m then CStore.Fetched(m[h]) else CStore.Missing)
    case Flush => Done
    case Arrive(_, _) => Done
  }

  function After(H: Hasher, c: CStore.Codec, m: CStore.Contents, ops: seq<Op>): CStore.Contents {
    if ops == [] then m else Step(H, c, After(H, c, m, ops[..|ops| - 1]), ops[|ops| - 1])
  }

  lemma AfterNone(H: Hasher, c: CStore.Codec, m: CStore.Contents, ops: seq<Op>)
    ensures After(H, c, m, ops[..0]) == m
  {
  }

  lemma AfterSnoc(H: Hasher, c: CStore.Codec, m: CStore.Contents, ops: seq<Op>, i: nat)
    requires i < |ops|
    ensures After(H, c, m, ops[..i + 1]) == Step(H, c, After(H, c, m, ops[..i]), ops[i])
  {
    hide Step;
    assert ops[..i + 1][..i] == ops[..i];
  }

  /** No two different chunks share a hash, and others write proper packs. */
  ghost predicate Fair(H: Hasher, c: CStore.Codec, m: CStore.Contents, op: Op) {
    match op
    case Put(data) => H(data) in m ==> m[H(data)] == data
    case Get(_) => true
    case Flush => true
    case Arrive(es, more) =>
      && CStore.PackHolds(c, es, more) && |Values(es)| < GcSweep.TWO_32
      && CStore.Extends(m, more) && more.Keys == m.Keys + Keys(es)
  }

  ghost predicate FairRun(H: Hasher, c: CStore.Codec, m: CStore.Contents, ops: seq<Op>) {
    forall i | 0 <= i < |ops| :: Fair(H, c, After(H, c, m, ops[..i]), ops[i])
  }

  method Apply(s: CStore.Store, op: Op) returns (out: Answer)
    requires s.Valid() && Fair(s.H, s.codec, s.contents, op)
    modifies s
    ensures s.Valid() && s.contents == Step(s.H, s.codec, old(s.contents), op)
    ensures out == Reply(s.codec, old(s.contents), op)
  {
    hide CStore.Store.Valid, CStore.PackHolds, CStore.Grown, CStore.UpToDate, Values;
    out := Done;
    match op
    case Put(data) =>
      var h, ok := s.Put(data);
      out := Stored(ok);
    case Get(hash) =>
      var r := s.Get(hash);
      out := Got(r);
    case Flush =>
      s.Flush();
    case Arrive(es, more) =>
      ghost var used := s.packs.Keys + if s.pack.OpenPack? then {s.pack.name} else {};
      ghost var n := GcSweep.FreshName(used);
      var name: CStore.Name :| name !in s.packs && (s.pack.OpenPack? ==> name != s.pack.name);
      s.Arrive(name, es, more);
  }

  /** Every answer of every run is the plain map's, whatever was flushed, reloaded or written by other
      clients in between. */
  method Run(s: CStore.Store, ops: seq<Op>) returns (outs: seq<Answer>)
    requires s.Valid() && FairRun(s.H, s.codec, s.contents, ops)
    modifies s
    ensures s.Valid() && s.contents == After(s.H, s.codec, old(s.contents), ops) && |outs| == |ops|
    ensures forall i | 0 <= i < |ops| ::
      outs[i] == Reply(s.codec, After(s.H, s.codec, old(s.contents), ops[..i]), ops[i])
  {
    hide CStore.Store.Valid, Fair, Step, Reply, After;
    outs := [];
    ghost var m := s.contents;
    AfterNone(s.H, s.codec, m, ops);
    for i := 0 to |ops|
      invariant s.Valid() && s.contents == After(s.H, s.codec, m, ops[..i]) && |outs| == i
      invariant forall j | 0 <= j < i :: outs[j] == Reply(s.codec, After(s.H, s.codec, m, ops[..j]), ops[j])
    {
      var out := Apply(s, ops[i]);
      outs := outs + [out];
      AfterSnoc(s.H, s.codec, m, ops, i);
    }
    assert ops[..|ops|] == ops;
  }

  /** In the plain map, and so in every run, what was stored stays. */
  lemma {:induction false} PutStays(H: Hasher, c: CStore.Codec, m: CStore.Contents, ops: seq<Op>, i: nat)
    requires FairRun(H, c, m, ops) && i < |ops| && ops[i].Put? && |c.compress(ops[i].data)| <= MAX_ENTRY
    ensures var end := After(H, c, m, ops); H(ops[i].data) in end && end[H(ops[i].data)] == ops[i].data
    decreases |ops|
  {
    hide Step, Fair, FairRun;
    var n := |ops| - 1;
    FairInit(H, c, m, ops);
    if i < n { PutStays(H, c, m, ops[..n], i); }
    StepStays(H, c, After(H, c, m, ops[..n]), ops[n], ops[i].data);
  }

  lemma FairInit(H: Hasher, c: CStore.Codec, m: CStore.Contents, ops: seq<Op>)
    requires FairRun(H, c, m, ops) && ops != []
    ensures var n := |ops| - 1; FairRun(H, c, m, ops[..n]) && Fair(H, c, After(H, c, m, ops[..n]), ops[n])
  {
    hide Fair, After;
    var init := ops[..|ops| - 1];
    assert forall j | 0 <= j < |init| :: init[..j] == ops[..j] && init[j] == ops[j];
  }

  /** Whatever the map held at the start it holds at the end. */
  lemma {:induction false} RunExtends(H: Hasher, c: CStore.Codec, m: CStore.Contents, ops: seq<Op>)
    requires FairRun(H, c, m, ops)
    ensures CStore.Extends(m, After(H, c, m, ops))
    decreases |ops|
  {
    hide Step, Fair, FairRun;
    if ops != [] {
      FairInit(H, c, m, ops);
      RunExtends(H, c, m, ops[..|ops| - 1]);
      StepExtends(H, c, After(H, c, m, ops[..|ops| - 1]), ops[|ops| - 1]);
    }
  }

  lemma StepExtends(H: Hasher, c: CStore.Codec, m: CStore.Contents, op: Op)
    requires Fair(H, c, m, op)
    ensures CStore.Extends(m, Step(H, c, m, op))
  {
    hide CStore.PackHolds, Values;
  }

  lemma StepStays(H: Hasher, c: CStore.Codec, m: CStore.Contents, op: Op, data: seq<byte>)
    requires Fair(H, c, m, op) && |c.compress(data)| <= MAX_ENTRY
    requires op == Put(data) || (H(data) in m && m[H(data)] == data)
    ensures var m' := Step(H, c, m, op); H(data) in m' && m'[H(data)] == data
  {
    hide CStore.PackHolds, Values;
  }
}
