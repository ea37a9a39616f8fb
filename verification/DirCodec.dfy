/** The bytes of a directory: its entries one after the other, no count and no padding. */
module DirCodec {
  import opened Bytes
  import opened ChunkStore
  import opened Directory
  import opened HTreeWriter

  type DirEnt = Ent<Root>
  datatype Option<T> = None | Some(value: T)
  datatype Parsed = Short | Parsed(ent: DirEnt, rest: seq<byte>)

  const FIXED: nat := 53   // bytes of an entry after the name

  /** The fields after the name. */
  function EncodeFixed(e: DirEnt): seq<byte> {
    LE(Unsigned(e.size), 8) + (LE(e.mode, 4) + (LE(Unsigned(e.mtime), 8) + (LE(e.body.depth, 1) + e.body.addr)))
  }

  function EncodeEnt(e: DirEnt): seq<byte> {
    LE(|e.name|, 2) + (e.name + EncodeFixed(e))
  }

  /** The entry survives being written: its name length and tree depth are not cut off. */
  ghost predicate Fits(e: DirEnt) {
    |e.name| <= MAX_NAME && e.body.depth < 256
  }

  ghost predicate FitsAll(es: seq<DirEnt>) {
    forall i | 0 <= i < |es| :: Fits(es[i])
  }

  function Num(s: seq<byte>, width: nat): (n: nat)
    requires width <= |s|
    ensures n < Pow256(width)
  {
    FromLE(s[..width])
  }

  function ParseFixed(name: seq<byte>, data: seq<byte>): (p: Parsed)
    requires |name| <= MAX_NAME && |data| >= FIXED
    ensures p.Parsed? && p.ent.name == name && |p.rest| == |data| - FIXED
  {
    Pow256Values();
    var d3 := data[8..];
    var d4 := d3[4..];
    var d5 := d4[8..];
    var d6 := d5[1..];
    Parsed(Ent(name, Signed(Num(data, 8)), Signed(Num(d4, 8)), Num(d3, 4), Root(Num(d5, 1), d6[..32])), d6[32..])
  }

  /** One step of ReadDir's loop. `Short` stands for a slice out of range. */
  function ParseEnt(data: seq<byte>): (p: Parsed)
    ensures p.Parsed? ==> |p.rest| < |data|
  {
    if |data| < 2 then Short
    else
      var n, d1 := Num(data, 2), data[2..];
      Pow256Values();
      if |d1| < n + FIXED then Short else ParseFixed(d1[..n], d1[n..])
  }

  function Decode(data: seq<byte>): Option<seq<DirEnt>>
    decreases |data|
  {
    if data == [] then Some([])
    else
      match ParseEnt(data)
      case Short => None
      case Parsed(e, rest) =>
        match Decode(rest)
        case None => None
        case Some(es) => Some([e] + es)
  }

  lemma Cut(a: seq<byte>, b: seq<byte>)
    ensures (a + b)[..|a|] == a && (a + b)[|a|..] == b
  {
  }

  lemma NumLE(n: nat, width: nat, b: seq<byte>)
    requires n < Pow256(width)
    ensures Num(LE(n, width) + b, width) == n && (LE(n, width) + b)[width..] == b
  {
    Cut(LE(n, width), b);
    LERoundTrip(n, width);
  }

  lemma ParseEncodeFixed(e: DirEnt, tail: seq<byte>)
    requires Fits(e)
    ensures |EncodeFixed(e)| == FIXED && ParseFixed(e.name, EncodeFixed(e) + tail) == Parsed(e, tail)
  {
    hide LE, Num, Pow256, FromLE;
    Pow256Values();
    var d6 := e.body.addr + tail;
    var d5 := LE(e.body.depth, 1) + d6;
    var d4 := LE(Unsigned(e.mtime), 8) + d5;
    var d3 := LE(e.mode, 4) + d4;
    assert EncodeFixed(e) + tail == LE(Unsigned(e.size), 8) + d3;
    NumLE(Unsigned(e.size), 8, d3);
    NumLE(e.mode, 4, d4);
    NumLE(Unsigned(e.mtime), 8, d5);
    NumLE(e.body.depth, 1, d6);
    Cut(e.body.addr, tail);
  }

  lemma ParseEncode(e: DirEnt, tail: seq<byte>)
    requires Fits(e)
    ensures ParseEnt(EncodeEnt(e) + tail) == Parsed(e, tail)
  {
    hide LE, Num, Pow256, FromLE, ParseFixed, EncodeFixed;
    Pow256Values();
    var d2 := EncodeFixed(e) + tail;
    var d1 := e.name + d2;
    assert EncodeEnt(e) + tail == LE(|e.name|, 2) + d1;
    NumLE(|e.name|, 2, d1);
    Cut(e.name, d2);
    ParseEncodeFixed(e, tail);
  }

  lemma Split(s: seq<byte>, k: nat)
    requires k <= |s|
    ensures s == LE(Num(s, k), k) + s[k..]
  {
    FromLERoundTrip(s[..k]);
    assert s == s[..k] + s[k..];
  }

  lemma EncodeParseFixed(name: seq<byte>, data: seq<byte>)
    requires |name| <= MAX_NAME && |data| >= FIXED
    ensures var p := ParseFixed(name, data); p.ent.body.depth < 256 && data == EncodeFixed(p.ent) + p.rest
  {
    hide LE, Num, Pow256, FromLE, EncodeFixed;
    Pow256Values();
    var d3 := data[8..];
    var d4 := d3[4..];
    var d5 := d4[8..];
    var d6 := d5[1..];
    Split(data, 8);
    Split(d3, 4);
    Split(d4, 8);
    Split(d5, 1);
    assert d6 == d6[..32] + d6[32..];
    Joined(ParseFixed(name, data).ent, d6[32..], d5, d4, d3);
  }

  lemma Joined(e: DirEnt, tail: seq<byte>, d5: seq<byte>, d4: seq<byte>, d3: seq<byte>)
    requires d5 == LE(e.body.depth, 1) + (e.body.addr + tail) && d4 == LE(Unsigned(e.mtime), 8) + d5
    requires d3 == LE(e.mode, 4) + d4
    ensures EncodeFixed(e) + tail == LE(Unsigned(e.size), 8) + d3
  {
    hide LE;
  }

  lemma EncodeParse(data: seq<byte>)
    ensures match ParseEnt(data) case Short => true case Parsed(e, rest) => Fits(e) && data == EncodeEnt(e) + rest
  {
    hide LE, Num, Pow256, FromLE, EncodeFixed, ParseFixed;
    Pow256Values();
    if ParseEnt(data).Parsed? {
      var n, d1 := Num(data, 2), data[2..];
      Split(data, 2);
      assert d1 == d1[..n] + d1[n..];
      EncodeParseFixed(d1[..n], d1[n..]);
      var p := ParseEnt(data);
      Assoc(p.ent.name, EncodeFixed(p.ent), p.rest);
      Assoc(LE(n, 2), p.ent.name + EncodeFixed(p.ent), p.rest);
    }
  }

  /** The codec is a bijection: exactly the encodings decode, and each to what was encoded. */
  lemma {:induction false} DecodeIff(data: seq<byte>, es: seq<DirEnt>)
    ensures Decode(data) == Some(es) <==> data == Flat(EncodeEnt, es) && FitsAll(es)
    decreases |data|
  {
    hide EncodeEnt, ParseEnt, Fits;
    if es == [] {
      if data != [] { NothingEmpty(data); }
    } else {
      var e, more := es[0], es[1..];
      assert es == [e] + more;
      FlatCons(EncodeEnt, e, more);
      EntNonEmpty(e);
      if data != [] {
        EncodeParse(data);
        if Fits(e) { ParseEncode(e, Flat(EncodeEnt, more)); }
        match ParseEnt(data)
        case Short =>
        case Parsed(e', rest) =>
          DecodeIff(rest, more);
          if Decode(rest).Some? {
            var es' := Decode(rest).value;
            DecodeIff(rest, es');
            assert ([e'] + es')[1..] == es' && ([e'] + es')[0] == e';
          }
      }
    }
  }

  lemma NothingEmpty(data: seq<byte>)
    requires data != []
    ensures Decode(data) != Some([])
  {
  }

  lemma EntNonEmpty(e: DirEnt)
    ensures EncodeEnt(e) != []
  {
  }
}
