/** An open file: a hash tree reader, and the position the file believes it has. */
module FsFile {
  import opened Bytes
  import opened HTree
  import opened HTreeLeaf
  import opened HTreeReader

  datatype Whence = Start | Current | End

  datatype ReadResult = Got(data: seq<byte>, full: bool) | Panics

  /** The 64-bit target of a seek relative to `base`. */
  function Target(base: int, off: Int64): (t: nat)
    ensures t < TWO_64
  {
    (base + off) % TWO_64
  }

  /** What is read from position `at` on. Just before the start is the level byte of the first leaf. */
  ghost function Stretch(d: seq<byte>, at: int): seq<byte>
    requires -1 <= at <= |d|
  {
    if at < 0 then [0] + d else d[at..]
  }

  lemma StretchStep(d: seq<byte>, at: int, k: nat)
    requires -1 <= at <= |d| && k <= |Stretch(d, at)|
    ensures at + k <= |d| && Stretch(d, at)[k..] == Stretch(d, at + k)
    ensures |Stretch(d, at)| == |d| - at
  {
  }

  class FileReader {
    const rdr: Reader
    const fsize: Int64
    var offset: nat

    ghost predicate Valid()
      reads this, rdr, rdr.store
    {
      rdr.Valid()
    }

    /** In the stream, or astray before it. */
    ghost predicate Ready()
      reads this, rdr, rdr.store
    {
      rdr.Valid() || rdr.Lost()
    }

    function Base(whence: Whence): int
      reads this
    {
      match whence case Start => 0 case Current => offset case End => fsize
    }

    constructor (rdr: Reader, fsize: Int64)
      requires rdr.Valid() && rdr.at == 0 && rdr.offset == 0
      ensures Valid() && this.rdr == rdr && this.fsize == fsize && offset == 0
    {
      this.rdr := rdr;
      this.fsize := fsize;
      offset := 0;
    }

    /** Seek as the tree reader does; a negative target is a very large one. A seek that moves the
        reader needs nothing of where it was. */
    method Seek(off: Int64, whence: Whence) returns (r: Sought)
      requires rdr.Opened()
      modifies this, rdr`cur, rdr`rest, rdr`at, rdr`height
      ensures rdr.Opened() && (old(Ready()) && r.At? ==> Ready())
      ensures var target := Target(old(Base(whence)), off);
        && (r == Crashed <==> rdr.offset != target && target == TWO_64 - 1 && Level(rdr.tree) > 0)
        && (rdr.offset == target ==> r == At(target) && unchanged(rdr))
        && (rdr.offset != target && r.At? ==>
              && rdr.at == Lands(rdr.tree, target)
              && if rdr.at >= 0 then Valid() && r.off == rdr.at else rdr.Lost() && r.off == target)
      ensures offset == if r.At? then r.off else old(offset)
    {
      hide Reader.Valid, Reader.Lost, Reader.Opened, Lands;
      var target := Target(Base(whence), off);
      r := rdr.Seek(target);
      if r.At? { offset := r.off; }
    }

    /** One read of the tree reader, which on a lost one does what ReadAstray says. */
    method Read(n: nat) returns (out: seq<byte>, eof: bool, panics: bool)
      requires Ready()
      modifies this, rdr`cur, rdr`rest, rdr`at, rdr`offset
      ensures Ready() && old(rdr.at) <= |Data(rdr.tree)| && (panics <==> old(rdr.at) < -1)
      ensures !panics ==>
        var s := Stretch(Data(rdr.tree), old(rdr.at));
          (eof <==> s == []) && |out| <= |s| && out == s[..|out|]
      ensures |out| <= n && (!eof && !panics && n > 0 ==> |out| > 0)
      ensures rdr.at == old(rdr.at) + |out|
      ensures rdr.offset == old(rdr.offset) + |out| && offset == old(offset) + |out|
    {
      hide Reader.Valid, Reader.Lost, Data;
      rdr.ReadyOpened();
      AtMost(rdr);
      eof, panics := false, false;
      if rdr.IsLost() {
        panics, out := rdr.ReadAstray(n);
      } else {
        out, eof := rdr.Read(n);
        AtMost(rdr);
      }
      offset := offset + |out|;
    }

    /** Read until `n` bytes or the end. */
    method ReadFull(n: nat) returns (r: ReadResult)
      requires Ready()
      modifies this, rdr`cur, rdr`rest, rdr`at, rdr`offset
      ensures r == Panics <==> old(rdr.at) < -1 && n > 0
      ensures r.Got? ==> Ready() && (r.full <==> |r.data| == n)
      ensures r.Got? ==> rdr.at == old(rdr.at) + |r.data|
      ensures r.Got? ==> rdr.offset == old(rdr.offset) + |r.data| && offset == old(offset) + |r.data|
      ensures r.Got? && n == 0 ==> r.data == []
      ensures r.Got? && n > 0 ==>
        && -1 <= old(rdr.at) <= |Data(rdr.tree)|
        && var s := Stretch(Data(rdr.tree), old(rdr.at)); r.data == s[..Min(n, |s|)]
    {
      hide Reader.Valid, Reader.Lost, Data, Stretch;
      var out, eof := [], false;
      AtMost(rdr);
      ghost var from, d := rdr.at, Data(rdr.tree);
      while |out| < n && !eof
        invariant Ready() && |out| <= n && rdr.at == from + |out| && offset == old(offset) + |out|
        invariant rdr.offset == old(rdr.offset) + |out| && (eof ==> n > 0)
        invariant from < -1 ==> out == [] && !eof
        invariant from >= -1 ==>
          && from <= |d| && |out| <= |Stretch(d, from)| && out == Stretch(d, from)[..|out|]
          && (eof ==> |out| == |Stretch(d, from)|)
        decreases n - |out|, !eof
      {
        var part, panics;
        part, eof, panics := Read(n - |out|);
        if panics { return Panics; }
        StretchStep(d, from, |out|);
        assert Stretch(d, from)[..|out| + |part|] == Stretch(d, from)[..|out|] + Stretch(d, from)[|out|..][..|part|];
        out := out + part;
      }
      r := Got(out, |out| == n);
    }

    /** Read `n` bytes at `off`, or what there is. The call moves the tree reader unless the believed
        position or the counter of bytes read is the target; `from` is where the reader then stands. */
    method ReadAt(n: nat, off: Int64) returns (r: ReadResult, ghost from: int)
      requires Ready()
      modifies this, rdr`cur, rdr`rest, rdr`at, rdr`height, rdr`offset
      ensures var u := Target(0, off);
        var moves := old(offset) != u && old(rdr.offset) != u;
        && from == (if moves then Lands(rdr.tree, u) else old(rdr.at))
        && (r == Panics <==> (moves && u == TWO_64 - 1 && Level(rdr.tree) > 0) || (from < -1 && n > 0))
        && (from == Min(u, |Data(rdr.tree)|) <==>
              if moves then u - LeafAt(rdr.tree, u) + 1 < TWO_63 else old(rdr.at) == Min(u, |Data(rdr.tree)|))
        && (r.Got? && old(offset) == u ==> offset == u + |r.data|)
        && (r.Got? && from == u ==> offset == rdr.at)
      ensures r.Got? ==> Ready() && (r.full <==> |r.data| == n) && rdr.at == from + |r.data|
      ensures r.Got? && n == 0 ==> r.data == []
      ensures r.Got? && n > 0 ==>
        && -1 <= from <= |Data(rdr.tree)|
        && var s := Stretch(Data(rdr.tree), from); r.data == s[..Min(n, |s|)]
      ensures r.Got? ==> rdr.offset == old(rdr.offset) + |r.data|
    {
      hide Reader.Valid, Reader.Lost, Reader.Opened, Data, Stretch, Lands;
      rdr.ReadyOpened();
      var u := Target(0, off);
      LandsIff(rdr.tree, u);
      from := if offset != u && rdr.offset != u then Lands(rdr.tree, u) else rdr.at;
      if offset != u {
        var o := Seek(off, Start);
        if o.Crashed? { return Panics, from; }
      }
      r := ReadFull(n);
    }

    /** One byte at 2, then one byte at 1: the second call returns the byte at 3. */
    method ReadAtMisses() returns (first: ReadResult, second: ReadResult)
      requires Valid() && offset == rdr.at == rdr.offset == 0 && |Data(rdr.tree)| >= 4
      modifies this, rdr`cur, rdr`rest, rdr`at, rdr`height, rdr`offset
      ensures first == Got([Data(rdr.tree)[2]], true) && second == Got([Data(rdr.tree)[3]], true)
    {
      hide Reader.Valid, Reader.Lost, Data;
      ghost var from;
      first, from := ReadAt(1, 2);
      second, from := ReadAt(1, 1);
    }

    /** Once the believed position is off, a call that needs no seek misses too: this one asks for the
        byte at 2 and gets the byte at 4. */
    method BelievedMisses() returns (third: ReadResult)
      requires Valid() && offset == rdr.at == rdr.offset == 0 && |Data(rdr.tree)| >= 5
      modifies this, rdr`cur, rdr`rest, rdr`at, rdr`height, rdr`offset
      ensures third == Got([Data(rdr.tree)[4]], true)
    {
      hide Reader.Valid, Reader.Lost, Reader.Opened, Data;
      rdr.ReadyOpened();
      var s := Seek(2, Start);
      var r := ReadFull(1);
      rdr.ReadyOpened();
      s := Seek(1, Start);
      r := ReadFull(1);
      assert offset == 2 && rdr.at == 4;
      ghost var from;
      third, from := ReadAt(1, 2);
    }

    /** Reading at -1 in a one-leaf file returns the level byte and then the file. */
    method LevelByteRead() returns (r: ReadResult)
      requires Valid() && offset == rdr.at == rdr.offset == 0 && Level(rdr.tree) == 0
      modifies this, rdr`cur, rdr`rest, rdr`at, rdr`height, rdr`offset
      ensures r == Got([0], true)
    {
      hide Reader.Valid, Reader.Lost, Data;
      LeafLow(rdr);
      ghost var from;
      r, from := ReadAt(1, -1);
    }

    /** Reading at -1 in a larger file panics, even if nothing is to be read. */
    method SeekPanics() returns (r: ReadResult)
      requires Valid() && offset == rdr.at == rdr.offset == 0 && Level(rdr.tree) > 0
      modifies this, rdr`cur, rdr`rest, rdr`at, rdr`height, rdr`offset
      ensures r == Panics
    {
      hide Reader.Valid, Reader.Lost, Data;
      ghost var from;
      r, from := ReadAt(0, -1);
    }

    /** Reading at -2 panics in every file of less than 2^62 bytes. */
    method StrayPanics() returns (r: ReadResult)
      requires Valid() && offset == rdr.at == rdr.offset == 0 && |Data(rdr.tree)| < TWO_63 / 2
      modifies this, rdr`cur, rdr`rest, rdr`at, rdr`height, rdr`offset
      ensures r == Panics
    {
      hide Reader.Valid, Reader.Lost, Data;
      LeafLow(rdr);
      ghost var from;
      r, from := ReadAt(1, -2);
    }

    /** A lost reader is repaired by the next seek that moves it, and not by one to the counter. */
    method SeekRepairs() returns (s: Sought)
      requires Valid() && offset == rdr.at == rdr.offset == 0 && 0 < |Data(rdr.tree)| < TWO_63 / 2
      modifies this, rdr`cur, rdr`rest, rdr`at, rdr`height
      ensures s == At(1) && Valid() && rdr.at == 1
    {
      hide Reader.Valid, Reader.Lost, Reader.Opened, Data;
      rdr.ReadyOpened();
      LeafLow(rdr);
      s := Seek(-2, Start);
      assert rdr.Lost() && rdr.at == -2;
      s := Seek(0, Start);
      assert s == At(0) && rdr.at == -2;
      s := Seek(1, Start);
    }
  }

  lemma AtMost(r: Reader)
    requires r.Valid() || r.Lost()
    ensures r.at <= |Data(r.tree)|
  {
  }

  /** A search never ends behind the stream. */
  lemma LeafLow(r: Reader)
    requires r.Valid() || r.Lost()
    ensures forall u: nat {:trigger LeafAt(r.tree, u)} :: LeafAt(r.tree, u) <= |Data(r.tree)|
    ensures Level(r.tree) == 0 ==> forall u: nat {:trigger LeafAt(r.tree, u)} :: LeafAt(r.tree, u) == 0
  {
    forall u: nat ensures LeafAt(r.tree, u) <= |Data(r.tree)| {
      LeafAtLast(r.tree, u);
      StartsBound(r.tree);
    }
  }

  lemma LandsIff(t: Tree, u: nat)
    requires u < TWO_64
    ensures Lands(t, u) == Min(u, |Data(t)|) <==> u - LeafAt(t, u) + 1 < TWO_63
  {
  }
}
