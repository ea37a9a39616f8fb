/**
 The content-addressed chunk store as its clients see it: a map from 32-byte hash to chunk.

 The hash function is a parameter. No function from all byte strings to 32 bytes is injective, so
 collision freedom is not assumed of the function: `clean` records whether two different chunks put
 into this store ever shared a hash, and results that need collision freedom say `clean ==> ...`.
 */
module ChunkStore {
  import opened Bytes

  const ZERO_HASH: seq<byte> := Zeros(32)

  type Hash = h: seq<byte> | |h| == 32 witness ZERO_HASH
  type Hasher = seq<byte> -> Hash
  type Chunks = map<Hash, seq<byte>>

  /** `m'` still holds everything `m` held, under the same hashes. */
  ghost predicate Grows(m: Chunks, m': Chunks) {
    forall h :: h in m ==> h in m' && m'[h] == m[h]
  }

  class Store {
    const H: Hasher
    var m: Chunks
    var clean: bool

    constructor (H: Hasher)
      ensures this.H == H && m == map[] && clean
    {
      this.H := H;
      m := map[];
      clean := true;
    }

    /** A chunk whose hash is already present is not written again, whatever its contents. */
    method Put(data: seq<byte>) returns (h: Hash)
      modifies this
      ensures h == H(data) && h in m
      ensures Grows(old(m), m) && m.Keys == old(m).Keys + {h}
      ensures clean == (old(clean) && m[h] == data)
    {
      h := H(data);
      if h !in m {
        m := m[h := data];
      }
      clean := clean && m[h] == data;
    }

    method Get(h: Hash) returns (data: seq<byte>)
      requires h in m
      ensures data == m[h]
    {
      data := m[h];
    }
  }
}
