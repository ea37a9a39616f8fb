# A verified model of bpy's storage layers

bpy keeps snapshots of a file system in encrypted, content-addressed storage. This project models
its storage layers in Dafny, from the byte formats up to a whole garbage collection, and proves what
they promise of every input, every run and every state a crash can leave behind.

| file | what it models |
|---|---|
| `Bytes`, `ChunkStore` | little-endian integers; the store of chunks by hash |
| `HTree`, `HTreeLeaf`, `HTreeWriter`, `HTreeReader`, `HTreeStream` | hash trees: the batch construction, which leaf an offset leads to, the streaming writer and reader, the two together |
| `Ctr`, `CryptoFile`, `CryptoWriter`, `CryptoReader` | seekable files in counter mode (section 6.5 of NIST SP 800-38A) with 0x80 padding |
| `BPack`, `BPackWriter`, `BPackReader`, `BPackTrip` | encrypted pack files and their sorted index |
| `LruList`, `CacheSpec`, `Cache`, `CacheRun` | the write-behind chunk cache: pointer ring, recency-ordered map, the cache, whole runs of it |
| `CStore`, `CStoreRun` | the content store: working set, open pack, closed packs, stale meta index |
| `Directory`, `DirCodec`, `FsTree`, `FsLaws`, `FsStore`, `Fs`, `FsFile` | directories, the file system as a persistent tree, its operations over the store, open files |
| `Refs` | refs and version histories |
| `GcRun`, `GcState`, `GcSweep`, `GcMark`, `Gc` | garbage collection: runs of values, the sweep as a state machine, the sweep itself, marking, the whole |
| `Backup` | how the parts meet: a new version extends the archive, a flushed store can be collected, and a collected one opened, used and collected again |

## How it is modelled

- Code that updates fields or buffers is a class with `modifies` clauses, proved against functions
  or ghost state that say what it means. Pure code is functions and lemmas.
- SHA-256 and AES are arbitrary functions, DEFLATE a pair of functions of which one undoes the other.
  No function from byte strings to 32 bytes is injective, so collision freedom is not assumed of the
  hash: a store remembers in `clean` whether two different chunks put into it shared a hash, and
  results that need it say `clean ==> ...`. `CStore` asks the same of its caller, chunk by chunk.
- A reader is given what it reads as a ghost argument (the tree, the plaintext, the entries), and its
  contract says that it returns exactly that.
- Machine integers are written out where they matter: 64-bit stream offsets, two's complement times
  and sizes, 24-bit entry sizes, the 32-bit sum of a copied run.
- The remote is a map of closed packs. Every call of the sweep may fail, one that changes
  the remote with or without having had its effect, and every state it passes through is recorded.
- `sort.Sort` is not stable. Where ties are possible the results are proved for every order it may
  leave them in.

## Where a natural property fails

The model does what the code does. Each failing property has its exact condition and an example.

- `htree.Reader.Seek` trusts a counter of bytes returned so far, which seeking does not set.
  `HTreeReader.Reader.Seek` states when it lands where it was asked to, and `FsFile.FileReader.ReadAt`
  when it reads from where it was asked to; `HTreeStream.SeekForgetsSeek`, `ReadAtMisses` and
  `BelievedMisses` are examples.
- A seek to 2^63 - 1 bytes or more behind the start of the leaf it ends at, as to an offset a little
  below zero, overflows the signed position in the leaf. `HTreeReader.Lands` says where every seek
  leads, in terms of `HTreeLeaf.LeafAt`, and `HTreeReader.CanonLands` in terms of the length of the
  stream. A seek to 2^64 - 1 in a tree with interior nodes always panics. `LevelByteRead`,
  `StrayPanics`, `SeekPanics` and `SeekRepairs` of `FsFile.FileReader` are examples.
- `cryptofile.Reader.Read` panics exactly when the position is inside the padding
  (`CryptoReader.Reader.Read`; `PaddingPanics` is an example).
- The run copy of the sweep cuts a run by adding up sizes, while the sort by offset is not stable.
  Every value gets its own bytes, in every run of every order the sort may give, exactly when no empty
  value is followed by two non-empty ones (`GcRun.RunsIff`); `GcRun.WrongBytes` is an input on which a
  value is given another one's bytes. The order itself is without gaps exactly when no empty value
  precedes a non-empty one (`GcRun.SortTilesIff`), which that input violates too. Packs of the store and of the collector hold
  compressed chunks, which are never empty, so both conditions hold of them (`CStore.Sweepable`,
  `GcSweep.InvFine`).
- A cache put of a value larger than the budget fails after emptying the cache (`CacheSpec.PutSpec`,
  `PutEmpties`). A put of a hash that is held changes nothing, and a cache opened on a database that is
  over the budget stays over it until a put of a hash that is not held (`CacheSpec.BudgetIff`,
  `StaysOver`).
- `WriteDir` compares neighbours only, so it takes some duplicate names, and "." as the greatest entry
  (`Directory.AcceptIff`, `ProperIff`; `DuplicateTaken`, `DotTaken`). Removing an entry can therefore be
  refused (`FsLaws.RemoveIff`, `TwinsRemove`), and on an empty parent it panics
  (`FsLaws.RemovePanicIff`, `EmptyPanics`).
- A move into the source's own subtree removes what it just copied (`FsLaws.MoveEnds`, `MoveInside`). A
  move can be refused after its copy was made; `FsLaws.MoveIff` says exactly when a move succeeds, and
  `MoveRefused` is an example.
- `Has` does not know chunks flushed automatically since the meta index was read; `Get` does
  (`CStore.Store.Put`, `HasForgets`).

Where the code and its documentation disagree the model follows the code: the cipher block has 16
bytes, a chunk's address is the hash of its uncompressed bytes, and an index entry holds key, size
and offset in that order.

## Model

| member | source | states |
|---|---|---|
| `HTree.CanonTreeSpec` | htree/writer.go:15-116 | the batch tree of any stream below 2^64 bytes is well formed, with no chunk longer than 65535 bytes, holds exactly its bytes from offset 0, is at most 5 levels deep, and an interior root has at least two children |
| `HTree.PushGroup` | htree/writer.go:43-76 | adding one tree to a level either extends the open group or closes it and starts the next |
| `HTreeLeaf.LeafAtLast` | htree/reader.go:56-79 | the search through a tree ends at the last of its leaves that starts at or before the offset |
| `HTreeLeaf.CanonLeaf` | htree/reader.go:56-79 | in a written stream that leaf starts at the offset, or that of the last byte, rounded down to a multiple of 65534 |
| `HTreeWriter.Writer.Write` | htree/writer.go:23-41 | the stream grows by exactly the bytes given, every level keeps its invariant, and stored chunks stay |
| `HTreeWriter.Writer.FlushLvl` | htree/writer.go:43-76 | the tree of a full level becomes one entry of the level above, cascading upwards; lower levels do not change |
| `HTreeWriter.Writer.Close` | htree/writer.go:78-116 | the root is that of the batch tree over all bytes written, and without collisions the whole tree is stored |
| `HTreeReader.Reader.constructor` | htree/reader.go:20-35 | a reader starts at offset 0 with the height of the tree |
| `HTreeReader.Reader.Read` | htree/reader.go:91-107 | the bytes returned are the next ones of the stream, at least one unless at the end, and end of file is reported exactly at the end |
| `HTreeReader.Reader.Next` | htree/reader.go:109-137 | refilling a drained level keeps the bytes still to come and reports the end exactly when there are none |
| `HTreeReader.Reader.Seek` | htree/reader.go:41-89 | for every 64-bit target and any state of the levels below the root: unless the counter of bytes read is the target, when nothing changes, the reader ends at the target or the end of a shorter stream if and only if the target is less than 2^63 - 1 bytes behind the start of the leaf the search ends at, and otherwise astray at the target less 2^64; it panics if and only if the target is 2^64 - 1 in a tree with interior nodes |
| `HTreeReader.Reader.ReadAstray` | htree/reader.go:91-107 | a read on a reader that went astray panics if and only if its position is below -1; at -1 it returns the level byte and then the stream, and is back in it |
| `HTreeReader.Reader.SeekLevel` | htree/reader.go:57-79 | the child entered is the one the search for the target leads to, and what follows it is what follows in the stream; for 2^64 - 1 the scan goes on to the end of the buffer, whatever earlier chunks left there, and panics |
| `HTreeReader.CanonLands` | htree/reader.go:80-88 | in a written stream a seek that moves the reader lands at the target or the end if and only if the target is less than 2^63 - 1 bytes behind the start of the last leaf |
| `HTreeStream.WriteParts` | htree/writer.go:15-116 | the root depends on the bytes alone, not on how writes were cut; depth at most 5, recorded in the root chunk |
| `HTreeStream.ReadBack` | htree/reader.go:20-137 | what was written is read back, whatever the buffer sizes, with the height recorded in the root |
| `HTreeStream.SeekForgetsSeek` | htree/reader.go:41-44 | seeking to 1 and back to 0 leaves the reader at 1 while reporting 0 |
| `Ctr.AddVecSum` | cryptofile/ctr.go:26-48 | the carry loop adds to the big-endian counter modulo 256^n |
| `Ctr.CtrVecAdd` | cryptofile/ctr.go:26-48 | adding n to the vector of block k gives the vector of block k + n, with wrap-around |
| `Ctr.CtrState.Add` | cryptofile/ctr.go:26-48 | the in-place loop computes that sum |
| `Ctr.CtrState.Reset` | cryptofile/ctr.go:22-24 | the counter is the initial vector again |
| `CryptoFile.PadMark` | cryptofile/writer.go:60-70 | padding is one 0x80 byte and zeros up to a whole block, so its length can be told from the last block |
| `CryptoFile.CryptAppend` | cryptofile/writer.go:37-44 | encrypting a longer stream encrypts the next block with its own counter and leaves the earlier ones as they were |
| `CryptoFile.XorTwice` | cryptofile/ctr.go:50-57 | applying a key stream twice gives back the data |
| `CryptoWriter.Writer.Write` | cryptofile/writer.go:46-58 | the plaintext grows by exactly the data, across any split into calls |
| `CryptoWriter.Writer.Close` | cryptofile/writer.go:60-70 | the output is the initial vector and the encryption of the padded plaintext, block by counter block |
| `CryptoReader.Reader.ReadBlocks` | cryptofile/reader.go:70-120 | whole blocks are decrypted from any block index on, and in the last one the padding is cut off exactly |
| `CryptoReader.Reader.Read` | cryptofile/reader.go:122-157 | the plaintext at the position, never padding; panics if and only if the position lies inside the padding |
| `CryptoReader.Reader.PaddingPanics` | cryptofile/reader.go:122-157 | a read one byte behind the end of the plaintext panics if there is more than one byte of padding |
| `CryptoReader.Reader.Seek` | cryptofile/reader.go:47-59 | the position is the target clamped to the file, padding included |
| `CryptoReader.Reader.Size` | cryptofile/reader.go:61-68 | the length of the plaintext |
| `CryptoReader.Reader.ReadFull` | bpack/reader.go:41-46 | exactly the asked bytes, or end of file |
| `BPack.KeyLessTotal` | bpack/bpack.go:15-23 | the key order is total and irreflexive |
| `BPack.Search` | bpack/bpack.go:25-40 | bisection of a sorted index finds a key exactly when it is there |
| `BPack.SortedUnique` | bpack/writer.go:79-100 | a sorted index is determined by its entries, whatever the sort does |
| `BPack.IndexAt` | bpack/writer.go:61-77 | every index entry points at its own value |
| `BPackWriter.Writer.Add` | bpack/writer.go:61-77 | the first value under a key stays; too large a value is refused and changes nothing |
| `BPackWriter.Writer.WriteIndex` | bpack/writer.go:79-100 | the sorted index is written after the values; refused exactly when a key is too long |
| `BPackWriter.Writer.Close` | bpack/writer.go:102-113 | the file is the encryption of values, sorted index and index offset |
| `BPackReader.ReadIndex` | bpack/reader.go:102-126 | an index that was written is parsed to the same entries |
| `BPackReader.Pack.LoadIndex` | bpack/reader.go:52-67 | the index is found through the last eight plaintext bytes |
| `BPackReader.Pack.Get` | bpack/reader.go:31-39 | the value of a key that was added, not found otherwise |
| `BPackTrip.StoreAndFetch` | bpack/encrypted.go:9-35 | write, close, reopen, look up gives the first value added under the key; it fails only for too large keys or values or a file of 2^63 bytes |
| `LruList.List.Remove` | cstore/cache/cache.go:55-61 | the ring without the entry, both link directions right, nothing else reordered |
| `LruList.List.LinkFront` | cstore/cache/cache.go:41-53 | the ring with the entry in front |
| `LruList.List.MoveToFront` | cstore/cache/cache.go:63-71 | the entry moves to the front, the others keep their order |
| `CacheSpec.EvictLongest` | cstore/cache/cache.go:171-182 | eviction keeps the longest most recent prefix that leaves room |
| `CacheSpec.PutSpec` | cstore/cache/cache.go:162-198 | a put of a new value fails if and only if it is larger than the budget, and then the cache is empty; otherwise it ends within budget with the value in front |
| `CacheSpec.PutEmpties` | cstore/cache/cache.go:171-174 | two bytes put into a cache for one byte are refused, and the byte that was held is gone |
| `CacheSpec.RunKeeps` | cstore/cache/cache.go:134-198 | after every run, from any start, each item held is that of the last put made while its hash was absent, or was there at the start, and has been held without a break since |
| `CacheSpec.RunDistinct` | cstore/cache/cache.go:134-198 | no hash is ever held twice |
| `CacheSpec.BudgetIff` | cstore/cache/cache.go:162-198 | the budget is met after a run if and only if it was met at the start or some put of the run was of a hash not held at the time |
| `CacheSpec.StaysOver` | cstore/cache/cache.go:166-169 | a cache for one byte opened on two bytes still holds two after their hash is put again |
| `CacheSpec.RelistSame` | cstore/cache/cache.go:85-132 | the items a database lists, in any order, are exactly those that were written to it, each once |
| `CacheSpec.StepStable` | cstore/cache/cache.go:134-198 | an item survives every operation that does not evict it |
| `Cache.Cache.constructor` | cstore/cache/cache.go:85-132 | opening on any database, over the budget or not, gives exactly its contents with the last one listed in front, within the three-way invariant |
| `Cache.Cache.Get` | cstore/cache/cache.go:134-160 | found exactly when held, with the held value; pending changes win over the database; the item becomes the most recent |
| `Cache.Cache.Put` | cstore/cache/cache.go:162-198 | ring, map, size, pending sets and database together go from one recency-ordered map to the next |
| `Cache.Cache.FlushPending` | cstore/cache/cache.go:200-229 | a successful flush makes the database the contents, a failed one changes nothing, and neither is visible to Get |
| `CacheRun.Restart` | cstore/cache/cache.go:85-237 | closing and opening again keeps exactly the items, in the order the database lists them; a failed close leaves the cache open and its items unchanged |
| `CacheRun.Run` | cstore/cache/cache.go:85-237 | every answer of every run of gets, puts, flushes and reopenings on a real cache, opened on any database, is the specification's, or reports a failed write of the database after a flush or a put of a hash not held; such a failure changes no later answer |
| `CStore.SearchMetaIndex` | cstore/mindex.go:23-34 | found exactly when the meta index has the key, and then in the pack's own index: the corrupt-index panic is unreachable |
| `CStore.ReadMetaIndex` | cstore/mindex.go:61-88 | knows every key of every closed pack, for any order of the listing |
| `CStore.Store.Put` | cstore/writer.go:95-161 | the contents gain exactly the chunk; refused exactly when its compressed form is too large, and then the contents do not change; Has sees the chunk afterwards if and only if it was known before or this put did not fill the pack |
| `CStore.Store.Get` | cstore/reader.go:53-95 | the chunk if it was ever put, whatever was flushed since and however stale the meta index; missing otherwise |
| `CStore.Store.Has` | cstore/writer.go:85-93 | never wrong about presence, and exact when the meta index is up to date |
| `CStore.Store.FlushWorkingSet` | cstore/writer.go:57-73 | the working set becomes a closed pack; the contents do not change |
| `CStore.Store.Flush` | cstore/writer.go:163-179 | the same, and the meta index is up to date |
| `CStore.Store.GetPackReader` | cstore/reader.go:97-121 | at most five readers, the one asked for in front, the others in their order, and of a full list only the one unused the longest dropped |
| `CStore.Store.HasForgets` | cstore/writer.go:156-157 | after a put that fills the pack Has denies the chunk and Get returns it |
| `CStore.Sweepable` | cstore/writer.go:148-157 | every closed pack has distinct genuine non-empty values of less than 2^32 bytes in all, as the sweep needs |
| `CStoreRun.Run` | cstore/writer.go:57-179 | every answer of every run of puts, refused ones included, gets, flushes and packs of other clients is a plain map's |
| `CStoreRun.PutStays` | cstore/writer.go:95-161 | in every such run what was put and not refused stays |
| `CStoreRun.RunExtends` | cstore/writer.go:95-161 | whatever the store held at the start of a run it holds at the end, with the same bytes |
| `Directory.AcceptIff` | fs/fs.go:54-62 | for every outcome of the unstable sort the check passes exactly on the acceptable lists, said without sorting |
| `Directory.ProperIff` | fs/fs.go:55-62 | distinct names other than "." is the same as accepted and no directory and file sharing a name and no "." |
| `Directory.DuplicateTaken` | fs/fs.go:55-62 | two directories and a file named like the first are taken, and refused again without the entry between |
| `Directory.DotTaken` | fs/fs.go:55-62 | a lone "." is taken |
| `Directory.StrictUnique` | fs/fs.go:37-54 | an accepted list has one sorted order |
| `Directory.SortSame` | fs/fs.go:48-54 | two accepted lists of the same entries have the same sorted form, whatever order they are given in |
| `DirCodec.DecodeIff` | fs/fs.go:64-142 | exactly the encodings decode, each to the entries it came from |
| `Fs.WriteDir` | fs/fs.go:48-107 | succeeds exactly on acceptable entries; the root is that of the sorted form, which with `Directory.SortSame` depends on the set of entries and the mode alone; refused entries leave the store unchanged |
| `Fs.ReadDir` | fs/fs.go:109-146 | the entries as written, the "." entry completed with the root that was read |
| `Fs.Walk` | fs/fs.go:148-197 | finds exactly what the path leads to in the tree the hash stands for |
| `Fs.Insert` | fs/fs.go:300-325 | path copying computes the tree insertion, and the new root stands for a fully stored tree |
| `Fs.Remove` | fs/fs.go:342-376 | path copying computes the tree removal, panics included |
| `Fs.Copy` | fs/fs.go:378-388 | inserts what the source path leads to under the new name |
| `Fs.Move` | fs/fs.go:390-400 | never panics; without collisions it succeeds if and only if the move is allowed, and the new root then stands for the tree after copy and removal |
| `Fs.InsertThenRemove` | fs/fs.go:300-376 | inserting under a free name and removing it again gives back the identical root hash, at any depth |
| `FsTree.Rewrite` | fs/fs.go:320-321 | relinking a child is never refused and keeps the order of entries |
| `FsLaws.InsertRemove` | fs/fs.go:300-376 | the identical tree, at any depth |
| `FsLaws.InsertIff` | fs/fs.go:300-325 | insertion succeeds exactly when the path leads to a directory that takes the entry |
| `FsLaws.InsertResolve` | fs/fs.go:300-325 | every path after an insertion: at or below the new name the new subtree, above it the same attributes, anywhere else no change |
| `FsLaws.RemoveIff` | fs/fs.go:342-376 | removal succeeds exactly when the parent has the name and takes its other entries |
| `FsLaws.RemovePanicIff` | fs/fs.go:349-351 | removal panics exactly when the parent is an empty directory |
| `FsLaws.EmptyPanics` | fs/fs.go:349-351 | removing anything from an empty directory panics |
| `FsLaws.TwinsRemove` | fs/fs.go:342-376 | with directories a and b and a file a, removing b is refused |
| `FsLaws.RemoveResolve` | fs/fs.go:342-376 | every path after a removal: nothing at or below it, the same attributes above it, no change elsewhere |
| `FsLaws.InsertDirs` | fs/fs.go:300-325 | an insertion keeps every directory where it was, with the same names and modes, but for the entry added |
| `FsLaws.MoveIff` | fs/fs.go:390-400 | a move succeeds if and only if the source is there and not the root, the destination is a directory that takes it, and what is left of the parent of the source is taken; it never panics |
| `FsLaws.MoveInside` | fs/fs.go:390-400 | moving a directory a to a/b leaves nothing of it |
| `FsLaws.MoveRefused` | fs/fs.go:390-400 | with directories a and b and a file a, moving b into the directory a copies it and is then refused |
| `FsLaws.MoveEnds` | fs/fs.go:390-400 | after a move that succeeded to a free name the source is gone, and the destination resolves to it if and only if it is not inside the source |
| `FsLaws.MoveBelow` | fs/fs.go:390-400 | everything below the source is found below the destination |
| `FsLaws.MoveOthers` | fs/fs.go:390-400 | no other path changes; directories on the way keep their attributes |
| `FsFile.FileReader.ReadAt` | fs/fs.go:230-238 | for every reader, lost ones included, and every offset: what is read starts where the seek leads if neither the believed position nor the counter of bytes read is the offset, and where the reader stands otherwise; that is the offset, or the end of a shorter file, exactly under the stated condition; the bytes are those of the file, or at -1 the level byte and then the file; it panics if and only if the seek does, or bytes are asked for from below -1 |
| `FsFile.FileReader.Seek` | fs/fs.go:205-222 | for every offset, base and state of the reader: the position reported and the true one, past the end, before the start and on the stale counter; a seek that panics leaves the believed position alone, and one that moves a lost reader repairs it |
| `FsFile.FileReader.ReadAtMisses` | fs/fs.go:230-238 | a byte at 2, then a byte at 1, returns the byte at 3 |
| `FsFile.FileReader.BelievedMisses` | fs/fs.go:230-238 | once the believed position is off, a call that needs no seek misses too: asked for the byte at 2 it returns the byte at 4 |
| `FsFile.FileReader.LevelByteRead` | fs/fs.go:230-238 | reading a byte at -1 in a one-leaf file returns its level byte |
| `FsFile.FileReader.SeekPanics` | fs/fs.go:230-238 | reading nothing at -1 in a larger file panics |
| `FsFile.FileReader.StrayPanics` | fs/fs.go:230-238 | reading a byte at -2 panics in every file of less than 2^62 bytes |
| `FsFile.FileReader.SeekRepairs` | fs/fs.go:205-210 | a reader sent to -2 stays lost on a seek to 0 and is repaired by a seek to 1 |
| `Refs.DecodeRefIff` | refs/ref.go:33-51 | exactly the encodings of refs decode, each to its ref |
| `Refs.PutRef` | refs/ref.go:54-79 | stored under the root of its bytes, whatever the parts it is written in |
| `Refs.GetRef` | refs/ref.go:23-52 | a stored ref is read back |
| `Refs.GetAtTime` | refs/ref.go:81-98 | the first version down the chain not later than the time, found exactly when there is one |
| `Refs.FirstAtNewest` | refs/ref.go:81-98 | when times do not increase down the chain it is the newest such version |
| `Refs.GetNVersionsAgo` | refs/ref.go:100-113 | the version that many steps back, or the oldest |
| `GcRun.CutsIffTiled` | gc/gc.go:347-358 | cutting every run by sizes reaches every entry at its offset if and only if the offsets tile |
| `GcRun.SortTilesIff` | gc/gc.go:244-268 | every order the sort by offset may give is tiled if and only if no empty value precedes a non-empty one |
| `GcRun.RunsIff` | gc/gc.go:268-358 | every run of every order the sort may give is cut right, each non-empty value at its own offset, if and only if no empty value is followed by two non-empty ones |
| `GcRun.WrongBytes` | gc/gc.go:268-358 | an order of three values in which a run gives the third the bytes of the second |
| `GcRun.OwnBytes` | gc/gc.go:347-358 | a run that is cut right lies inside the values and gives each entry exactly the bytes written under its key |
| `GcState.InvSafe` | gc/gc.go:163-373 | the invariant of the sweep implies that no marked key is lost from the closed packs |
| `GcState.InvClose` | gc/gc.go:205-223 | closing the open pack keeps the invariant |
| `GcState.InvRemove` | gc/gc.go:205-223 | removing a queued pack after the close keeps the invariant |
| `GcState.InvFinal` | gc/gc.go:225-242 | with everything settled, exactly the marked keys are left, each once |
| `GcSweep.Gc.PutValue` | gc/gc.go:163-203 | a value is moved at most once, into a pack that keeps to its limit |
| `GcSweep.Gc.CloseAndDelete` | gc/gc.go:205-223 | whether or not a call fails, in every state passed through nothing has been removed or the open pack has been closed with all its entries |
| `GcSweep.RunFits` | gc/gc.go:328-349 | the 32-bit sum of a run does not wrap and the run lies inside its pack |
| `GcSweep.CutValue` | gc/gc.go:347-358 | the bytes cut off a run next are those of the value its entry names, and the rest is the rest of the run |
| `GcSweep.Gc.CopyPack` | gc/gc.go:300-370 | every marked value of a pack is moved, from the cache or from its own bytes in a run |
| `GcSweep.Gc.SweepPack` | gc/gc.go:250-373 | a listed pack is kept whole or copied and queued; either way its marked keys are taken care of |
| `GcSweep.Gc.SweepAll` | gc/gc.go:225-242 | every state the remote passes through keeps every marked key and, genuine values never being empty, holds only packs that can be swept again; on success exactly the marked keys are left, each once |
| `GcSweep.InvFine` | gc/gc.go:163-373 | the invariant of the sweep implies that no marked key is lost and that every pack, old or written by the sweep, can be swept again |
| `GcMark.SameAddrs` | gc/gc.go:132-161 | two stored trees with one address have the same chunks below it |
| `GcMark.Marker.Visit` | gc/gc.go:143-159 | every single change of the visited set leaves it closed: a visited address has everything below it visited |
| `GcMark.Marker.MarkHTree` | gc/gc.go:132-161 | marks exactly the chunks of the tree; the early exit and the leaf shortcut miss nothing |
| `GcMark.Marker.MarkFsDir` | gc/gc.go:104-130 | marks exactly the chunks of the directory tree and its files |
| `GcMark.Marker.MarkRef` | gc/gc.go:79-102 | marks exactly the chunks of all versions |
| `GcMark.ArchiveOn` | gc/gc.go:79-161 | a store that has the marked chunks has every version whole |
| `Gc.Collect` | gc/gc.go:33-77 | mark then sweep, for any notion of genuine values that decode to their chunks: every state the remote passes through, at whatever call it fails, holds every version whole and is one a collection can start from; on success nothing unreachable is left |
| `Gc.Restart` | gc/gc.go:33-77 | a collection can be started again from the chunks the packs can still produce and nothing else |
| `Backup.Commit` | refs/ref.go:54-79 | recording a stored file system as the newest version gives a whole archive with one version more, and everything recorded before stays whole |
| `Backup.FilesInsert` | fs/fs.go:300-325 | after an insertion every file of the tree is still stored whole |
| `Backup.FilesRemove` | fs/fs.go:342-376 | after a removal every file left in the tree is still stored whole |
| `Backup.Flushed` | cstore/writer.go:163-179 | the closed packs of a store with an empty working set, as Flush leaves it, meet all a collection asks for |
| `Backup.Reopen` | cstore/reader.go:32-44 | a store opened on packs a collection can start from, so on any state a collection passes through, holds every chunk of every version |
| `Backup.ReadCollected` | cstore/reader.go:53-95 | any chunk of any version is read back from such packs |
| `Backup.NextCycle` | cstore/writer.go:95-179 | a store opened after a collection, run through any operations and flushed, meets all the next collection asks for |

## Left out

- The remote server and its epochs, root updates and RPC: a collection is modelled as having exclusive access.
- Read errors and missing chunks, except in the sweep: readers are given stored trees. `GetRef` swallowing read errors and `Flush` swallowing flush errors are not modelled.
- Locks: every operation runs alone.
- Path strings: operations start from lists of names that `path.Clean` would give, so a trailing slash in a destination is not modelled.
- The second, deferred `Close` of `PutRef`, which may put chunks nothing refers to.
- Level buffers of the hash tree are sequences holding their filled part; what earlier chunks left behind it in the 65535-byte arrays is arbitrary, and how they are copied is not modelled.
- A seek with an unknown base, which only returns an error.
- Encrypted files that no writer produced: the plaintext and initial vector are ghost arguments.
- Buffering by `bufio`, local index files and boltdb: a map is a map.
- HTreeReader.Reader.Seek: does not say what is left in levels above the leaf, because only the bytes still to come matter.
- Fs.Move: reports `Collided` when two chunks collided while copying, where the code would go on with damaged data.
- Fs.WriteDir: asks for at most 2^40 entries, so that a directory is a stream below 2^64 bytes.
- CStore.Store.Put: asks that the chunk does not collide with a stored one, because a stale meta index would let both be stored.
- GcMark.Marker.MarkRef: covers histories that are whole; an error on the way stops the collection before anything is removed.
- Key files, the 9P server, the browser, archives and command line tools would only add easy members.
