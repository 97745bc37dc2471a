# VirtualFileSystem in Dafny

A model of the core of `dev.aspid812.virtualfs`. This library keeps many named files inside one host file. The host file is an array of fixed-size blocks, each carrying a checksum. Block 0 is the header. It anchors a doubly linked list of file-index blocks (one per file) and a LIFO free list of vacant data blocks. Each file owns a singly linked chain of data blocks. Reference 0 ends every chain.

The model follows the source layer by layer, one module each:

| module | models | form |
|---|---|---|
| `Blocks` | `Blocks.kt`: the three block kinds, their signatures, fresh blocks | datatypes and functions |
| `Codec` | big-endian integers, UTF-16BE names, `parse*`/`render*` of the three kinds | functions, round-trip lemmas |
| `Storage` | `VirtualFileSystemStorage`: framing (signature, CRC, body) at byte `r * blockSize`, `readBlock`/`writeBlock`, `expand`, `readMinimalHeader` | a class over the channel's bytes, plus functions |
| `Mock` | `BlockStorageMock`: the in-memory slot store the backend runs on | a class over `seq<Option<Block>>` |
| `Lists` | the store invariant `Layout`: index list, free list, one chain per file, every block in exactly one list | predicates and lemmas |
| `Allocation`, `Transfer` | what `allocate`, `free`, the chunking of `storeFile` and the copy loop of `loadFile` do to the store | state functions and lemmas |
| `FileIndex`, `FileData` | what `createFile`, `deleteFile`, `storeFile` and `loadFile` do to the store, and that each keeps `Layout` | state functions and lemmas |
| `Backend` | `VirtualFileSystemBackend`: every operation as a method with its loops, proved against those state functions | a class |
| `Entity` | `AbstractVirtualFileEntity` with the frontend's concrete entity: open counter, lazy load, store on last close, growable buffer | a class, plus pure `Status` transitions |
| `Channel` | `VirtualFileChannel`: cursor that doubles as the closed flag, read-only flag | a class, plus cursor functions |
| `Frontend` | `VirtualFileSystemFrontend`: the name-to-entity table and its error rules | a class |

`Wrappers` holds `Option`, `Result`, `Outcome` and the error names. The source's exceptions become `Result`/`Outcome` values.

Each operation that updates state in place is a method whose `ensures` ties the new state to a state function of the old one. Lemmas then prove what the source promises about those functions:

- `Layout` is preserved by each operation;
- every block stays in exactly one list;
- store followed by load gives the stored bytes back;
- writing a block and reading it back returns the same block.

The backend runs on the in-memory store. Blocks there are values, so a block read and changed must be written back to take effect. This is also how the file-backed storage behaves: every read decodes a fresh copy. The file-backed engine (`Storage`) is connected to the slot store by read-after-write lemmas on the channel's bytes.

## Model

All source paths are under `src/main/kotlin/dev/aspid812/virtualfs/` except the mock, which is under `src/test/kotlin/dev/aspid812/virtualfs/mock/`.

| member | source | states |
|---|---|---|
| Blocks.KindOfSignature | src/main/kotlin/dev/aspid812/virtualfs/Blocks.kt:3-33 | a signature identifies at most one of the three kinds and each kind has its own, so the three constants are pairwise distinct and the kind tag determines the variant |
| Blocks.NewHeaderIndexBlock | src/main/kotlin/dev/aspid812/virtualfs/Blocks.kt:7-16 | a fresh header has next, prev and first-vacant 0 and block size 0 |
| Blocks.NewFileIndexBlock | src/main/kotlin/dev/aspid812/virtualfs/Blocks.kt:18-29 | a fresh file-index block has all four links 0, size 0 and an empty name |
| Blocks.NewDataBlock | src/main/kotlin/dev/aspid812/virtualfs/Blocks.kt:31-38 | a fresh data block has next 0 and no payload |
| Codec.FromToBigEndian | src/main/kotlin/dev/aspid812/virtualfs/VirtualFileSystemStorage.kt:37-51 | decoding the n-byte big-endian encoding of a value below 256^n gives the value back |
| Codec.ToFromBigEndian | src/main/kotlin/dev/aspid812/virtualfs/VirtualFileSystemStorage.kt:37-51 | re-encoding decoded bytes gives the same bytes back |
| Codec.Signed32 | src/main/kotlin/dev/aspid812/virtualfs/VirtualFileSystemStorage.kt:38-41 | reading an unsigned 32-bit value as an `Int` and taking its bit pattern gives the value back |
| Codec.SignedOfUnsigned32 | src/main/kotlin/dev/aspid812/virtualfs/VirtualFileSystemStorage.kt:38-41 | the other direction: an `Int`'s bit pattern read back as an `Int` is that `Int`; together the two conversions are inverse |
| Codec.GetPutLong | src/main/kotlin/dev/aspid812/virtualfs/VirtualFileSystemStorage.kt:53-86 | a `putLong` read back with `getLong` gives the same file size |
| Codec.PutGetInt | src/main/kotlin/dev/aspid812/virtualfs/VirtualFileSystemStorage.kt:37-43 | re-encoding any 4 read bytes gives those bytes |
| Codec.DecodeEncodeUtf16 | src/main/kotlin/dev/aspid812/virtualfs/VirtualFileSystemStorage.kt:65-77 | a name encoded as UTF-16BE (two big-endian bytes per code unit, no byte-order mark) decodes to itself |
| Codec.ParseHeaderIndexBlock | src/main/kotlin/dev/aspid812/virtualfs/VirtualFileSystemStorage.kt:37-43 | parsing succeeds exactly when the body holds 16 bytes, otherwise buffer underflow |
| Codec.RenderHeaderIndexBlock | src/main/kotlin/dev/aspid812/virtualfs/VirtualFileSystemStorage.kt:45-51 | rendering succeeds exactly when the body holds 16 bytes; bytes after the fields are kept |
| Codec.ParseFileIndexBlock | src/main/kotlin/dev/aspid812/virtualfs/VirtualFileSystemStorage.kt:53-68 | a short body underflows; a name length above the remaining body is corruption; a length below -28 is an illegal limit |
| Codec.RenderFileIndexBlock | src/main/kotlin/dev/aspid812/virtualfs/VirtualFileSystemStorage.kt:70-86 | rendering fails exactly when the encoded name exceeds body - 28 bytes (name too long); bytes after the name are kept |
| Codec.ParseDataBlock | src/main/kotlin/dev/aspid812/virtualfs/VirtualFileSystemStorage.kt:88-100 | a declared length above body - 8 is corruption; parsing succeeds exactly for lengths 0..body-8, and the payload has that length |
| Codec.RenderDataBlock | src/main/kotlin/dev/aspid812/virtualfs/VirtualFileSystemStorage.kt:102-113 | rendering fails exactly when the payload exceeds body - 8 bytes (data too large) |
| Codec.HeaderIndexBlockRoundTrip | src/main/kotlin/dev/aspid812/virtualfs/VirtualFileSystemStorage.kt:37-51 | parsing a rendered header gives the same next, prev, first-vacant and block size |
| Codec.FileIndexBlockRoundTrip | src/main/kotlin/dev/aspid812/virtualfs/VirtualFileSystemStorage.kt:53-86 | parsing a rendered file-index block gives the same links, size and name |
| Codec.DataBlockRoundTrip | src/main/kotlin/dev/aspid812/virtualfs/VirtualFileSystemStorage.kt:88-113 | parsing a rendered data block gives the same next and payload |
| Codec.RoundTrip | src/main/kotlin/dev/aspid812/virtualfs/VirtualFileSystemStorage.kt:37-113 | for every kind, rendering keeps the body length and parsing under the block's own kind gives the block back |
| Storage.Frame | src/main/kotlin/dev/aspid812/virtualfs/VirtualFileSystemStorage.kt:160-167 | a frame is the 8-byte header followed by the body |
| Storage.ReadAt | src/main/kotlin/dev/aspid812/virtualfs/VirtualFileSystemStorage.kt:132-135 | a channel read of n bytes at a position succeeds exactly when the channel holds them, otherwise end of file |
| Storage.WriteAt | src/main/kotlin/dev/aspid812/virtualfs/VirtualFileSystemStorage.kt:170 | a channel write puts the bytes at the position, grows the channel if needed and keeps all other bytes |
| Storage.Unframe | src/main/kotlin/dev/aspid812/virtualfs/VirtualFileSystemStorage.kt:137-154 | a frame is accepted exactly when its signature is the expected one and its checksum is the CRC of its body; the result is the body |
| Storage.WriteBlockPlacement | src/main/kotlin/dev/aspid812/virtualfs/VirtualFileSystemStorage.kt:157-171 | block r occupies bytes [r * blockSize, (r + 1) * blockSize) and holds signature, CRC(body), body; nothing outside it changes |
| Storage.ReadAfterWrite | src/main/kotlin/dev/aspid812/virtualfs/VirtualFileSystemStorage.kt:130-171 | reading a block just written with the same signature gives its body |
| Storage.ReadAfterWriteOtherKind | src/main/kotlin/dev/aspid812/virtualfs/VirtualFileSystemStorage.kt:138-141 | reading it as another kind fails with a signature mismatch |
| Storage.WriteLeavesOtherBlocks | src/main/kotlin/dev/aspid812/virtualfs/VirtualFileSystemStorage.kt:157-171 | writing block r leaves every read of another existing block unchanged |
| Storage.StoredRoundTrip | src/main/kotlin/dev/aspid812/virtualfs/VirtualFileSystemStorage.kt:177-225 | `write*Block` then `read*Block` at the same reference gives the same block back |
| Storage.ReadMinimalHeader | src/main/kotlin/dev/aspid812/virtualfs/VirtualFileSystemStorage.kt:18-35 | succeeds exactly when 24 bytes are present and start with the header signature, and yields a header |
| Storage.MinimalHeaderIgnoresChecksum | src/main/kotlin/dev/aspid812/virtualfs/VirtualFileSystemStorage.kt:32 | the checksum bytes do not affect the minimal header |
| Storage.MinimalHeaderAfterWrite | src/main/kotlin/dev/aspid812/virtualfs/VirtualFileSystemStorage.kt:18-35 | the minimal header read of a written header block gives that header |
| Storage.VirtualFileSystemStorage.constructor | src/main/kotlin/dev/aspid812/virtualfs/VirtualFileSystemStorage.kt:116-118 | the block count starts at channel size / blockSize; `maxBytesPerDataBlock` is blockSize - 16 |
| Storage.VirtualFileSystemStorage.Expand | src/main/kotlin/dev/aspid812/virtualfs/VirtualFileSystemStorage.kt:124-128 | returns the old block count and adds n to it; the channel is untouched |
| Storage.VirtualFileSystemStorage.ReadBlock | src/main/kotlin/dev/aspid812/virtualfs/VirtualFileSystemStorage.kt:130-155 | reads frame r and fails on a short read, a signature mismatch or a checksum mismatch; the body has blockSize - 8 bytes |
| Storage.VirtualFileSystemStorage.WriteBlock | src/main/kotlin/dev/aspid812/virtualfs/VirtualFileSystemStorage.kt:157-171 | writes the frame at r; a read of r gives the body back |
| Storage.VirtualFileSystemStorage.NewBlock | src/main/kotlin/dev/aspid812/virtualfs/VirtualFileSystemStorage.kt:173-175 | a new block of each kind has default fields and a zeroed body of blockSize - 8 bytes |
| Storage.VirtualFileSystemStorage.ReadBlockOfKind | src/main/kotlin/dev/aspid812/virtualfs/VirtualFileSystemStorage.kt:177-218 | `read*Block` reads the frame and parses it as that kind |
| Storage.VirtualFileSystemStorage.WriteBlockOfKind | src/main/kotlin/dev/aspid812/virtualfs/VirtualFileSystemStorage.kt:184-225 | `write*Block` renders into the old body and writes the frame, or fails with the render error and writes nothing; a later read gives the block back |
| Mock.Nones | src/test/kotlin/dev/aspid812/virtualfs/mock/BlockStorageMock.kt:18-21 | n empty slots |
| Mock.ReadSlot | src/test/kotlin/dev/aspid812/virtualfs/mock/BlockStorageMock.kt:56-66 | a read yields the block in slot r if it has the requested kind; otherwise it fails: out of range, empty slot or wrong kind |
| Mock.BlockStorageMock.constructor | src/test/kotlin/dev/aspid812/virtualfs/mock/BlockStorageMock.kt:5-9 | an empty store with 4 bytes per data block |
| Mock.BlockStorageMock.Expand | src/test/kotlin/dev/aspid812/virtualfs/mock/BlockStorageMock.kt:13-24 | requires n >= 0, appends n empty slots and returns the old slot count |
| Mock.BlockStorageMock.Add | src/test/kotlin/dev/aspid812/virtualfs/mock/BlockStorageMock.kt:38-54 | appends one block |
| Mock.BlockStorageMock.ReadBlock | src/test/kotlin/dev/aspid812/virtualfs/mock/BlockStorageMock.kt:56-66 | returns what `ReadSlot` says |
| Mock.BlockStorageMock.WriteBlock | src/test/kotlin/dev/aspid812/virtualfs/mock/BlockStorageMock.kt:69-79 | replaces slot r only; every other slot is unchanged |
| Lists.DataChainUnique | src/main/kotlin/dev/aspid812/virtualfs/VirtualFileSystemBackend.kt:155-161 | the blocks reached from a first block by `nextDataBlock` are determined by the store |
| Lists.DataChainFrame | src/main/kotlin/dev/aspid812/virtualfs/VirtualFileSystemBackend.kt:155-161 | a chain and its payloads survive writes to blocks outside it |
| Lists.IndexListFrame | src/main/kotlin/dev/aspid812/virtualfs/VirtualFileSystemBackend.kt:55-66 | the index list and its listing survive writes outside it that keep the header's ends |
| Lists.OthersKeepDataIntro | src/main/kotlin/dev/aspid812/virtualfs/VirtualFileSystemBackend.kt:15-204 | under the store invariant, a change confined to the header, index entries, vacant blocks, one file's own chain and new slots leaves every other file's chain holding the same bytes |
| Lists.LayoutDisjoint | src/main/kotlin/dev/aspid812/virtualfs/VirtualFileSystemBackend.kt:15-204 | under the store invariant, an entry is in no chain or free list, and chains are pairwise disjoint and apart from the free list |
| Lists.CensusInStore | src/main/kotlin/dev/aspid812/virtualfs/VirtualFileSystemBackend.kt:15-204 | every listed block is a real block other than the header |
| Allocation.Fresh | src/main/kotlin/dev/aspid812/virtualfs/VirtualFileSystemBackend.kt:33-38 | the fresh references are consecutive from the first new block |
| Allocation.AllocatePopsFreeList | src/main/kotlin/dev/aspid812/virtualfs/VirtualFileSystemBackend.kt:15-42 | `allocate(n)` returns n distinct references, the free list's first ones in order and then fresh ones; first-vacant moves to the first one not taken (or 0); no block is lost or duplicated |
| Allocation.FreePushesChain | src/main/kotlin/dev/aspid812/virtualfs/VirtualFileSystemBackend.kt:44-53 | `free(first, last)` on a chain puts the chain in front of the free list and writes only `last` and the header |
| Allocation.FreeThenAllocate | src/main/kotlin/dev/aspid812/virtualfs/VirtualFileSystemBackend.kt:15-53 | allocating as many blocks as were just freed gives the freed chain back, and the free list is as before |
| Allocation.AllocateScenarios | src/test/kotlin/dev/aspid812/virtualfs/VirtualFileSystemBackendTest.kt:10-54 | allocation from a two-block free list, with and without expansion |
| Allocation.FreeScenario | src/test/kotlin/dev/aspid812/virtualfs/VirtualFileSystemBackendTest.kt:79-86 | `free(2, 4)` on the free list 1, 3 gives 2, 4, 1, 3 |
| Transfer.LongToInt | src/main/kotlin/dev/aspid812/virtualfs/VirtualFileSystemBackend.kt:152 | `toInt` keeps values below 2^31 and otherwise wraps modulo 2^32 |
| Transfer.LoadBytes | src/main/kotlin/dev/aspid812/virtualfs/VirtualFileSystemBackend.kt:152-163 | exactly `size` bytes: the chain's payloads, truncated, then zeros |
| Transfer.NumDataBlocks | src/main/kotlin/dev/aspid812/virtualfs/VirtualFileSystemBackend.kt:176 | 1 + (len - 1) / max blocks: at least one, at most len |
| Transfer.NumDataBlocksBounds | src/main/kotlin/dev/aspid812/virtualfs/VirtualFileSystemBackend.kt:176 | that many blocks of max bytes are enough, and one fewer is not |
| Transfer.Chunk | src/main/kotlin/dev/aspid812/virtualfs/VirtualFileSystemBackend.kt:179-186 | block k holds the next slice of the data: max bytes except the last, which holds the rest |
| Transfer.ChunksFlatten | src/main/kotlin/dev/aspid812/virtualfs/VirtualFileSystemBackend.kt:176-191 | the chunks put together are the data |
| Transfer.ChunksScenario | src/test/kotlin/dev/aspid812/virtualfs/VirtualFileSystemBackendTest.kt:429-450 | six bytes with max 4 split as [1,2,3,4], [5,6] |
| Transfer.WrittenChain | src/main/kotlin/dev/aspid812/virtualfs/VirtualFileSystemBackend.kt:179-191 | the blocks written by the loop form a chain ending in 0 whose payloads are the chunks |
| Lists.ContentsAppend | src/main/kotlin/dev/aspid812/virtualfs/VirtualFileSystemBackend.kt:156-161 | the payloads of two chains put together are the two payloads put together |
| FileIndex.NewEntry | src/main/kotlin/dev/aspid812/virtualfs/VirtualFileSystemBackend.kt:75-79 | the new entry has next 0, prev the old tail, size 0, no chain and the given name |
| FileIndex.CreateFileKeepsLayout | src/main/kotlin/dev/aspid812/virtualfs/VirtualFileSystemBackend.kt:68-94 | the corrected `createFile` takes the free list's head (or a fresh block), appends the entry at the tail, keeps the invariant, every existing file keeps its bytes, and the listing gains (name, 0, handle) at the end |
| FileIndex.CreateFileFrame | src/main/kotlin/dev/aspid812/virtualfs/VirtualFileSystemBackend.kt:68-94 | `createFile` leaves every existing file's bytes as they were |
| FileIndex.CreateFileSize | src/main/kotlin/dev/aspid812/virtualfs/VirtualFileSystemBackend.kt:74 | the store grows by one block exactly when the free list is empty |
| FileIndex.CreateFileAsWrittenBreaksFreeList | src/main/kotlin/dev/aspid812/virtualfs/VirtualFileSystemBackend.kt:69-91 | as written, with decoded copies, a non-empty free list's head stays first-vacant while it becomes the new entry, so no free list is well formed any more |
| FileIndex.CreateFileAsWrittenScenario | src/main/kotlin/dev/aspid812/virtualfs/VirtualFileSystemBackend.kt:68-94 | the two outcomes on a store with one vacant block |
| FileIndex.CreateFileSharedReads | src/test/kotlin/dev/aspid812/virtualfs/mock/BlockStorageMock.kt:56-66 | with reads that share the stored object, as in the mock, the as-written `createFile` equals the corrected one |
| FileIndex.UnlinkRemoves | src/main/kotlin/dev/aspid812/virtualfs/VirtualFileSystemBackend.kt:99-131 | unlinking entry i (neighbour updates go to the header when a link is 0) leaves the index list without it and the listing without its item; other entries keep their fields |
| FileIndex.DeleteFileKeepsLayout | src/main/kotlin/dev/aspid812/virtualfs/VirtualFileSystemBackend.kt:96-148 | `deleteFile` succeeds, keeps the invariant, and the entry block followed by its chain goes in front of the free list; every other file keeps its bytes; the listing loses the item |
| FileIndex.DeleteFileFrame | src/main/kotlin/dev/aspid812/virtualfs/VirtualFileSystemBackend.kt:96-148 | `deleteFile(h)` leaves every other file's bytes as they were |
| FileIndex.DeleteFileHalfEmptyChain | src/main/kotlin/dev/aspid812/virtualfs/VirtualFileSystemBackend.kt:139-147 | when exactly one of first/last is 0 it fails after the unlink and the rewrite have already happened |
| FileIndex.DeleteFileIndex | src/main/kotlin/dev/aspid812/virtualfs/VirtualFileSystemBackend.kt:96-136 | after `deleteFile` the index list and listing are the old ones without the entry |
| FileData.EntryIsListed | src/main/kotlin/dev/aspid812/virtualfs/VirtualFileSystemBackend.kt:96-97 | under the invariant, reading a reference as a file-index block succeeds exactly for listed files |
| FileData.LoadFileOfLayout | src/main/kotlin/dev/aspid812/virtualfs/VirtualFileSystemBackend.kt:150-164 | `loadFile` of a listed file gives its chain's payloads |
| FileData.StoredEntry | src/main/kotlin/dev/aspid812/virtualfs/VirtualFileSystemBackend.kt:193-202 | the rewritten entry has the new size, first and last block and keeps its links and name |
| FileData.StoreFileKeepsLayout | src/main/kotlin/dev/aspid812/virtualfs/VirtualFileSystemBackend.kt:166-204 | with a valid range, `storeFile` succeeds and keeps the invariant; the new chain's payloads are the stored bytes; every other file keeps its bytes; only this file's listing item changes, to the new size |
| FileData.StoreFileStateFrame | src/main/kotlin/dev/aspid812/virtualfs/VirtualFileSystemBackend.kt:166-204 | `storeFile(h, ...)` changes no block but the header, the entry, its old chain, the vacant blocks and slots it appends |
| FileData.StoreThenLoad | src/main/kotlin/dev/aspid812/virtualfs/VirtualFileSystemBackend.kt:150-204 | `loadFile` after `storeFile` gives the stored bytes back |
| FileData.StoreFileBadRangeReleases | src/main/kotlin/dev/aspid812/virtualfs/VirtualFileSystemBackend.kt:166-175 | as written, a bad range fails after the old chain was freed, while the entry still names that chain; the next allocation hands its first block out again |
| FileData.StoreFileChecked | src/main/kotlin/dev/aspid812/virtualfs/VirtualFileSystemBackend.kt:166-175 | corrected: a bad range fails with index out of bounds exactly when it is bad, and then nothing changes |
| FileData.StoreFileCheckedKeepsLayout | src/main/kotlin/dev/aspid812/virtualfs/VirtualFileSystemBackend.kt:166-204 | the corrected `storeFile` either changes nothing or keeps the invariant, stores exactly the bytes and keeps every other file's bytes |
| Backend.VirtualFileSystemBackend.Allocate | src/main/kotlin/dev/aspid812/virtualfs/VirtualFileSystemBackend.kt:15-42 | returns the references and leaves the store that `AllocatePopsFreeList` describes |
| Backend.VirtualFileSystemBackend.Free | src/main/kotlin/dev/aspid812/virtualfs/VirtualFileSystemBackend.kt:44-53 | leaves the store that `FreePushesChain` describes |
| Backend.VirtualFileSystemBackend.BuildIndex | src/main/kotlin/dev/aspid812/virtualfs/VirtualFileSystemBackend.kt:55-66 | walking the index from the header yields (name, size, handle) for each file in list order |
| Backend.VirtualFileSystemBackend.CreateFile | src/main/kotlin/dev/aspid812/virtualfs/VirtualFileSystemBackend.kt:68-94 | the corrected `createFile`: new store and handle as `CreateFileKeepsLayout` says; the file list gains the handle at the end and the listing gains (name, 0, handle) |
| Backend.VirtualFileSystemBackend.DeleteFile | src/main/kotlin/dev/aspid812/virtualfs/VirtualFileSystemBackend.kt:96-148 | a reference that is not a file-index block fails with the read error and changes nothing; a listed file is removed from the list and its blocks join the free list |
| Backend.VirtualFileSystemBackend.DeleteListed | src/main/kotlin/dev/aspid812/virtualfs/VirtualFileSystemBackend.kt:99-147 | the unlink, rewrite and release of a listed entry: the new store and lists |
| Backend.VirtualFileSystemBackend.Release | src/main/kotlin/dev/aspid812/virtualfs/VirtualFileSystemBackend.kt:133-147 | rewrites the entry as a data block and frees the right range, or fails on a half-empty chain |
| Backend.VirtualFileSystemBackend.Unlink | src/main/kotlin/dev/aspid812/virtualfs/VirtualFileSystemBackend.kt:99-131 | updates the neighbours, or the header, as `UnlinkRemoves` describes |
| Backend.VirtualFileSystemBackend.LoadFile | src/main/kotlin/dev/aspid812/virtualfs/VirtualFileSystemBackend.kt:150-164 | returns what `LoadFileResult` says of the file's chain |
| Backend.VirtualFileSystemBackend.ReadChain | src/main/kotlin/dev/aspid812/virtualfs/VirtualFileSystemBackend.kt:154-161 | the copy loop gathers the chain's payloads up to `size` bytes |
| Backend.VirtualFileSystemBackend.StoreFile | src/main/kotlin/dev/aspid812/virtualfs/VirtualFileSystemBackend.kt:166-204 | the corrected `storeFile`: an unlisted handle fails with the read error; a listed one gives the store `StoreFileChecked` describes, with the new free list and chain |
| Backend.VirtualFileSystemBackend.StoreData | src/main/kotlin/dev/aspid812/virtualfs/VirtualFileSystemBackend.kt:175-197 | allocates, writes the chunks and records size, first and last in the entry |
| Backend.VirtualFileSystemBackend.WriteChunks | src/main/kotlin/dev/aspid812/virtualfs/VirtualFileSystemBackend.kt:179-191 | the loop writes block k with the next reference (0 for the last) and chunk k |
| Backend.Take | src/main/kotlin/dev/aspid812/virtualfs/VirtualFileSystemBackend.kt:156-159 | a prefix of at most n bytes, the whole input when it is shorter |
| Backend.TakeThenPad | src/main/kotlin/dev/aspid812/virtualfs/VirtualFileSystemBackend.kt:152-163 | the copy loop followed by the zero-initialised array gives `LoadBytes` |
| Entity.GrowDoubles | src/main/kotlin/dev/aspid812/virtualfs/AbstractVirtualFileEntity.kt:56-60 | the doubling loop ends at a capacity that covers the demand and the old capacity, equal to capacity * 2^k with the last doubling needed |
| Entity.GrowScenario | src/main/kotlin/dev/aspid812/virtualfs/AbstractVirtualFileEntity.kt:57-60 | a demand of 40 from 16 doubles twice, to 64 |
| Entity.ReadAt | src/main/kotlin/dev/aspid812/virtualfs/AbstractVirtualFileEntity.kt:66-75 | -1 exactly at or past the end; otherwise min(size - position, remaining) bytes from the position, a positive count when room is left |
| Entity.WriteAt | src/main/kotlin/dev/aspid812/virtualfs/AbstractVirtualFileEntity.kt:77-91 | the source lands at the position, the size becomes max(size, position + n), other bytes are kept and any gap is zeros |
| Entity.ReadAfterWrite | src/main/kotlin/dev/aspid812/virtualfs/AbstractVirtualFileEntity.kt:66-91 | a read at the position of a write returns what was written |
| Entity.CopyIsWrite | src/main/kotlin/dev/aspid812/virtualfs/AbstractVirtualFileEntity.kt:80-88 | copying into a zero-tailed buffer is `WriteAt` on its prefix, and the buffer stays zero past the new size |
| Entity.AfterOpen | src/main/kotlin/dev/aspid812/virtualfs/AbstractVirtualFileEntity.kt:33-44 | open increments the counter; the first open clears the modified flag |
| Entity.AfterCloseAsWritten | src/main/kotlin/dev/aspid812/virtualfs/AbstractVirtualFileEntity.kt:46-54 | as written, close keeps the counter |
| Entity.AfterClose | src/main/kotlin/dev/aspid812/virtualfs/AbstractVirtualFileEntity.kt:46-54 | corrected: close decrements the counter and clears the flag exactly when it stores |
| Entity.ReplayAppend | src/main/kotlin/dev/aspid812/virtualfs/AbstractVirtualFileEntity.kt:33-91 | replaying two runs of events is replaying them one after the other |
| Entity.AsWrittenCounterOnlyGrows | src/main/kotlin/dev/aspid812/virtualfs/AbstractVirtualFileEntity.kt:41-48 | as written, the counter is the start value plus the number of opens, whatever the closes |
| Entity.CloseAsWrittenNeverStores | src/main/kotlin/dev/aspid812/virtualfs/AbstractVirtualFileEntity.kt:46-54 | open, write, open, close, close: as written nothing is stored and the file stays open; corrected, it is stored once and closed |
| Entity.ClosesStoreOnce | src/main/kotlin/dev/aspid812/virtualfs/AbstractVirtualFileEntity.kt:46-54 | k closes of a modified file opened k times store exactly once and close it |
| Entity.OpensFromClosed | src/main/kotlin/dev/aspid812/virtualfs/AbstractVirtualFileEntity.kt:33-44 | k opens of a closed file count k and leave it unmodified |
| Entity.BalancedSessionStoresOnce | src/main/kotlin/dev/aspid812/virtualfs/AbstractVirtualFileEntity.kt:33-54 | k opens, a write and k closes store exactly once and leave the file closed |
| Entity.StoredLoadsBack | src/main/kotlin/dev/aspid812/virtualfs/VirtualFileSystemFrontend.kt:17-31 | what the entity stores through the backend, a later load returns |
| Entity.CopyInto | src/main/kotlin/dev/aspid812/virtualfs/AbstractVirtualFileEntity.kt:83-87 | `src.get(content, position, n)` replaces those n bytes and keeps the rest |
| Entity.VirtualFileEntity.constructor | src/main/kotlin/dev/aspid812/virtualfs/AbstractVirtualFileEntity.kt:19-24 | a new entity is closed, unmodified and empty |
| Entity.VirtualFileEntity.Open | src/main/kotlin/dev/aspid812/virtualfs/AbstractVirtualFileEntity.kt:33-44 | the first open loads: a load error fails and changes nothing, otherwise the buffer holds the loaded bytes; later opens only count |
| Entity.VirtualFileEntity.Close | src/main/kotlin/dev/aspid812/virtualfs/AbstractVirtualFileEntity.kt:46-54 | corrected close: follows `AfterClose`; when it is the last close of a modified file, the backend afterwards loads the buffer's bytes; otherwise the backend is untouched |
| Entity.VirtualFileEntity.Store | src/main/kotlin/dev/aspid812/virtualfs/VirtualFileSystemFrontend.kt:26-30 | `store(content, 0, contentSize)` through the backend: a listed file loads back as the buffer's bytes |
| Entity.GrowWithinInt | src/main/kotlin/dev/aspid812/virtualfs/AbstractVirtualFileEntity.kt:56-60 | a demand of at most 2^30 is reached by doubling without passing `Int.MAX_VALUE`, from any capacity within `Int` |
| Entity.VirtualFileEntity.EnsureCapacity | src/main/kotlin/dev/aspid812/virtualfs/AbstractVirtualFileEntity.kt:56-64 | for a demand whose doubling stays within `Int`: the buffer ends up at least the demand and at most `Int.MAX_VALUE`; when it grows, to `Grow(max(old, 16), demand)` with the old bytes and zeros after them; contents and status are kept |
| Entity.VirtualFileEntity.Read | src/main/kotlin/dev/aspid812/virtualfs/AbstractVirtualFileEntity.kt:66-75 | returns `ReadAt` of the file's bytes and changes nothing |
| Entity.VirtualFileEntity.Write | src/main/kotlin/dev/aspid812/virtualfs/AbstractVirtualFileEntity.kt:77-91 | sets the modified flag; the file becomes `WriteAt` of the old bytes and the count is n |
| Channel.CursorRead | src/main/kotlin/dev/aspid812/virtualfs/VirtualFileChannel.kt:41-52 | closed fails; -1 exactly at or past the end and then the cursor stays; otherwise the next bytes, and the cursor moves past them |
| Channel.CursorWrite | src/main/kotlin/dev/aspid812/virtualfs/VirtualFileChannel.kt:66-80 | read-only fails first, then closed; otherwise the source lands at the cursor and the cursor moves past it |
| Channel.DrainReadsAll | src/main/kotlin/dev/aspid812/virtualfs/VirtualFileChannel.kt:41-52 | cursor reads until -1 deliver exactly the file's bytes from the cursor on |
| Channel.WriteAtTwice | src/main/kotlin/dev/aspid812/virtualfs/AbstractVirtualFileEntity.kt:77-91 | two adjacent writes are one write of both sources |
| Channel.CursorWritesConcatenate | src/main/kotlin/dev/aspid812/virtualfs/VirtualFileChannel.kt:66-80 | two cursor writes have the effect, count and final cursor of one write of both sources |
| Channel.CursorWriteThenRead | src/main/kotlin/dev/aspid812/virtualfs/VirtualFileChannel.kt:32-80 | a positional read at the old cursor returns what a cursor write wrote |
| Channel.VirtualFileChannel.constructor | src/main/kotlin/dev/aspid812/virtualfs/VirtualFileChannel.kt:10-15 | a new channel is open with the cursor at 0 |
| Channel.VirtualFileChannel.Close | src/main/kotlin/dev/aspid812/virtualfs/VirtualFileChannel.kt:17-28 | closes the entity only if the channel was open; the cursor is always -1 afterwards; a second close does nothing |
| Channel.VirtualFileChannel.PositionalRead | src/main/kotlin/dev/aspid812/virtualfs/VirtualFileChannel.kt:32-39 | closed fails; otherwise the entity's `ReadAt`; the cursor does not move |
| Channel.VirtualFileChannel.Read | src/main/kotlin/dev/aspid812/virtualfs/VirtualFileChannel.kt:41-52 | follows `CursorRead` |
| Channel.VirtualFileChannel.PositionalWrite | src/main/kotlin/dev/aspid812/virtualfs/VirtualFileChannel.kt:54-64 | read-only fails, then closed, both leaving the file alone; otherwise the entity's write; the cursor does not move |
| Channel.VirtualFileChannel.Write | src/main/kotlin/dev/aspid812/virtualfs/VirtualFileChannel.kt:66-80 | follows `CursorWrite` |
| Frontend.Table | src/main/kotlin/dev/aspid812/virtualfs/VirtualFileSystemFrontend.kt:33-39 | the table's names are exactly the listing's names |
| Frontend.TableLast | src/main/kotlin/dev/aspid812/virtualfs/VirtualFileSystemFrontend.kt:35-37 | a name maps to the handle of its last occurrence in the listing |
| Frontend.TableFrom | src/main/kotlin/dev/aspid812/virtualfs/VirtualFileSystemFrontend.kt:35-37 | every mapped handle comes from a listing item with that name |
| Frontend.TableInjective | src/main/kotlin/dev/aspid812/virtualfs/VirtualFileSystemFrontend.kt:33-39 | distinct handles in the listing give distinct handles for distinct names |
| Frontend.TableScenario | src/main/kotlin/dev/aspid812/virtualfs/VirtualFileSystemFrontend.kt:35-37 | a duplicate name keeps the later handle |
| Frontend.NewEntities | src/main/kotlin/dev/aspid812/virtualfs/VirtualFileSystemFrontend.kt:33-39 | the loop makes one new closed entity per table entry, for that entry's handle |
| Frontend.BuildFileIndex | src/main/kotlin/dev/aspid812/virtualfs/VirtualFileSystemFrontend.kt:33-39 | the table built from `buildIndex`: each name to a new closed entity for its handle, distinct names to distinct listed handles |
| Frontend.EntitiesAdd | src/main/kotlin/dev/aspid812/virtualfs/VirtualFileSystemFrontend.kt:45-53 | adding a new entity for a new handle keeps the table's invariant |
| Frontend.EntitiesRemove | src/main/kotlin/dev/aspid812/virtualfs/VirtualFileSystemFrontend.kt:55-66 | removing a name together with its handle keeps the table's invariant |
| Frontend.VirtualFileSystemFrontend.constructor | src/main/kotlin/dev/aspid812/virtualfs/VirtualFileSystemFrontend.kt:10-15 | the table is the one `BuildFileIndex` makes |
| Frontend.VirtualFileSystemFrontend.CreateFile | src/main/kotlin/dev/aspid812/virtualfs/VirtualFileSystemFrontend.kt:45-53 | a present name fails with already-exists and changes nothing; otherwise the backend creates the file and only that name is added, to a new closed entity |
| Frontend.VirtualFileSystemFrontend.DeleteFile | src/main/kotlin/dev/aspid812/virtualfs/VirtualFileSystemFrontend.kt:55-66 | an absent name fails with not-found and an open file with in-use, both without touching the backend; otherwise the backend deletes the file and only that name is removed |
| Frontend.VirtualFileSystemFrontend.OpenFileForReading | src/main/kotlin/dev/aspid812/virtualfs/VirtualFileSystemFrontend.kt:68-79 | an absent name fails with not-found; otherwise the entity is opened and a new read-only channel at 0 is returned; the table and backend are unchanged |
| Frontend.VirtualFileSystemFrontend.OpenFileForWriting | src/main/kotlin/dev/aspid812/virtualfs/VirtualFileSystemFrontend.kt:81-93 | an absent name is first created in the backend and added; the entity is opened and a new writable channel at 0 is returned |
| Frontend.VirtualFileSystemFrontend.AddEntity | src/main/kotlin/dev/aspid812/virtualfs/VirtualFileSystemFrontend.kt:83-86 | the backend creates the file and the table gains the name, bound to a new closed entity for the new handle |
| Frontend.VirtualFileSystemFrontend.OpenChannel | src/main/kotlin/dev/aspid812/virtualfs/VirtualFileSystemFrontend.kt:87-91 | opens the entity; on success, a new channel over it with the given read-only flag |

## Left out

- Locking: the frontend's `ReentrantLock`, the entity's read-write lock and the channel's lock. Every operation is modelled as atomic and sequential.
- Host I/O: the `SeekableByteChannel` is a byte sequence. `VirtualFileSystem.open` and its bootstrap are not part of this model, beyond `readMinimalHeader`. The `close` delegations of storage, backend and frontend are also left out. `Storage.WriteAt` fills the gap left by a write past the end of the channel with zeros; a host `SeekableByteChannel` leaves those bytes unspecified.
- CRC32 is a function-valued parameter `crc` of the storage. Only the equality check matters.
- UTF-16BE: names are sequences of 16-bit code units. Malformed surrogates are not replaced.
- The `BlockStorage` interface has no counterpart. The backend runs on the in-memory slot store, and the file-backed engine is related to it by read-after-write lemmas rather than by a shared interface.
- Aliasing in the mock: its reads return the stored object, so a caller's changes show up without a write. The model keeps blocks as values. `FileIndex.CreateFileSharedReads` covers the one place where this changes an outcome.
- Stale bytes after the encoded fields of a rendered body are carried along but not interpreted.
- Codec.RenderFileIndexBlock and Codec.RenderDataBlock: on a name or payload too long for the body, the source has already put the fixed fields and the length into the block's own `rawBytes` when it throws (`VirtualFileSystemStorage.kt:70-81`, `VirtualFileSystemStorage.kt:103-107`). The model returns the error and leaves the body untouched.
- Integer widths. The model does not cover:
  - the `Int` overflow of `capacity *= 2` (`AbstractVirtualFileEntity.kt:59`);
  - the `blockRef++` wrap at 2^32;
  - a cursor or position overflowing `Int`.
  Preconditions bound them instead. The block count stays below 2^32 (`REF_LIMIT`), and sizes stay below 2^31.
- Entity.VirtualFileEntity.EnsureCapacity: requires `GrowthFits(demand)`, that doubling from max(capacity, 16) reaches the demand without passing `Int.MAX_VALUE`. `Entity.GrowWithinInt` shows every demand up to 2^30 qualifies. Past that the source's doubling wraps: from 16 toward a demand of 2^30 + 1 it goes 2^30, `Int.MIN_VALUE`, 0, 0, … and `ensureCapacity` never returns. The model does not include that hang.
- Entity.VirtualFileEntity.Write: requires position + n to fit in an `Int` and, when the write runs past the end, `GrowthFits(position + n)`. Past either bound the source overflows or hangs, and that path is not modelled.
- Channel.VirtualFileChannel.Write and Channel.VirtualFileChannel.PositionalWrite: the same two bounds on the channel's file.
- Mock.BlockStorageMock.WriteBlock: requires the slot to exist. The mock's `blocks[ref.toInt()] = block` throws `IndexOutOfBoundsException` otherwise, and no backend operation writes outside the store, so that path is not modelled.
- Entity.VirtualFileEntity.Close: requires the buffer to fit in the block space. This is the same bound `storeFile` needs for its allocation.
- Backend.VirtualFileSystemBackend.CreateFile: states the corrected behaviour. The behaviour as written is given by `FileIndex.CreateFileAsWrittenBreaksFreeList`.
- Backend.VirtualFileSystemBackend.StoreFile: states the corrected behaviour, with the range checked before the old chain is freed. The behaviour as written is given by `FileData.StoreFileBadRangeReleases`.
- Entity.VirtualFileEntity.Close: states the corrected behaviour, which decrements the counter. The behaviour as written is given by `Entity.AfterCloseAsWritten` and its lemmas.
- Frontend.VirtualFileSystemFrontend.OpenFileForReading: gives the entity's validity only as an implication from its validity before.
- Frontend.VirtualFileSystemFrontend.OpenFileForWriting: same as OpenFileForReading. The table invariant records backend, handle and distinctness, not each entity's buffer.
- Two backend tests are not encoded: the `loadFile` test at `VirtualFileSystemBackendTest.kt:369-396` and the chain-order comment at line 81. Both contradict the code. The model follows the code, and `Allocation.FreeScenario` states the order the assertions check.
- `SeekableByteChannelMock.kt`, `VirtualFile.kt`, `VirtualFileInfo.kt` and `VirtualFileSystemException.kt` have no logic of their own. `FileInfo` stands for `VirtualFileInfo`, and error names stand for the exceptions.

## Findings

| source | as written | input that shows it | evidently intended | confidence | as-written member | corrected member |
|---|---|---|---|---|---|---|
| src/main/kotlin/dev/aspid812/virtualfs/VirtualFileSystemBackend.kt:69,74,90-91 | `createFile` writes back the header it read before `allocate(1)`, undoing allocate's update of first-vacant | file-backed store: header with first-vacant 1, block 1 vacant; `createFile("foo")` makes block 1 the entry but first-vacant stays 1 | re-read the header after allocating, so the free list advances | not executed; high for decoded copies, the in-memory mock hides it | FileIndex.CreateFileAsWrittenBreaksFreeList | FileIndex.CreateFileKeepsLayout |
| src/main/kotlin/dev/aspid812/virtualfs/AbstractVirtualFileEntity.kt:46-54 | `close` computes `openCounter - 1` but never stores it | open, write, open, close, close: nothing stored and `isOpen()` stays true | decrement the counter on each close | not executed; high | Entity.CloseAsWrittenNeverStores | Entity.BalancedSessionStoresOnce |
| src/main/kotlin/dev/aspid812/virtualfs/VirtualFileSystemBackend.kt:166-175 | `storeFile` frees the old chain before `ByteBuffer.wrap` rejects a bad range | file with a one-block chain, `storeFile(h, [], 0, 1)`: fails, the entry still names the freed block, and the next allocation hands it out again | check the range before freeing | not executed; medium, the frontend always passes a valid range | FileData.StoreFileBadRangeReleases | FileData.StoreFileCheckedKeepsLayout |
