/**
 * `VirtualFileSystemBackend`: the file operations over the block store,
 * each a method that reads and writes blocks one at a time, proved to
 * leave the store exactly as the corresponding state function of
 * `Allocation`, `FileIndex` and `FileData` says. The object keeps, as
 * ghost state, the lists threaded through the store (the file index, the
 * free list and each file's data chain), and `Valid` is the store's
 * layout invariant over them.
 */
module Backend {
  import opened Wrappers
  import opened Blocks
  import opened Mock
  import opened Lists
  import opened Allocation
  import opened Transfer
  import opened FileIndex
  import opened FileData

  /** One more fresh reference, at the end. */
  lemma FreshStep(start: nat, count: nat)
    requires start + count < REF_LIMIT
    ensures Fresh(start, count + 1) == Fresh(start, count) + [(start + count) as Ref]
  {
  }

  /** The position of `x` in `l`. */
  ghost function IndexOf(l: seq<Ref>, x: Ref): (i: nat)
    requires x in l
    ensures i < |l| && l[i] == x
  {
    var i :| 0 <= i < |l| && l[i] == x; i
  }

  /** The data chain of `h` when it is a listed file, and no chain otherwise. */
  ghost function ChainOf(s: Slots, files: seq<Ref>, free: seq<Ref>, chains: map<Ref, seq<Ref>>, h: Ref): (c: seq<Ref>)
    requires Layout(s, files, free, chains)
    ensures forall k | 0 <= k < |c| :: IsDataAt(s, c[k])
    ensures h in files ==> c == chains[h] && FileChain(s, h, c)
    ensures h !in files ==> c == []
  {
    if h in files then
      var i := IndexOf(files, h);
      assert FileChain(s, files[i], chains[files[i]]);
      chains[h]
    else []
  }

  /** The first `n` bytes of `x`, or all of them when there are fewer. */
  function Take(x: seq<Byte>, n: nat): (t: seq<Byte>)
    ensures |t| <= n && t <= x
    ensures |t| < n ==> t == x
  {
    if |x| <= n then x else x[..n]
  }

  /** Filling a partly filled buffer from one more payload. */
  lemma TakeAppend(x: seq<Byte>, y: seq<Byte>, n: nat)
    requires |x| < n
    ensures Take(x + y, n) == x + y[..if n - |x| < |y| then n - |x| else |y|]
  {
  }

  /** A full buffer takes nothing more. */
  lemma TakeFull(x: seq<Byte>, y: seq<Byte>, n: nat)
    requires |Take(x, n)| == n
    ensures Take(x + y, n) == Take(x, n)
  {
  }

  /** The loaded array is the bytes the buffer took, padded with zeros. */
  lemma TakeThenPad(x: seq<Byte>, n: nat)
    ensures LoadBytes(x, n) == Take(x, n) + Zeros(n - |Take(x, n)|)
  {
  }

  /** The listing of a prefix of the index grows by one entry. */
  lemma InfosPrefix(s: Slots, files: seq<Ref>, k: nat)
    requires k < |files| && forall i | 0 <= i < |files| :: IsFileAt(s, files[i])
    ensures Infos(s, files[..k + 1]) == Infos(s, files[..k]) + [InfoOf(s, files[k])]
  {
    assert files[..k + 1][..k] == files[..k];
  }

  /** The payloads of a chain's first `k + 1` blocks are those of its first `k` and then block `k`'s. */
  lemma ContentsPrefix(s: Slots, c: seq<Ref>, k: nat)
    requires k < |c| && forall i | 0 <= i < |c| :: IsDataAt(s, c[i])
    ensures Contents(s, c[..k + 1]) == Contents(s, c[..k]) + At(s, c[k]).fileData
  {
    assert c[..k + 1] == c[..k] + [c[k]];
    ContentsAppend(s, c[..k], [c[k]]);
    assert [c[k]][1..] == [];
  }

  /** The payloads of a whole chain begin with those of its first `k` blocks. */
  lemma ContentsSplit(s: Slots, c: seq<Ref>, k: nat)
    requires k <= |c| && forall i | 0 <= i < |c| :: IsDataAt(s, c[i])
    ensures Contents(s, c) == Contents(s, c[..k]) + Contents(s, c[k..])
  {
    assert c == c[..k] + c[k..];
    ContentsAppend(s, c[..k], c[k..]);
  }

  /** The bytes `storeFile` takes from the buffer for block `k` are the `k`-th chunk of the range. */
  lemma PieceIsChunk(x: seq<Byte>, offset: nat, length: nat, max: nat, k: nat, position: nat, size: int)
    requires max > 0 && length > 0 && offset + length <= |x| && k < NumDataBlocks(length, max)
    requires position == offset + k * max
    requires size == if k + 1 < NumDataBlocks(length, max) then max else offset + length - position
    ensures 0 < size && position + size <= offset + length
    ensures k + 1 < NumDataBlocks(length, max) ==> position + size == offset + (k + 1) * max
    ensures x[position .. position + size] == Chunk(x[offset .. offset + length], max, k)
  {
    ChunkBounds(length, max, k);
    MulSucc(k, max);
    var data := x[offset .. offset + length];
    var start := k * max;
    var chunk := Chunk(data, max, k);
    if k + 1 < NumDataBlocks(length, max) {
      assert chunk == data[start .. start + size];
    } else {
      assert chunk == data[start..] == data[start .. start + size];
    }
    SliceOfSlice(x, offset, length, start, start + size);
  }

  lemma SliceOfSlice(x: seq<Byte>, offset: nat, length: nat, a: nat, b: nat)
    requires offset + length <= |x| && a <= b <= length
    ensures x[offset .. offset + length][a .. b] == x[offset + a .. offset + b]
  {
    var y := x[offset .. offset + length];
    forall i | 0 <= i < b - a
      ensures y[a .. b][i] == x[offset + a .. offset + b][i]
    {
      assert y[a .. b][i] == y[a + i] == x[offset + a + i];
    }
  }

  class VirtualFileSystemBackend {
    const storage: BlockStorageMock
    /** The file-index entries, head first. */
    ghost var files: seq<Ref>
    /** The vacant blocks, head first. */
    ghost var free: seq<Ref>
    /** Each file's data chain. */
    ghost var chains: map<Ref, seq<Ref>>

    ghost predicate Valid()
      reads this, storage
    {
      Layout(storage.blocks, files, free, chains) && storage.maxBytesPerDataBlock > 0
    }

    constructor (storage: BlockStorageMock, ghost files: seq<Ref>, ghost free: seq<Ref>, ghost chains: map<Ref, seq<Ref>>)
      requires Layout(storage.blocks, files, free, chains) && storage.maxBytesPerDataBlock > 0
      ensures this.storage == storage && this.files == files && this.free == free && this.chains == chains
      ensures Valid()
    {
      this.storage := storage;
      this.files := files;
      this.free := free;
      this.chains := chains;
    }

    /** Moves the ghost lists to a new layout of the store. */
    ghost method SetLists(files': seq<Ref>, free': seq<Ref>, chains': map<Ref, seq<Ref>>)
      requires Layout(storage.blocks, files', free', chains') && storage.maxBytesPerDataBlock > 0
      modifies this
      ensures files == files' && free == free' && chains == chains'
      ensures Valid()
    {
      files, free, chains := files', free', chains';
    }

    /**
     * `allocate(n)`: walks the free list for up to `n` vacant blocks, moves
     * the header's free-list head past them, and appends fresh slots for
     * the shortfall.
     */
    method Allocate(numBlocksDemand: nat, ghost vacant: seq<Ref>) returns (allocatedBlocks: seq<Ref>)
      requires FreeList(storage.blocks, vacant) && |storage.blocks| + numBlocksDemand <= REF_LIMIT
      modifies storage
      ensures allocatedBlocks == AllocatedRefs(old(storage.blocks), vacant, numBlocksDemand)
      ensures storage.blocks == AllocateState(old(storage.blocks), vacant, numBlocksDemand)
    {
      ghost var s := storage.blocks;
      var header := storage.ReadBlock(0, HeaderKind);
      var blockRef;
      allocatedBlocks, blockRef := PopVacant(header.value.firstVacantBlock, numBlocksDemand, vacant);
      var numBlocksAllocated := |allocatedBlocks|;
      storage.WriteBlock(0, header.value.(firstVacantBlock := blockRef));
      ghost var k := Taken(vacant, numBlocksDemand);
      assert numBlocksAllocated == k;
      assert storage.blocks + Nones(numBlocksDemand - k) == AllocateState(s, vacant, numBlocksDemand);

      if numBlocksAllocated < numBlocksDemand {
        var firstAdded := storage.Expand(numBlocksDemand - numBlocksAllocated);
        allocatedBlocks := AppendFresh(allocatedBlocks, firstAdded, numBlocksDemand - numBlocksAllocated);
      } else {
        assert Fresh(|s|, 0) == [] && Nones(0) == [];
        assert storage.blocks + [] == storage.blocks;
      }
    }

    /** The first loop of `allocate`: follows the free list for up to `n` blocks, returning them and the link after them. */
    method PopVacant(firstVacant: Ref, n: nat, ghost vacant: seq<Ref>) returns (popped: seq<Ref>, blockRef: Ref)
      requires DataChain(storage.blocks, firstVacant, vacant)
      ensures popped == vacant[..Taken(vacant, n)]
      ensures blockRef == if Taken(vacant, n) < |vacant| then vacant[Taken(vacant, n)] else NIL
    {
      popped := [];
      blockRef := firstVacant;
      var numBlocksAllocated := 0;
      while numBlocksAllocated < n && blockRef != NIL
        invariant numBlocksAllocated <= n && numBlocksAllocated <= |vacant|
        invariant popped == vacant[..numBlocksAllocated]
        invariant blockRef == if numBlocksAllocated < |vacant| then vacant[numBlocksAllocated] else NIL
        decreases n - numBlocksAllocated
      {
        var block := storage.ReadBlock(blockRef, DataKind);
        popped := popped + [blockRef];
        numBlocksAllocated := numBlocksAllocated + 1;
        blockRef := block.value.nextDataBlock;
      }
    }

    /** The second loop of `allocate`: appends the `count` consecutive references from `first`. */
    method AppendFresh(prefix: seq<Ref>, first: nat, count: nat) returns (refs: seq<Ref>)
      requires first + count <= REF_LIMIT
      ensures refs == prefix + Fresh(first, count)
    {
      refs := prefix;
      var blockRef := first;
      var numAdded := 0;
      while numAdded < count
        invariant numAdded <= count && blockRef == first + numAdded
        invariant refs == prefix + Fresh(first, numAdded)
      {
        FreshStep(first, numAdded);
        refs := refs + [blockRef as Ref];
        numAdded := numAdded + 1;
        blockRef := blockRef + 1;
      }
    }

    /** `free(first, last)`: links `last` to the free-list head and makes `first` the head. */
    method Free(firstRef: Ref, lastRef: Ref)
      requires HasHeader(storage.blocks) && IsDataAt(storage.blocks, lastRef)
      modifies storage
      ensures storage.blocks == FreeState(old(storage.blocks), firstRef, lastRef)
    {
      var header := storage.ReadBlock(0, HeaderKind);
      var lastBlock := storage.ReadBlock(lastRef, DataKind);
      storage.WriteBlock(lastRef, lastBlock.value.(nextDataBlock := header.value.firstVacantBlock));
      storage.WriteBlock(0, header.value.(firstVacantBlock := firstRef));
    }

    /** `buildIndex()`: the name, size and handle of every entry, walking the index from its head. */
    method BuildIndex() returns (index: seq<FileInfo>)
      requires Valid()
      ensures index == Infos(storage.blocks, files)
    {
      var header := storage.ReadBlock(0, HeaderKind);
      index := [];
      var fileHandle := header.value.nextIndexBlock;
      ghost var k := 0;
      while fileHandle != NIL
        invariant k <= |files|
        invariant fileHandle == if k < |files| then files[k] else NIL
        invariant index == Infos(storage.blocks, files[..k])
        decreases |files| - k
      {
        var entry := storage.ReadBlock(fileHandle, FileIndexKind);
        InfosPrefix(storage.blocks, files, k);
        index := index + [FileInfo(entry.value.fileName, entry.value.fileSize, fileHandle)];
        fileHandle := entry.value.nextIndexBlock;
        k := k + 1;
      }
      assert files[..k] == files;
    }

    /**
     * `createFile(name)`, with the header read again after `allocate(1)`:
     * the new entry is appended at the tail of the index, the free list
     * loses the block the entry took, and the new file owns no data.
     */
    method CreateFile(fileName: Name) returns (fileHandle: Ref)
      requires Valid() && |storage.blocks| < REF_LIMIT
      modifies this, storage
      ensures Valid()
      ensures CanCreate(old(storage.blocks), old(free))
      ensures fileHandle == CreatedHandle(old(storage.blocks), old(free))
      ensures storage.blocks == CreateFileState(old(storage.blocks), old(free), fileName)
      ensures files == old(files) + [fileHandle] && fileHandle !in old(files)
      ensures free == old(free)[Taken(old(free), 1)..] && chains == old(chains)[fileHandle := []]
      ensures Infos(storage.blocks, files) == old(Infos(storage.blocks, files)) + [FileInfo(fileName, 0, fileHandle)]
    {
      ghost var s := storage.blocks;
      CreateFileKeepsLayout(s, files, free, chains, fileName);
      CreateWellFormed(s, free);
      var header := storage.ReadBlock(0, HeaderKind);
      var prevRef := header.value.prevIndexBlock;

      var handles := Allocate(1, free);
      fileHandle := handles[0];
      var entry := NewFileIndexBlock().(nextIndexBlock := NIL, prevIndexBlock := prevRef, fileSize := 0, fileName := fileName);
      storage.WriteBlock(fileHandle, entry);

      header := storage.ReadBlock(0, HeaderKind);
      var updated := header.value;
      if prevRef != NIL {
        var prevBlock := storage.ReadBlock(prevRef, FileIndexKind);
        storage.WriteBlock(prevRef, SetNextIndex(prevBlock.value, fileHandle));
      } else {
        updated := SetNextIndex(updated, fileHandle);
      }
      storage.WriteBlock(0, SetPrevIndex(updated, fileHandle));

      SetLists(files + [fileHandle], free[Taken(free, 1)..], chains[fileHandle := []]);
    }

    /**
     * `deleteFile(h)`: an unknown handle fails the read and changes
     * nothing; a listed entry is unlinked from the index, rewritten as a
     * data block heading its chain, and that block and the chain join the
     * free list.
     */
    method DeleteFile(fileHandle: Ref) returns (outcome: Outcome)
      requires Valid()
      modifies this, storage
      ensures Valid()
      ensures var read := ReadSlot(old(storage.blocks), fileHandle, FileIndexKind);
              read.Err? ==> outcome == Fail(read.error) && storage.blocks == old(storage.blocks)
                            && files == old(files) && free == old(free) && chains == old(chains)
      ensures outcome.Pass? <==> fileHandle in old(files)
      ensures outcome.Pass? ==>
                && CanDelete(old(storage.blocks), fileHandle)
                && storage.blocks == DeleteFileState(old(storage.blocks), fileHandle).0
                && var i := IndexOf(old(files), fileHandle);
                   && files == old(files)[..i] + old(files)[i + 1..]
                   && free == [fileHandle] + old(chains)[fileHandle] + old(free)
                   && chains == old(chains) - {fileHandle}
    {
      EntryIsListed(storage.blocks, files, free, chains, fileHandle);
      var read := storage.ReadBlock(fileHandle, FileIndexKind);
      if read.Err? {
        return Fail(read.error);
      }
      outcome := DeleteListed(fileHandle, read.value);
    }

    /** `deleteFile(h)` once the entry of the listed handle `fileHandle` is read. */
    method DeleteListed(fileHandle: Ref, entry: Block) returns (outcome: Outcome)
      requires Valid() && fileHandle in files && entry == At(storage.blocks, fileHandle)
      modifies this, storage
      ensures Valid() && outcome == Pass
      ensures CanDelete(old(storage.blocks), fileHandle)
      ensures storage.blocks == DeleteFileState(old(storage.blocks), fileHandle).0
      ensures var i := IndexOf(old(files), fileHandle);
              && files == old(files)[..i] + old(files)[i + 1..]
              && free == [fileHandle] + old(chains)[fileHandle] + old(free)
              && chains == old(chains) - {fileHandle}
    {
      ghost var s, files0, free0, chains0 := storage.blocks, files, free, chains;
      ghost var i := IndexOf(files0, fileHandle);
      DeleteFileKeepsLayout(s, files0, free0, chains0, i);
      assert files0[i] in chains0;
      ghost var files1, free1, chains1 := files0[..i] + files0[i + 1..], [fileHandle] + chains0[fileHandle] + free0, chains0 - {fileHandle};

      ghost var deleted := DeleteFileState(s, fileHandle);
      assert Layout(deleted.0, files1, free1, chains1) && deleted.1 == Pass;

      outcome := Release(fileHandle, entry);
      assert storage.blocks == deleted.0 && outcome == Pass;
      SetLists(files1, free1, chains1);
    }

    /**
     * The rest of `deleteFile(h)` once the entry is read: unlink it, rewrite
     * it as a data block heading its chain, and push that block and the
     * chain onto the free list; a chain with exactly one end 0 is rejected
     * after the rewrite.
     */
    method Release(fileHandle: Ref, entry: Block) returns (outcome: Outcome)
      requires CanDelete(storage.blocks, fileHandle) && entry == At(storage.blocks, fileHandle)
      modifies storage
      ensures storage.blocks == DeleteFileState(old(storage.blocks), fileHandle).0
      ensures outcome == DeleteFileState(old(storage.blocks), fileHandle).1
    {
      ReleaseSlots(storage.blocks, fileHandle);
      Unlink(fileHandle, entry);

      storage.WriteBlock(fileHandle, ReleasedEntry(entry));
      assert storage.blocks == ReleaseState(old(storage.blocks), fileHandle);

      if entry.firstDataBlock != NIL && entry.lastDataBlock != NIL {
        Free(fileHandle, entry.lastDataBlock);
        outcome := Pass;
      } else if entry.firstDataBlock == NIL && entry.lastDataBlock == NIL {
        Free(fileHandle, fileHandle);
        outcome := Pass;
      } else {
        outcome := Fail(InvariantViolation);
      }
    }

    /**
     * The first half of `deleteFile(h)`: the index block before `entry`
     * (the header for reference 0) gets its next, the one after it gets its
     * previous; an only entry clears the header's links.
     */
    method Unlink(fileHandle: Ref, entry: Block)
      requires CanUnlink(storage.blocks, fileHandle) && entry == At(storage.blocks, fileHandle)
      modifies storage
      ensures storage.blocks == UnlinkState(old(storage.blocks), fileHandle)
    {
      var prevRef, nextRef := entry.prevIndexBlock, entry.nextIndexBlock;
      if prevRef == nextRef {
        var header := storage.ReadBlock(0, HeaderKind);
        storage.WriteBlock(0, SetPrevIndex(SetNextIndex(header.value, NIL), NIL));
      } else {
        if prevRef == NIL {
          var prevBlock := storage.ReadBlock(prevRef, HeaderKind);
          storage.WriteBlock(prevRef, SetNextIndex(prevBlock.value, nextRef));
        } else {
          var prevBlock := storage.ReadBlock(prevRef, FileIndexKind);
          storage.WriteBlock(prevRef, SetNextIndex(prevBlock.value, nextRef));
        }
        if nextRef == NIL {
          var nextBlock := storage.ReadBlock(nextRef, HeaderKind);
          storage.WriteBlock(nextRef, SetPrevIndex(nextBlock.value, prevRef));
        } else {
          var nextBlock := storage.ReadBlock(nextRef, FileIndexKind);
          storage.WriteBlock(nextRef, SetPrevIndex(nextBlock.value, prevRef));
        }
      }
    }

    /**
     * `loadFile(h)`: an array of the entry's recorded size, filled from the
     * chain's payloads until it is full or the chain ends.
     */
    method LoadFile(fileHandle: Ref) returns (r: Result<seq<Byte>>)
      requires Valid()
      ensures r == LoadFileResult(storage.blocks, fileHandle, ChainOf(storage.blocks, files, free, chains, fileHandle))
    {
      ghost var s := storage.blocks;
      ghost var c := ChainOf(s, files, free, chains, fileHandle);
      var read := storage.ReadBlock(fileHandle, FileIndexKind);
      if read.Err? {
        return Err(read.error);
      }
      var entry := read.value;
      EntryIsListed(s, files, free, chains, fileHandle);
      var size := LongToInt(entry.fileSize);
      if size < 0 {
        return Err(NegativeArraySize);
      }

      assert DataChain(s, entry.firstDataBlock, c);
      var fileBytes := ReadChain(entry.firstDataBlock, size, c);
      TakeThenPad(Contents(s, c), size);
      r := Ok(fileBytes + Zeros(size - |fileBytes|));
    }

    /** The loop of `loadFile`: fills a `size`-byte buffer from the payloads of the chain from `first`. */
    method ReadChain(first: Ref, size: nat, ghost c: seq<Ref>) returns (fileBytes: seq<Byte>)
      requires DataChain(storage.blocks, first, c)
      ensures fileBytes == Take(Contents(storage.blocks, c), size)
    {
      ghost var s := storage.blocks;
      fileBytes := [];
      var blockRef := first;
      ghost var k := 0;
      while blockRef != NIL && |fileBytes| < size
        invariant k <= |c|
        invariant blockRef == if k < |c| then c[k] else NIL
        invariant fileBytes == Take(Contents(s, c[..k]), size)
        decreases |c| - k
      {
        var block := storage.ReadBlock(blockRef, DataKind);
        var data := block.value.fileData;
        var portion := if size - |fileBytes| < |data| then size - |fileBytes| else |data|;
        ContentsPrefix(s, c, k);
        TakeAppend(Contents(s, c[..k]), data, size);
        fileBytes := fileBytes + data[..portion];
        blockRef := block.value.nextDataBlock;
        k := k + 1;
      }
      ContentsSplit(s, c, k);
      if |fileBytes| == size {
        TakeFull(Contents(s, c[..k]), Contents(s, c[k..]), size);
      } else {
        assert c[..k] == c;
      }
    }

    /**
     * `storeFile(h, bytes, offset, length)`, with the range checked before
     * the old chain is released: an unknown handle fails the read and a
     * range outside `bytes` fails, both changing nothing; otherwise the
     * entry's old chain joins the free list, the `length` bytes from
     * `offset` go into freshly allocated blocks linked in order, and the
     * entry records the new size and chain ends.
     */
    method StoreFile(fileHandle: Ref, fileBytes: seq<Byte>, offset: Int32, length: Int32) returns (outcome: Outcome)
      requires Valid() && |storage.blocks| + |fileBytes| <= REF_LIMIT
      modifies this, storage
      ensures Valid()
      ensures var read := ReadSlot(old(storage.blocks), fileHandle, FileIndexKind);
              read.Err? ==> outcome == Fail(read.error)
      ensures outcome.Pass? ==> fileHandle in old(files)
      ensures outcome.Fail? ==>
                storage.blocks == old(storage.blocks) && files == old(files) && free == old(free) && chains == old(chains)
      ensures fileHandle in old(files) ==>
                var c := old(chains)[old(files)[IndexOf(old(files), fileHandle)]];
                && CanStore(old(storage.blocks), fileHandle, old(free), c)
                && (storage.blocks, outcome)
                   == StoreFileChecked(old(storage.blocks), fileHandle, fileBytes, offset, length, storage.maxBytesPerDataBlock, old(free), c)
                && (outcome.Pass? ==>
                      var lists := StoreLists(old(storage.blocks), fileHandle, old(free), c, length, storage.maxBytesPerDataBlock);
                      files == old(files) && free == lists.0 && chains == old(chains)[fileHandle := lists.1])
    {
      ghost var s, files0, free0, chains0 := storage.blocks, files, free, chains;
      EntryIsListed(s, files0, free0, chains0, fileHandle);
      var read := storage.ReadBlock(fileHandle, FileIndexKind);
      if read.Err? {
        return Fail(read.error);
      }
      var entry := read.value;
      ghost var i := IndexOf(files0, fileHandle);
      var max := storage.maxBytesPerDataBlock;
      StoreFileCheckedKeepsLayout(s, files0, free0, chains0, i, fileBytes, offset, length, max);
      if offset < 0 || length < 0 || offset + length > |fileBytes| {
        return Fail(IndexOutOfBounds);
      }
      ghost var c := chains0[files0[i]];
      ghost var lists := StoreLists(s, fileHandle, free0, c, length, max);
      Store(fileHandle, entry, fileBytes, offset, length, free0, c);
      SetLists(files0, lists.0, chains0[fileHandle := lists.1]);
      outcome := Pass;
    }

    /** The rest of `storeFile` once the entry is read and the range checked: release, allocate, write. */
    method Store(fileHandle: Ref, entry: Block, fileBytes: seq<Byte>, offset: nat, length: nat,
                 ghost vacant: seq<Ref>, ghost c: seq<Ref>)
      requires CanStore(storage.blocks, fileHandle, vacant, c) && entry == At(storage.blocks, fileHandle)
      requires storage.maxBytesPerDataBlock > 0 && |storage.blocks| + |fileBytes| <= REF_LIMIT
      requires offset + length <= |fileBytes|
      modifies storage
      ensures storage.blocks == StoreFileState(old(storage.blocks), fileHandle, fileBytes, offset, length,
                                               storage.maxBytesPerDataBlock, vacant, c).0
    {
      ghost var s := storage.blocks;
      var max := storage.maxBytesPerDataBlock;
      ghost var released := StoreReleased(s, fileHandle, vacant, c);
      StoreReleasedFacts(s, fileHandle, vacant, c);
      if entry.firstDataBlock != NIL {
        assert c[|c| - 1] == Last(c);
        Free(entry.firstDataBlock, entry.lastDataBlock);
      }
      assert storage.blocks == released.0;

      if length > 0 {
        StoreData(fileHandle, entry, fileBytes, offset, length, released.1);
      } else {
        storage.WriteBlock(fileHandle, StoredEntry(entry, 0, []));
      }
    }

    /** `storeFile` of at least one byte, once the old chain is released: allocate, write the blocks, update the entry. */
    method StoreData(fileHandle: Ref, entry: Block, fileBytes: seq<Byte>, offset: nat, length: nat, ghost vacant: seq<Ref>)
      requires FreeList(storage.blocks, vacant) && entry.FileIndexBlock? && fileHandle < |storage.blocks|
      requires storage.maxBytesPerDataBlock > 0 && |storage.blocks| + |fileBytes| <= REF_LIMIT
      requires 0 < length && offset + length <= |fileBytes|
      modifies storage
      ensures var chain := StoreChain(old(storage.blocks), vacant, fileBytes[offset .. offset + length], storage.maxBytesPerDataBlock);
              storage.blocks == chain.0[fileHandle := Some(StoredEntry(entry, length, chain.1))]
    {
      ghost var s := storage.blocks;
      var max := storage.maxBytesPerDataBlock;
      var numDataBlocks := 1 + (length - 1) / max;
      assert numDataBlocks == NumDataBlocks(length, max);
      StoreRefsInStore(s, vacant, numDataBlocks);
      var dataBlockRefs := Allocate(numDataBlocks, vacant);
      ghost var allocatedState := storage.blocks;
      WriteChunks(dataBlockRefs, fileBytes, offset, length);
      ghost var data := fileBytes[offset .. offset + length];
      assert |data| == length;
      assert NumDataBlocks(|data|, max) == numDataBlocks;
      ghost var chain := StoreChain(s, vacant, data, max);
      assert chain.1 == AllocatedRefs(s, vacant, numDataBlocks);
      assert chain.0 == WriteBlocks(allocatedState, dataBlockRefs, Chunks(data, max), numDataBlocks);
      assert storage.blocks == chain.0;
      storage.WriteBlock(fileHandle, StoredEntry(entry, length, dataBlockRefs));
    }

    /**
     * The loop of `storeFile`: block `k` of `refs` gets the `k`-th piece of
     * the `length` bytes from `offset`, `max` bytes each and what remains in
     * the last, and links to block `k + 1` (the last to 0).
     */
    method WriteChunks(refs: seq<Ref>, fileBytes: seq<Byte>, offset: nat, length: nat)
      requires storage.maxBytesPerDataBlock > 0 && length > 0 && offset + length <= |fileBytes|
      requires |refs| == NumDataBlocks(length, storage.maxBytesPerDataBlock)
      requires forall j | 0 <= j < |refs| :: refs[j] < |storage.blocks|
      modifies storage
      ensures storage.blocks == WriteBlocks(old(storage.blocks), refs, Chunks(fileBytes[offset .. offset + length], storage.maxBytesPerDataBlock), |refs|)
    {
      ghost var s := storage.blocks;
      ghost var data := fileBytes[offset .. offset + length];
      var max := storage.maxBytesPerDataBlock;
      ghost var chunks := Chunks(data, max);
      var numDataBlocks := |refs|;
      var position := offset;
      for k := 0 to numDataBlocks
        invariant k < numDataBlocks ==> position == offset + k * max
        invariant storage.blocks == WriteBlocks(s, refs, chunks, k)
      {
        var blockRef := refs[k];
        var nextBlockRef := if k < numDataBlocks - 1 then refs[k + 1] else NIL;
        var blockDataSize := if k < numDataBlocks - 1 then max else offset + length - position;
        PieceIsChunk(fileBytes, offset, length, max, k, position, blockDataSize);
        var bytes := fileBytes[position .. position + blockDataSize];
        position := position + blockDataSize;
        WriteDataBlock(blockRef, nextBlockRef, bytes, s, refs, chunks, k);
      }
    }

    /** One step of `storeFile`'s loop: a new data block holding `bytes` and linking to `nextBlockRef`. */
    method WriteDataBlock(blockRef: Ref, nextBlockRef: Ref, bytes: seq<Byte>,
                          ghost s: Slots, ghost refs: seq<Ref>, ghost chunks: seq<seq<Byte>>, ghost k: nat)
      requires |refs| == |chunks| && k < |refs| && forall j | 0 <= j < |refs| :: refs[j] < |s|
      requires storage.blocks == WriteBlocks(s, refs, chunks, k)
      requires blockRef == refs[k] && nextBlockRef == NextOf(refs, k) && bytes == chunks[k]
      modifies storage
      ensures storage.blocks == WriteBlocks(s, refs, chunks, k + 1)
    {
      var block := NewDataBlock();
      block := block.(nextDataBlock := nextBlockRef, fileData := bytes);
      storage.WriteBlock(blockRef, block);
    }
  }
}
