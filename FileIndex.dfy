/**
 * The file index of `VirtualFileSystemBackend`: `createFile` appends an
 * entry at the tail of the doubly linked index, `deleteFile` unlinks one and
 * releases its blocks, both stated as functions of the store before the
 * call, with the lemmas that they keep the store's layout.
 */
module FileIndex {
  import opened Wrappers
  import opened Blocks
  import opened Mock
  import opened Lists
  import opened Allocation

  // ---------------------------------------------------------------------------
  // createFile

  /** The entry `createFile` writes: a fresh file-index block at the tail, empty and named. */
  function NewEntry(prevRef: Ref, fileName: Name): (e: Block)
    ensures e.FileIndexBlock? && e.nextIndexBlock == NIL && e.prevIndexBlock == prevRef
    ensures e.firstDataBlock == NIL && e.lastDataBlock == NIL && e.fileSize == 0 && e.fileName == fileName
  {
    var e := NewFileIndexBlock();
    FileIndexBlock(NIL, prevRef, e.firstDataBlock, e.lastDataBlock, 0, fileName)
  }

  /**
   * Writes entry `h` after the tail named by `header.prevIndexBlock`, links
   * the old tail (or, for an empty index, the header) to it, and writes
   * `header` back with the new tail.
   */
  ghost function AppendEntry(s: Slots, h: Ref, fileName: Name, header: Block): Slots
    requires HasHeader(s) && 0 < h < |s| && header.HeaderIndexBlock?
    requires header.prevIndexBlock != NIL ==> IsFileAt(s, header.prevIndexBlock) && header.prevIndexBlock != h
  {
    var prevRef := header.prevIndexBlock;
    var s1 := s[h := Some(NewEntry(prevRef, fileName))];
    if prevRef != NIL then
      var s2 := s1[prevRef := Some(SetNextIndex(At(s1, prevRef), h))];
      s2[0 := Some(SetPrevIndex(header, h))]
    else
      s1[0 := Some(SetPrevIndex(SetNextIndex(header, h), h))]
  }

  /** The handle `createFile` gets from `allocate(1)`: the free-list head, or a fresh slot. */
  ghost function CreatedHandle(s: Slots, free: seq<Ref>): Ref
    requires |s| < REF_LIMIT
  {
    AllocatedRefs(s, free, 1)[0]
  }

  ghost predicate CanCreate(s: Slots, free: seq<Ref>) {
    && FreeList(s, free) && |s| < REF_LIMIT
    && (Header(s).prevIndexBlock != NIL ==> IsFileAt(s, Header(s).prevIndexBlock))
  }

  lemma CreateWellFormed(s: Slots, free: seq<Ref>)
    requires CanCreate(s, free)
    ensures var s1 := AllocateState(s, free, 1);
            var h := CreatedHandle(s, free);
            && HasHeader(s1) && 0 < h < |s1|
            && Header(s1).prevIndexBlock == Header(s).prevIndexBlock
            && (Header(s).prevIndexBlock != NIL ==> IsFileAt(s1, Header(s).prevIndexBlock) && Header(s).prevIndexBlock != h)
            && (free != [] ==> h == free[0] && IsDataAt(s, h))
            && (free == [] ==> h == |s|)
  {
    AllocatePopsFreeList(s, free, 1);
    FreeListInStore(s, free);
    if free != [] {
      assert IsDataAt(s, free[0]);
    }
  }

  /**
   * The store after `createFile(name)`, with the header read back after
   * `allocate(1)` so that the free-list head `allocate` moved is kept.
   */
  ghost function CreateFileState(s: Slots, free: seq<Ref>, fileName: Name): Slots
    requires CanCreate(s, free)
  {
    CreateWellFormed(s, free);
    var s1 := AllocateState(s, free, 1);
    AppendEntry(s1, CreatedHandle(s, free), fileName, Header(s1))
  }

  /**
   * The store after `createFile(name)` as written: the header is read before
   * `allocate(1)` and that copy is written back at the end. When reads hand
   * out the stored object itself (`sharedReads`, as the in-memory store's
   * do) the copy has seen `allocate`'s update; when they hand out a decoded
   * copy (as the file-backed storage's do) it has not.
   */
  ghost function CreateFileAsWrittenState(s: Slots, free: seq<Ref>, fileName: Name, sharedReads: bool): Slots
    requires CanCreate(s, free)
  {
    CreateWellFormed(s, free);
    var s1 := AllocateState(s, free, 1);
    var header := if sharedReads then Header(s1) else Header(s);
    AppendEntry(s1, CreatedHandle(s, free), fileName, header)
  }

  /** With shared reads the stale copy is the live header, so the code as written behaves as intended. */
  lemma CreateFileSharedReads(s: Slots, free: seq<Ref>, fileName: Name)
    requires CanCreate(s, free)
    ensures CreateFileAsWrittenState(s, free, fileName, true) == CreateFileState(s, free, fileName)
  {
  }

  lemma AppendEntrySlots(s: Slots, h: Ref, fileName: Name, header: Block)
    requires HasHeader(s) && 0 < h < |s| && header.HeaderIndexBlock?
    requires header.prevIndexBlock != NIL ==> IsFileAt(s, header.prevIndexBlock) && header.prevIndexBlock != h
    ensures var s' := AppendEntry(s, h, fileName, header);
            var p := header.prevIndexBlock;
            && |s'| == |s|
            && s'[h] == Some(NewEntry(p, fileName))
            && HasHeader(s')
            && Header(s') == (if p != NIL then SetPrevIndex(header, h) else SetPrevIndex(SetNextIndex(header, h), h))
            && (p != NIL ==> s'[p] == Some(SetNextIndex(At(s, p), h)))
            && forall r | 0 < r < |s| && r != h && r != p :: s'[r] == s[r]
  {
  }

  /**
   * With copy-on-read storage and a non-empty free list, `createFile` as
   * written writes back the header's old `firstVacantBlock`, which is the
   * block it just turned into the new entry. The free list now starts at
   * a file-index block: no free list exists in the result, and the next
   * `allocate` fails on that block.
   */
  lemma CreateFileAsWrittenBreaksFreeList(s: Slots, free: seq<Ref>, fileName: Name)
    requires CanCreate(s, free) && free != []
    ensures var s' := CreateFileAsWrittenState(s, free, fileName, false);
            && CreatedHandle(s, free) == free[0]
            && Header(s').firstVacantBlock == free[0]
            && IsFileAt(s', free[0])
            && forall l :: !FreeList(s', l)
  {
    CreateWellFormed(s, free);
    var s1 := AllocateState(s, free, 1);
    var h := CreatedHandle(s, free);
    AppendEntrySlots(s1, h, fileName, Header(s));
    var s' := CreateFileAsWrittenState(s, free, fileName, false);
    forall l
      ensures !FreeList(s', l)
    {
      assert !IsDataAt(s', h);
      if l != [] {
        assert First(l) == l[0];
      }
    }
  }

  /**
   * The smallest instance: a header whose free list holds block 1. After
   * `createFile` as written, block 1 is the new entry and is still the
   * free-list head; the corrected version leaves the free list empty.
   */
  lemma CreateFileAsWrittenScenario()
    ensures var s := [Some(HeaderIndexBlock(0, 0, 1, 0)), Some(DataBlock(0, []))];
            var foo: Name := [0x66, 0x6F, 0x6F];
            && CanCreate(s, [1])
            && CreateFileAsWrittenState(s, [1], foo, false) ==
               [Some(HeaderIndexBlock(1, 1, 1, 0)), Some(FileIndexBlock(0, 0, 0, 0, 0, foo))]
            && CreateFileState(s, [1], foo) ==
               [Some(HeaderIndexBlock(1, 1, 0, 0)), Some(FileIndexBlock(0, 0, 0, 0, 0, foo))]
  {
    var s := [Some(HeaderIndexBlock(0, 0, 1, 0)), Some(DataBlock(0, []))];
    assert FreeList(s, [1]);
    assert AllocatedRefs(s, [1], 1) == [1];
  }

  /** Appending entry `h` extends the index list by `h` and the reported index by its (name, 0, h). */
  lemma AppendEntryLinks(s: Slots, files: seq<Ref>, h: Ref, fileName: Name)
    requires IndexList(s, files) && 0 < h < |s| && h !in files
    ensures var s' := AppendEntry(s, h, fileName, Header(s));
            && IndexList(s', files + [h])
            && Infos(s', files + [h]) == Infos(s, files) + [FileInfo(fileName, 0, h)]
  {
    var s' := AppendEntry(s, h, fileName, Header(s));
    var l := files + [h];
    forall i | 0 <= i < |l|
      ensures IsFileAt(s', l[i])
      ensures At(s', l[i]).nextIndexBlock == NextOf(l, i) && At(s', l[i]).prevIndexBlock == PrevOf(l, i)
      ensures InfoOf(s', l[i]) == if i < |files| then InfoOf(s, files[i]) else FileInfo(fileName, 0, h)
    {
      AppendEntryAt(s, files, h, fileName, i);
    }
    forall i, j | 0 <= i < j < |l|
      ensures l[i] != l[j]
    {
      if j == |files| {
        assert l[i] in files;
      }
    }
    AppendEntrySlots(s, h, fileName, Header(s));
    var expected := Infos(s, files) + [FileInfo(fileName, 0, h)];
    assert forall i | 0 <= i < |l| :: Infos(s', l)[i] == expected[i];
  }

  lemma AppendEntryAt(s: Slots, files: seq<Ref>, h: Ref, fileName: Name, i: int)
    requires IndexList(s, files) && 0 < h < |s| && h !in files
    requires 0 <= i <= |files|
    ensures var s' := AppendEntry(s, h, fileName, Header(s));
            var l := files + [h];
            && IsFileAt(s', l[i])
            && At(s', l[i]).nextIndexBlock == NextOf(l, i) && At(s', l[i]).prevIndexBlock == PrevOf(l, i)
            && InfoOf(s', l[i]) == if i < |files| then InfoOf(s, files[i]) else FileInfo(fileName, 0, h)
  {
    var n := |files|;
    var p := Header(s).prevIndexBlock;
    if n > 0 {
      assert p == files[n - 1];
    }
    AppendEntrySlots(s, h, fileName, Header(s));
    var l := files + [h];
    if i < n - 1 {
      assert l[i] == files[i] && files[i] != p;
    } else if i == n - 1 {
      assert l[i] == p;
    } else {
      assert l[i] == h;
    }
  }

  /**
   * `createFile(name)` (with the header re-read after `allocate`) appends a
   * new entry at the tail of the index: the reported index gains exactly
   * (name, 0, h) at its end, the handle is a block that was vacant or is
   * fresh, and the store keeps its layout, with the free list popped and
   * the new file owning an empty chain; every other file keeps its bytes.
   */
  lemma CreateFileKeepsLayout(s: Slots, files: seq<Ref>, free: seq<Ref>, chains: map<Ref, seq<Ref>>, fileName: Name)
    requires Layout(s, files, free, chains) && |s| < REF_LIMIT
    ensures CanCreate(s, free)
    ensures var h := CreatedHandle(s, free);
            var s' := CreateFileState(s, free, fileName);
            && 0 < h && h !in files
            && (free != [] ==> h == free[0])
            && (free == [] ==> h == |s|)
            && Layout(s', files + [h], free[Taken(free, 1)..], chains[h := []])
            && Infos(s', files + [h]) == Infos(s, files) + [FileInfo(fileName, 0, h)]
            && OthersKeepData(s, s', files, chains, h)
  {
    CreatedHandleFacts(s, files, free, chains);
    CreateFileIndex(s, files, free, chains, fileName);
    CreateFileFreeList(s, free, fileName);
    CreateFileChains(s, files, free, chains, fileName);
    CreateFileAccounting(s, files, free, chains, fileName);
    CreateFileFrame(s, files, free, chains, fileName);
  }

  /** `createFile` touches only the header, the index's old tail, a vacant or fresh block and nothing any file owns. */
  lemma CreateFileFrame(s: Slots, files: seq<Ref>, free: seq<Ref>, chains: map<Ref, seq<Ref>>, fileName: Name)
    requires Layout(s, files, free, chains) && CanCreate(s, free)
    ensures OthersKeepData(s, CreateFileState(s, free, fileName), files, chains, CreatedHandle(s, free))
  {
    CreateWellFormed(s, free);
    var s1 := AllocateState(s, free, 1);
    var h := CreatedHandle(s, free);
    AppendEntrySlots(s1, h, fileName, Header(s1));
    if files != [] {
      assert Header(s).prevIndexBlock == files[|files| - 1];
    }
    OthersKeepDataIntro(s, CreateFileState(s, free, fileName), files, free, chains, h);
  }

  lemma CreateFileIndex(s: Slots, files: seq<Ref>, free: seq<Ref>, chains: map<Ref, seq<Ref>>, fileName: Name)
    requires Layout(s, files, free, chains) && |s| < REF_LIMIT
    ensures CanCreate(s, free)
    ensures var h := CreatedHandle(s, free);
            var s' := CreateFileState(s, free, fileName);
            && IndexList(s', files + [h])
            && Infos(s', files + [h]) == Infos(s, files) + [FileInfo(fileName, 0, h)]
  {
    CreatedHandleFacts(s, files, free, chains);
    var h := CreatedHandle(s, free);
    var s1 := AllocateState(s, free, 1);
    AllocatePopsFreeList(s, free, 1);
    IndexListFrame(s, s1, files);
    AppendEntryLinks(s1, files, h, fileName);
  }

  lemma CreateFileSize(s: Slots, files: seq<Ref>, free: seq<Ref>, chains: map<Ref, seq<Ref>>, fileName: Name)
    requires Layout(s, files, free, chains) && |s| < REF_LIMIT
    ensures CanCreate(s, free)
    ensures |CreateFileState(s, free, fileName)| == |s| + (if free == [] then 1 else 0)
  {
    CreatedHandleFacts(s, files, free, chains);
    var h := CreatedHandle(s, free);
    var s1 := AllocateState(s, free, 1);
    AllocatePopsFreeList(s, free, 1);
    CreateWellFormed(s, free);
    AppendEntrySlots(s1, h, fileName, Header(s1));
  }

  lemma CreateFileAccounting(s: Slots, files: seq<Ref>, free: seq<Ref>, chains: map<Ref, seq<Ref>>, fileName: Name)
    requires Layout(s, files, free, chains) && |s| < REF_LIMIT
    ensures CanCreate(s, free)
    ensures var h := CreatedHandle(s, free);
            var s' := CreateFileState(s, free, fileName);
            var files', free', chains' := files + [h], free[Taken(free, 1)..], chains[h := []];
            && (forall i | 0 <= i < |files'| :: files'[i] in chains')
            && NoDup(Census(files', free', chains'))
            && forall r | 0 < r < |s'| :: r in Census(files', free', chains')
  {
    CreatedHandleFacts(s, files, free, chains);
    CreateFileSize(s, files, free, chains, fileName);
    var h := CreatedHandle(s, free);
    CensusBelow(s, files, free, chains);
    CreateFileCensus(files, free, chains, h);
    var files', free', chains' := files + [h], free[Taken(free, 1)..], chains[h := []];
    CoverGrow(Census(files, free, chains), Census(files', free', chains'), |s|, h, free == []);
  }

  /** Every block of a store grown by the block `h` (or not grown) is counted once `h` joins the census. */
  lemma CoverGrow(m: multiset<Ref>, m': multiset<Ref>, n: nat, h: Ref, grow: bool)
    requires forall r | 0 < r < n :: r in m
    requires m' == m + (if grow then multiset{h} else multiset{})
    requires grow ==> h == n
    ensures forall r | 0 < r < n + (if grow then 1 else 0) :: r in m'
  {
  }

  lemma CreatedHandleFacts(s: Slots, files: seq<Ref>, free: seq<Ref>, chains: map<Ref, seq<Ref>>)
    requires Layout(s, files, free, chains) && |s| < REF_LIMIT
    ensures CanCreate(s, free)
    ensures var h := CreatedHandle(s, free);
            && 0 < h && h !in files
            && (free != [] ==> h == free[0])
            && (free == [] ==> h == |s|)
  {
    if files != [] {
      assert Header(s).prevIndexBlock == files[|files| - 1];
    }
    CreateWellFormed(s, free);
    var h := CreatedHandle(s, free);
    forall i | 0 <= i < |files|
      ensures files[i] != h
    {
      assert IsFileAt(s, files[i]);
      if free != [] {
        LayoutDisjoint(s, files, free, chains, i);
      }
    }
  }

  /** No block at or past the end of the store is counted. */
  lemma CensusBelow(s: Slots, files: seq<Ref>, free: seq<Ref>, chains: map<Ref, seq<Ref>>)
    requires Layout(s, files, free, chains)
    ensures forall r | r in Census(files, free, chains) :: 0 < r < |s|
  {
    forall r | r in Census(files, free, chains)
      ensures 0 < r < |s|
    {
      CensusInStore(s, files, free, chains, r);
    }
  }

  lemma CreateFileFreeList(s: Slots, free: seq<Ref>, fileName: Name)
    requires CanCreate(s, free)
    ensures FreeList(CreateFileState(s, free, fileName), free[Taken(free, 1)..])
  {
    CreateWellFormed(s, free);
    var h := CreatedHandle(s, free);
    var free' := free[Taken(free, 1)..];
    var s1 := AllocateState(s, free, 1);
    AllocatePopsFreeList(s, free, 1);
    AppendEntrySlots(s1, h, fileName, Header(s1));
    var s' := CreateFileState(s, free, fileName);
    var p := Header(s1).prevIndexBlock;
    if free != [] {
      assert free' == free[1..] && h == free[0];
      assert h !in free' by {
        forall i | 0 <= i < |free'|
          ensures free'[i] != h
        {
          assert free'[i] == free[i + 1];
        }
      }
    }
    OtherBlocksKept(s1, s', free', h, p);
    FreeListFrame(s1, s', free');
  }

  /** Data blocks other than the rewritten `h` survive a write that touches only `h`, one file-index block `p` and the header. */
  lemma OtherBlocksKept(s: Slots, s': Slots, c: seq<Ref>, h: Ref, p: Ref)
    requires forall i | 0 <= i < |c| :: IsDataAt(s, c[i]) && c[i] != NIL
    requires h !in c && (p != NIL ==> IsFileAt(s, p)) && |s'| == |s|
    requires forall r | 0 < r < |s| && r != h && r != p :: s'[r] == s[r]
    ensures forall i | 0 <= i < |c| :: Same(s, s', c[i])
  {
    forall i | 0 <= i < |c|
      ensures Same(s, s', c[i])
    {
      assert IsDataAt(s, c[i]) && c[i] != NIL && c[i] != h;
    }
  }

  lemma CreateFileChains(s: Slots, files: seq<Ref>, free: seq<Ref>, chains: map<Ref, seq<Ref>>, fileName: Name)
    requires Layout(s, files, free, chains) && CanCreate(s, free)
    ensures var h := CreatedHandle(s, free);
            var s' := CreateFileState(s, free, fileName);
            forall i | 0 <= i < |files + [h]| ::
              (files + [h])[i] in chains[h := []] && FileChain(s', (files + [h])[i], chains[h := []][(files + [h])[i]])
  {
    CreateWellFormed(s, free);
    var h := CreatedHandle(s, free);
    var s' := CreateFileState(s, free, fileName);
    CreateKeepsEntries(s, files, free, chains, fileName);
    CreateKeepsChainBlocks(s, files, free, chains, fileName);
    ChainsFrame(s, s', files, chains);
    CreateNewEntryChain(s, free, fileName);
    AppendEmptyFileChain(s', files, chains, h);
  }

  /** The new entry owns the empty chain. */
  lemma CreateNewEntryChain(s: Slots, free: seq<Ref>, fileName: Name)
    requires CanCreate(s, free)
    ensures FileChain(CreateFileState(s, free, fileName), CreatedHandle(s, free), [])
  {
    CreateWellFormed(s, free);
    var h := CreatedHandle(s, free);
    var s1 := AllocateState(s, free, 1);
    AppendEntrySlots(s1, h, fileName, Header(s1));
  }

  /** Appending a file that owns the empty chain to files that own theirs. */
  lemma AppendEmptyFileChain(s: Slots, files: seq<Ref>, chains: map<Ref, seq<Ref>>, h: Ref)
    requires forall i | 0 <= i < |files| :: files[i] in chains && FileChain(s, files[i], chains[files[i]]) && files[i] != h
    requires FileChain(s, h, [])
    ensures forall i | 0 <= i < |files + [h]| ::
              (files + [h])[i] in chains[h := []] && FileChain(s, (files + [h])[i], chains[h := []][(files + [h])[i]])
  {
    var l := files + [h];
    forall i | 0 <= i < |l|
      ensures l[i] in chains[h := []] && FileChain(s, l[i], chains[h := []][l[i]])
    {
      if i < |files| {
        assert l[i] == files[i];
      }
    }
  }

  /** The listed entries keep their chain fields, size and name, and none is the new handle. */
  lemma CreateKeepsEntries(s: Slots, files: seq<Ref>, free: seq<Ref>, chains: map<Ref, seq<Ref>>, fileName: Name)
    requires Layout(s, files, free, chains) && CanCreate(s, free)
    ensures forall i | 0 <= i < |files| ::
              SameEntry(s, CreateFileState(s, free, fileName), files[i]) && files[i] != CreatedHandle(s, free)
  {
    forall i | 0 <= i < |files|
      ensures SameEntry(s, CreateFileState(s, free, fileName), files[i]) && files[i] != CreatedHandle(s, free)
    {
      assert IsFileAt(s, files[i]);
      CreateKeepsEntryAt(s, free, fileName, files[i]);
    }
  }

  /** A file-index block other than the header keeps its chain fields, size and name, and is not the new handle. */
  lemma CreateKeepsEntryAt(s: Slots, free: seq<Ref>, fileName: Name, f: Ref)
    requires CanCreate(s, free) && IsFileAt(s, f)
    ensures SameEntry(s, CreateFileState(s, free, fileName), f) && f != CreatedHandle(s, free)
  {
    CreateWellFormed(s, free);
    var h := CreatedHandle(s, free);
    var s1 := AllocateState(s, free, 1);
    AllocatePopsFreeList(s, free, 1);
    AppendEntrySlots(s1, h, fileName, Header(s1));
    assert f != 0 && s1[f] == s[f];
  }


  /** No block of any file's chain is among the slots `createFile` writes. */
  lemma CreateKeepsChainBlocks(s: Slots, files: seq<Ref>, free: seq<Ref>, chains: map<Ref, seq<Ref>>, fileName: Name)
    requires Layout(s, files, free, chains) && CanCreate(s, free)
    ensures forall i, r | 0 <= i < |files| && r in chains[files[i]] :: Same(s, CreateFileState(s, free, fileName), r)
  {
    CreateWellFormed(s, free);
    forall i, r | 0 <= i < |files| && r in chains[files[i]]
      ensures Same(s, CreateFileState(s, free, fileName), r)
    {
      LayoutDisjoint(s, files, free, chains, i);
      var c := chains[files[i]];
      var k :| 0 <= k < |c| && c[k] == r;
      assert IsDataAt(s, c[k]);
      CreateKeepsBlockAt(s, free, fileName, r);
    }
  }

  /** A data block that is not the new handle is left alone. */
  lemma CreateKeepsBlockAt(s: Slots, free: seq<Ref>, fileName: Name, r: Ref)
    requires CanCreate(s, free) && IsDataAt(s, r) && r != CreatedHandle(s, free)
    ensures Same(s, CreateFileState(s, free, fileName), r)
  {
    CreateWellFormed(s, free);
    var h := CreatedHandle(s, free);
    var s1 := AllocateState(s, free, 1);
    AllocatePopsFreeList(s, free, 1);
    AppendEntrySlots(s1, h, fileName, Header(s1));
    assert r != 0 && s1[r] == s[r];
  }


  /** The census gains the new handle exactly when it did not come from the free list. */
  lemma CreateFileCensus(files: seq<Ref>, free: seq<Ref>, chains: map<Ref, seq<Ref>>, h: Ref)
    requires forall i | 0 <= i < |files| :: files[i] in chains
    requires NoDup(Census(files, free, chains)) && h !in files
    requires free != [] ==> h == free[0]
    requires free == [] ==> h !in Census(files, free, chains)
    ensures var files', free', chains' := files + [h], free[Taken(free, 1)..], chains[h := []];
            && (forall i | 0 <= i < |files'| :: files'[i] in chains')
            && Census(files', free', chains') ==
               Census(files, free, chains) + (if free == [] then multiset{h} else multiset{})
            && NoDup(Census(files', free', chains'))
  {
    CreateFileCensusSum(files, free, chains, h);
    if free == [] {
      NoDupAdd(Census(files, free, chains), h);
    }
  }

  lemma CreateFileCensusSum(files: seq<Ref>, free: seq<Ref>, chains: map<Ref, seq<Ref>>, h: Ref)
    requires forall i | 0 <= i < |files| :: files[i] in chains
    requires h !in files
    requires free != [] ==> h == free[0]
    ensures var files', free', chains' := files + [h], free[Taken(free, 1)..], chains[h := []];
            && (forall i | 0 <= i < |files'| :: files'[i] in chains')
            && Census(files', free', chains') ==
               Census(files, free, chains) + (if free == [] then multiset{h} else multiset{})
  {
    var files', free', chains' := files + [h], free[Taken(free, 1)..], chains[h := []];
    AppendEmptyChain(files, chains, h);
    assert multiset(files') == multiset(files) + multiset{h};
    if free != [] {
      PopMultiset(free);
    }
  }

  lemma AppendEmptyChain(files: seq<Ref>, chains: map<Ref, seq<Ref>>, h: Ref)
    requires forall i | 0 <= i < |files| :: files[i] in chains
    requires h !in files
    ensures var files', chains' := files + [h], chains[h := []];
            && (forall i | 0 <= i < |files'| :: files'[i] in chains')
            && ChainCensus(chains', files') == ChainCensus(chains, files)
  {
    var files', chains' := files + [h], chains[h := []];
    ChainCensusAgree(chains, chains', files);
    ChainCensusAppend(chains', files, [h]);
    assert ChainCensus(chains', [h]) == multiset{};
  }

  lemma PopMultiset(free: seq<Ref>)
    requires free != []
    ensures multiset(free) == multiset{free[0]} + multiset(free[1..])
  {
    assert free == [free[0]] + free[1..];
  }

  lemma NoDupAdd(m: multiset<Ref>, h: Ref)
    requires NoDup(m) && h !in m
    ensures NoDup(m + multiset{h})
  {
    forall r | r in m + multiset{h}
      ensures (m + multiset{h})[r] == 1
    {
      if r == h {
        assert m[r] == 0;
      } else {
        assert r in m;
      }
    }
  }

  // ---------------------------------------------------------------------------
  // deleteFile

  /** The neighbours of entry `h` are index blocks: the header (reference 0) or file entries. */
  ghost predicate CanUnlink(s: Slots, h: Ref) {
    && HasHeader(s) && IsFileAt(s, h) && h != NIL
    && var e := At(s, h);
       e.prevIndexBlock != e.nextIndexBlock ==>
         && (e.prevIndexBlock != NIL ==> IsFileAt(s, e.prevIndexBlock))
         && (e.nextIndexBlock != NIL ==> IsFileAt(s, e.nextIndexBlock))
  }

  /**
   * The store after removing entry `h` from the index: the previous index
   * block (the header when the reference is 0) gets `h`'s next, the next
   * one gets `h`'s previous. Equal neighbours mean `h` was the only entry,
   * and the header's links are cleared.
   */
  ghost function UnlinkState(s: Slots, h: Ref): Slots
    requires CanUnlink(s, h)
  {
    var e := At(s, h);
    var prevRef, nextRef := e.prevIndexBlock, e.nextIndexBlock;
    if prevRef == nextRef then
      s[0 := Some(SetPrevIndex(SetNextIndex(Header(s), NIL), NIL))]
    else
      var s1 := s[prevRef := Some(SetNextIndex(At(s, prevRef), nextRef))];
      s1[nextRef := Some(SetPrevIndex(At(s1, nextRef), prevRef))]
  }

  lemma UnlinkSlots(s: Slots, h: Ref)
    requires CanUnlink(s, h)
    ensures var s' := UnlinkState(s, h);
            var e := At(s, h);
            var prevRef, nextRef := e.prevIndexBlock, e.nextIndexBlock;
            && |s'| == |s| && HasHeader(s')
            && Header(s').nextIndexBlock ==
                 (if prevRef == nextRef then NIL else if prevRef == NIL then nextRef else Header(s).nextIndexBlock)
            && Header(s').prevIndexBlock ==
                 (if prevRef == nextRef then NIL else if nextRef == NIL then prevRef else Header(s).prevIndexBlock)
            && Header(s').firstVacantBlock == Header(s).firstVacantBlock
            && (prevRef != nextRef && prevRef != NIL ==> s'[prevRef] == Some(SetNextIndex(At(s, prevRef), nextRef)))
            && (prevRef != nextRef && nextRef != NIL ==> s'[nextRef] == Some(SetPrevIndex(At(s, nextRef), prevRef)))
            && forall r | 0 < r < |s| && r != prevRef && r != nextRef :: s'[r] == s[r]
  {
  }

  /** The entry kept at position `j` of the list once position `i` is removed. */
  function Kept(i: int, j: int): int { if j < i then j else j + 1 }

  lemma RemoveAt(l: seq<Ref>, i: int)
    requires 0 <= i < |l|
    ensures |l[..i] + l[i + 1..]| == |l| - 1
    ensures forall j | 0 <= j < |l| - 1 :: (l[..i] + l[i + 1..])[j] == l[Kept(i, j)]
  {
  }

  lemma UnlinkAt(s: Slots, files: seq<Ref>, i: int, j: int)
    requires IndexList(s, files) && 0 <= i < |files|
    requires 0 <= j < |files| - 1
    ensures CanUnlink(s, files[i])
    ensures var s' := UnlinkState(s, files[i]);
            var files' := files[..i] + files[i + 1..];
            && files'[j] == files[Kept(i, j)]
            && IsFileAt(s', files'[j])
            && At(s', files'[j]).nextIndexBlock == NextOf(files', j)
            && At(s', files'[j]).prevIndexBlock == PrevOf(files', j)
            && SameEntry(s, s', files'[j])
  {
    UnlinkNeighbours(s, files, i);
    RemoveAt(files, i);
    RemoveLinks(files, i, j);
    UnlinkSlotAt(s, files, i, Kept(i, j));
  }

  /** The links around position `j` once position `i` is removed from a list. */
  lemma RemoveLinks(l: seq<Ref>, i: int, j: int)
    requires 0 <= i < |l| && 0 <= j < |l| - 1
    ensures var l' := l[..i] + l[i + 1..];
            var J := Kept(i, j);
            && NextOf(l', j) == (if J == i - 1 then NextOf(l, i) else NextOf(l, J))
            && PrevOf(l', j) == (if J == i + 1 then PrevOf(l, i) else PrevOf(l, J))
  {
    RemoveAt(l, i);
  }

  /** What the unlink writes into the slot of the entry at position `J`, another entry. */
  lemma UnlinkSlotAt(s: Slots, files: seq<Ref>, i: int, J: int)
    requires IndexList(s, files) && 0 <= i < |files| && 0 <= J < |files| && J != i
    ensures CanUnlink(s, files[i])
    ensures var s' := UnlinkState(s, files[i]);
            var f := files[J];
            && IsFileAt(s', f)
            && At(s', f).nextIndexBlock == (if J == i - 1 then NextOf(files, i) else NextOf(files, J))
            && At(s', f).prevIndexBlock == (if J == i + 1 then PrevOf(files, i) else PrevOf(files, J))
            && SameEntry(s, s', f)
  {
    UnlinkNeighbours(s, files, i);
    UnlinkSlots(s, files[i]);
    var f := files[J];
    assert IsFileAt(s, f) && f != NIL;
    var p, nx := PrevOf(files, i), NextOf(files, i);
    if J == i - 1 {
      assert f == p && f != nx;
    } else if J == i + 1 {
      assert f == nx && f != p;
    } else {
      assert f != p && f != nx;
    }
  }

  /** In a well-formed index the neighbours of the entry at `i` are its list neighbours. */
  lemma UnlinkNeighbours(s: Slots, files: seq<Ref>, i: int)
    requires IndexList(s, files) && 0 <= i < |files|
    ensures CanUnlink(s, files[i])
    ensures At(s, files[i]).prevIndexBlock == PrevOf(files, i)
    ensures At(s, files[i]).nextIndexBlock == NextOf(files, i)
    ensures PrevOf(files, i) == NextOf(files, i) <==> |files| == 1
  {
    if i > 0 {
      assert IsFileAt(s, files[i - 1]);
    }
    if i + 1 < |files| {
      assert IsFileAt(s, files[i + 1]);
    }
    if i > 0 && i + 1 < |files| {
      assert files[i - 1] != files[i + 1];
    }
  }

  /**
   * Unlinking the entry at position `i` leaves exactly the other entries,
   * in their order, in the index and in what `buildIndex` reports; their
   * names, sizes and chains are untouched.
   */
  lemma UnlinkRemoves(s: Slots, files: seq<Ref>, i: int)
    requires IndexList(s, files) && 0 <= i < |files|
    ensures CanUnlink(s, files[i])
    ensures var s' := UnlinkState(s, files[i]);
            var files' := files[..i] + files[i + 1..];
            && IndexList(s', files')
            && Infos(s', files') == Infos(s, files)[..i] + Infos(s, files)[i + 1..]
            && (forall j | 0 <= j < |files'| :: SameEntry(s, s', files'[j]))
  {
    UnlinkEntries(s, files, i);
    UnlinkHeader(s, files, i);
    UnlinkInfos(s, files, i);
  }

  lemma UnlinkEntries(s: Slots, files: seq<Ref>, i: int)
    requires IndexList(s, files) && 0 <= i < |files|
    ensures CanUnlink(s, files[i])
    ensures var s' := UnlinkState(s, files[i]);
            var files' := files[..i] + files[i + 1..];
            forall j | 0 <= j < |files'| ::
              && IsFileAt(s', files'[j])
              && At(s', files'[j]).nextIndexBlock == NextOf(files', j)
              && At(s', files'[j]).prevIndexBlock == PrevOf(files', j)
              && SameEntry(s, s', files'[j])
  {
    UnlinkNeighbours(s, files, i);
    var s' := UnlinkState(s, files[i]);
    var files' := files[..i] + files[i + 1..];
    assert |files'| == |files| - 1;
    forall j | 0 <= j < |files'|
      ensures IsFileAt(s', files'[j])
      ensures At(s', files'[j]).nextIndexBlock == NextOf(files', j)
      ensures At(s', files'[j]).prevIndexBlock == PrevOf(files', j)
      ensures SameEntry(s, s', files'[j])
    {
      UnlinkAt(s, files, i, j);
    }
  }

  lemma UnlinkHeader(s: Slots, files: seq<Ref>, i: int)
    requires IndexList(s, files) && 0 <= i < |files|
    ensures CanUnlink(s, files[i])
    ensures var s' := UnlinkState(s, files[i]);
            var files' := files[..i] + files[i + 1..];
            && HasHeader(s')
            && Header(s').nextIndexBlock == First(files')
            && Header(s').prevIndexBlock == Last(files')
            && NIL !in files'
            && Distinct(files')
  {
    UnlinkNeighbours(s, files, i);
    UnlinkSlots(s, files[i]);
    RemoveKeepsList(files, i);
  }

  /** Removing position `i` keeps a list distinct and free of 0; its ends move only when `i` was one. */
  lemma RemoveKeepsList(l: seq<Ref>, i: int)
    requires 0 <= i < |l| && NIL !in l && Distinct(l)
    ensures var l' := l[..i] + l[i + 1..];
            && NIL !in l' && Distinct(l')
            && First(l') == (if |l| == 1 then NIL else if i == 0 then NextOf(l, i) else First(l))
            && Last(l') == (if |l| == 1 then NIL else if i == |l| - 1 then PrevOf(l, i) else Last(l))
  {
    RemoveAt(l, i);
    var l' := l[..i] + l[i + 1..];
    forall a, b | 0 <= a < b < |l'|
      ensures l'[a] != l'[b]
    {
      assert l'[a] == l[Kept(i, a)] && l'[b] == l[Kept(i, b)];
    }
    forall r | r in l'
      ensures r != NIL
    {
      var k :| 0 <= k < |l'| && l'[k] == r;
      assert l'[k] == l[Kept(i, k)];
    }
    if l' != [] {
      assert First(l') == l[Kept(i, 0)];
      assert Last(l') == l[Kept(i, |l'| - 1)];
    }
  }

  lemma UnlinkInfos(s: Slots, files: seq<Ref>, i: int)
    requires IndexList(s, files) && 0 <= i < |files|
    ensures CanUnlink(s, files[i])
    ensures var s' := UnlinkState(s, files[i]);
            var files' := files[..i] + files[i + 1..];
            && (forall j | 0 <= j < |files'| :: IsFileAt(s', files'[j]))
            && Infos(s', files') == Infos(s, files)[..i] + Infos(s, files)[i + 1..]
  {
    UnlinkEntries(s, files, i);
    RemoveAt(files, i);
    var s' := UnlinkState(s, files[i]);
    var files' := files[..i] + files[i + 1..];
    var expected := Infos(s, files)[..i] + Infos(s, files)[i + 1..];
    forall j | 0 <= j < |files'|
      ensures Infos(s', files')[j] == expected[j]
    {
      assert files'[j] == files[Kept(i, j)];
      assert expected[j] == Infos(s, files)[Kept(i, j)];
    }
  }

  /** The block `deleteFile` writes over the entry: a fresh data block heading the file's old chain. */
  function ReleasedEntry(e: Block): (b: Block)
    requires e.FileIndexBlock?
    ensures b.DataBlock? && b.nextDataBlock == e.firstDataBlock && b.fileData == []
  {
    DataBlock(e.firstDataBlock, NewDataBlock().fileData)
  }

  ghost predicate CanDelete(s: Slots, h: Ref) {
    && CanUnlink(s, h)
    && var e := At(s, h);
       e.firstDataBlock != NIL && e.lastDataBlock != NIL ==> IsDataAt(s, e.lastDataBlock)
  }

  /** The store once entry `h` is unlinked and rewritten as a data block. */
  ghost function ReleaseState(s: Slots, h: Ref): Slots
    requires CanUnlink(s, h)
  {
    UnlinkSlots(s, h);
    UnlinkState(s, h)[h := Some(ReleasedEntry(At(s, h)))]
  }

  lemma ReleaseSlots(s: Slots, h: Ref)
    requires CanDelete(s, h)
    ensures var s2 := ReleaseState(s, h);
            var e := At(s, h);
            && |s2| == |s| && HasHeader(s2) && IsDataAt(s2, h)
            && Header(s2).firstVacantBlock == Header(s).firstVacantBlock
            && s2[h] == Some(ReleasedEntry(e))
            && (e.firstDataBlock != NIL && e.lastDataBlock != NIL ==> s2[e.lastDataBlock] == s[e.lastDataBlock])
            && forall r | 0 < r < |s| && r != h && r != e.prevIndexBlock && r != e.nextIndexBlock :: s2[r] == s[r]
  {
    UnlinkSlots(s, h);
  }

  /**
   * The store after `deleteFile(h)` and whether it completed: the entry is
   * unlinked and rewritten as a data block heading its chain, and then that
   * block and the chain are pushed onto the free list. A chain with exactly
   * one of its ends 0 is rejected, after the entry was already unlinked and
   * rewritten.
   */
  ghost function DeleteFileState(s: Slots, h: Ref): (Slots, Outcome)
    requires CanDelete(s, h)
  {
    ReleaseSlots(s, h);
    var e := At(s, h);
    var s2 := ReleaseState(s, h);
    if e.firstDataBlock != NIL && e.lastDataBlock != NIL then
      (FreeState(s2, h, e.lastDataBlock), Pass)
    else if e.firstDataBlock == NIL && e.lastDataBlock == NIL then
      (FreeState(s2, h, h), Pass)
    else
      (s2, Fail(InvariantViolation))
  }

  /**
   * An entry whose chain has exactly one end 0 is rejected; by then the
   * entry has already left the index and been rewritten as a data block,
   * and it is in no list at all.
   */
  lemma DeleteFileHalfEmptyChain(s: Slots, files: seq<Ref>, i: int)
    requires IndexList(s, files) && 0 <= i < |files|
    requires var e := At(s, files[i]); (e.firstDataBlock == NIL) != (e.lastDataBlock == NIL)
    ensures CanDelete(s, files[i])
    ensures var r := DeleteFileState(s, files[i]);
            var files' := files[..i] + files[i + 1..];
            && r.1 == Fail(InvariantViolation)
            && IndexList(r.0, files')
            && r.0[files[i]] == Some(DataBlock(At(s, files[i]).firstDataBlock, []))
            && files[i] !in files'
  {
    var h := files[i];
    UnlinkRemoves(s, files, i);
    ReleaseSlots(s, h);
    RemovedAbsent(files, i);
    HalfEmptyFrame(s, files, i);
  }

  /** The rewrite of a rejected entry touches no entry that stays listed. */
  lemma HalfEmptyFrame(s: Slots, files: seq<Ref>, i: int)
    requires IndexList(s, files) && 0 <= i < |files|
    ensures CanUnlink(s, files[i])
    ensures var files' := files[..i] + files[i + 1..];
            IndexList(UnlinkState(s, files[i]), files') ==> IndexList(ReleaseState(s, files[i]), files')
  {
    var h := files[i];
    UnlinkNeighbours(s, files, i);
    var s1 := UnlinkState(s, h);
    var s2 := ReleaseState(s, h);
    var files' := files[..i] + files[i + 1..];
    RemovedAbsent(files, i);
    if IndexList(s1, files') {
      forall j | 0 <= j < |files'|
        ensures Same(s1, s2, files'[j])
      {
        assert files'[j] in files';
      }
      IndexListFrame(s1, s2, files');
    }
  }

  /** The removed reference of a list without repeats is gone from what remains. */
  lemma RemovedAbsent(l: seq<Ref>, i: int)
    requires 0 <= i < |l| && Distinct(l)
    ensures l[i] !in l[..i] + l[i + 1..]
  {
    RemoveAt(l, i);
    var l' := l[..i] + l[i + 1..];
    forall j | 0 <= j < |l'|
      ensures l'[j] != l[i]
    {
      assert l'[j] == l[Kept(i, j)];
    }
  }

  /** Under the layout invariant an entry's chain ends agree: both 0 for an empty chain, or its first and last blocks. */
  lemma DeleteChainEnds(s: Slots, files: seq<Ref>, free: seq<Ref>, chains: map<Ref, seq<Ref>>, i: int)
    requires Layout(s, files, free, chains) && 0 <= i < |files|
    ensures CanDelete(s, files[i])
    ensures var e, c := At(s, files[i]), chains[files[i]];
            && (e.firstDataBlock == NIL <==> c == [])
            && (e.lastDataBlock == NIL <==> c == [])
            && (c != [] ==> e.firstDataBlock == c[0] && e.lastDataBlock == c[|c| - 1] && IsDataAt(s, c[|c| - 1]))
            && DeleteFileState(s, files[i]).1 == Pass
  {
    var h := files[i];
    var c := chains[h];
    assert FileChain(s, h, c);
    UnlinkNeighbours(s, files, i);
    if c != [] {
      assert IsDataAt(s, c[|c| - 1]);
      assert c[|c| - 1] in c;
    }
  }

  /** The block `free` is given as the last of the released chain: the chain's last block, or the entry itself. */
  ghost function ReleasedLast(e: Block, h: Ref): Ref
    requires e.FileIndexBlock?
  {
    if e.firstDataBlock != NIL && e.lastDataBlock != NIL then e.lastDataBlock else h
  }

  lemma DeleteSlots(s: Slots, h: Ref)
    requires CanDelete(s, h) && DeleteFileState(s, h).1 == Pass
    ensures var s' := DeleteFileState(s, h).0;
            var s2 := ReleaseState(s, h);
            var e := At(s, h);
            var l := ReleasedLast(e, h);
            && IsDataAt(s2, l)
            && s' == FreeState(s2, h, l)
            && |s'| == |s| && HasHeader(s')
            && Header(s').nextIndexBlock == Header(s2).nextIndexBlock
            && Header(s').prevIndexBlock == Header(s2).prevIndexBlock
            && (forall r | 0 < r < |s| && r != h && r != l :: s'[r] == s2[r])
            && forall r | 0 < r < |s| && r != h && r != l && r != e.prevIndexBlock && r != e.nextIndexBlock :: s'[r] == s[r]
  {
    ReleaseSlots(s, h);
  }

  /**
   * `deleteFile(h)` on a well-formed store removes exactly the entry `h`
   * from the index and from what `buildIndex` reports, pushes the entry's
   * block and then its data chain onto the free list, and keeps the
   * layout: every other file keeps its entry and its data, and no block is
   * lost or counted twice.
   */
  lemma DeleteFileKeepsLayout(s: Slots, files: seq<Ref>, free: seq<Ref>, chains: map<Ref, seq<Ref>>, i: int)
    requires Layout(s, files, free, chains) && 0 <= i < |files|
    ensures CanDelete(s, files[i])
    ensures var h := files[i];
            var (s', outcome) := DeleteFileState(s, h);
            var files' := files[..i] + files[i + 1..];
            && outcome == Pass
            && Layout(s', files', [h] + chains[h] + free, chains - {h})
            && Infos(s', files') == Infos(s, files)[..i] + Infos(s, files)[i + 1..]
            && OthersKeepData(s, s', files, chains, h)
  {
    DeleteChainEnds(s, files, free, chains, i);
    DeleteFileIndex(s, files, free, chains, i);
    DeleteFileFreeList(s, files, free, chains, i);
    DeleteFileChains(s, files, free, chains, i);
    DeleteFileAccounting(s, files, free, chains, i);
    DeleteFileFrame(s, files, free, chains, i);
  }

  /** `deleteFile(h)` touches only the header, index entries and the blocks of `h`'s own chain, so other files keep their bytes. */
  lemma DeleteFileFrame(s: Slots, files: seq<Ref>, free: seq<Ref>, chains: map<Ref, seq<Ref>>, i: int)
    requires Layout(s, files, free, chains) && 0 <= i < |files|
    requires CanDelete(s, files[i]) && DeleteFileState(s, files[i]).1 == Pass
    ensures OthersKeepData(s, DeleteFileState(s, files[i]).0, files, chains, files[i])
  {
    var h := files[i];
    DeleteSlots(s, h);
    ReleasedLastOwned(s, files, free, chains, i);
    assert At(s, h).prevIndexBlock == PrevOf(files, i) && At(s, h).nextIndexBlock == NextOf(files, i);
    OthersKeepDataIntro(s, DeleteFileState(s, h).0, files, free, chains, h);
  }

  /** The released last block is the entry itself or a block of its own chain, so no other file's. */
  lemma ReleasedLastOwned(s: Slots, files: seq<Ref>, free: seq<Ref>, chains: map<Ref, seq<Ref>>, i: int)
    requires Layout(s, files, free, chains) && 0 <= i < |files|
    ensures CanDelete(s, files[i])
    ensures var l := ReleasedLast(At(s, files[i]), files[i]);
            && 0 < l < |s|
            && (l == files[i] || (l in chains[files[i]] && l !in files && IsDataAt(s, l)))
  {
    DeleteChainEnds(s, files, free, chains, i);
    var c := chains[files[i]];
    assert IsFileAt(s, files[i]);
    if c != [] {
      assert c[|c| - 1] in c;
      LayoutDisjoint(s, files, free, chains, i);
    }
  }

  lemma DeleteFileIndex(s: Slots, files: seq<Ref>, free: seq<Ref>, chains: map<Ref, seq<Ref>>, i: int)
    requires Layout(s, files, free, chains) && 0 <= i < |files|
    ensures CanDelete(s, files[i])
    ensures var s' := DeleteFileState(s, files[i]).0;
            var files' := files[..i] + files[i + 1..];
            && IndexList(s', files')
            && Infos(s', files') == Infos(s, files)[..i] + Infos(s, files)[i + 1..]
  {
    var h := files[i];
    DeleteChainEnds(s, files, free, chains, i);
    UnlinkRemoves(s, files, i);
    DeleteHeader(s, h);
    var s1 := UnlinkState(s, h);
    var s' := DeleteFileState(s, h).0;
    var files' := files[..i] + files[i + 1..];
    RemoveAt(files, i);
    forall j | 0 <= j < |files'|
      ensures Same(s1, s', files'[j])
    {
      DeleteKeepsEntryAt(s, files, free, chains, i, j);
    }
    IndexListFrame(s1, s', files');
  }

  /** The header's index links are the unlinked store's. */
  lemma DeleteHeader(s: Slots, h: Ref)
    requires CanDelete(s, h) && DeleteFileState(s, h).1 == Pass
    ensures var s' := DeleteFileState(s, h).0;
            var s1 := UnlinkState(s, h);
            && HasHeader(s') && HasHeader(s1)
            && Header(s').nextIndexBlock == Header(s1).nextIndexBlock
            && Header(s').prevIndexBlock == Header(s1).prevIndexBlock
  {
    UnlinkSlots(s, h);
    DeleteSlots(s, h);
  }

  /** Another file's entry block is not touched once the unlink is done. */
  lemma DeleteKeepsEntryAt(s: Slots, files: seq<Ref>, free: seq<Ref>, chains: map<Ref, seq<Ref>>, i: int, j: int)
    requires Layout(s, files, free, chains) && 0 <= i < |files| && 0 <= j < |files| - 1
    ensures CanDelete(s, files[i])
    ensures var files' := files[..i] + files[i + 1..];
            Same(UnlinkState(s, files[i]), DeleteFileState(s, files[i]).0, files'[j])
  {
    var h := files[i];
    DeleteChainEnds(s, files, free, chains, i);
    ReleasedLastOwned(s, files, free, chains, i);
    UnlinkSlots(s, h);
    DeleteSlots(s, h);
    RemoveAt(files, i);
    var f := files[Kept(i, j)];
    assert IsFileAt(s, f) && f != h && f != NIL;
  }

  lemma DeleteFileFreeList(s: Slots, files: seq<Ref>, free: seq<Ref>, chains: map<Ref, seq<Ref>>, i: int)
    requires Layout(s, files, free, chains) && 0 <= i < |files|
    ensures CanDelete(s, files[i])
    ensures FreeList(DeleteFileState(s, files[i]).0, [files[i]] + chains[files[i]] + free)
  {
    var h := files[i];
    var released := [h] + chains[h];
    DeleteChainEnds(s, files, free, chains, i);
    DeleteSlots(s, h);
    DeleteVacantKept(s, files, free, chains, i);
    DeleteReleasedChain(s, files, free, chains, i);
    LayoutDisjoint(s, files, free, chains, i);
    var s2 := ReleaseState(s, h);
    FreePushesChain(s2, free, released);
    assert Last(released) == ReleasedLast(At(s, h), h);
  }

  /** The vacant blocks are untouched by the unlink and the rewrite of the entry. */
  lemma DeleteVacantKept(s: Slots, files: seq<Ref>, free: seq<Ref>, chains: map<Ref, seq<Ref>>, i: int)
    requires Layout(s, files, free, chains) && 0 <= i < |files|
    ensures CanDelete(s, files[i])
    ensures FreeList(ReleaseState(s, files[i]), free)
  {
    var h := files[i];
    DeleteChainEnds(s, files, free, chains, i);
    EntryNotElsewhere(files, free, chains, i);
    ReleaseSlots(s, h);
    UnlinkNeighbours(s, files, i);
    var e := At(s, h);
    var s2 := ReleaseState(s, h);
    forall k | 0 <= k < |free|
      ensures Same(s, s2, free[k])
    {
      assert IsDataAt(s, free[k]) && free[k] != NIL;
      assert free[k] in free;
    }
    FreeListFrame(s, s2, free);
  }

  /** The rewritten entry heads its old chain. */
  lemma DeleteReleasedChain(s: Slots, files: seq<Ref>, free: seq<Ref>, chains: map<Ref, seq<Ref>>, i: int)
    requires Layout(s, files, free, chains) && 0 <= i < |files|
    ensures CanDelete(s, files[i])
    ensures DataChain(ReleaseState(s, files[i]), files[i], [files[i]] + chains[files[i]])
  {
    var h := files[i];
    DeleteChainKept(s, files, free, chains, i);
    LayoutDisjoint(s, files, free, chains, i);
    ReleaseSlots(s, h);
    DataChainCons(ReleaseState(s, h), h, chains[h]);
  }

  /** The entry's chain is untouched by the unlink and the rewrite of the entry. */
  lemma DeleteChainKept(s: Slots, files: seq<Ref>, free: seq<Ref>, chains: map<Ref, seq<Ref>>, i: int)
    requires Layout(s, files, free, chains) && 0 <= i < |files|
    ensures CanDelete(s, files[i])
    ensures DataChain(ReleaseState(s, files[i]), At(s, files[i]).firstDataBlock, chains[files[i]])
  {
    var h := files[i];
    var c := chains[h];
    DeleteChainEnds(s, files, free, chains, i);
    LayoutDisjoint(s, files, free, chains, i);
    ReleaseSlots(s, h);
    UnlinkNeighbours(s, files, i);
    var e := At(s, h);
    var s2 := ReleaseState(s, h);
    forall k | 0 <= k < |c|
      ensures Same(s, s2, c[k])
    {
      assert c[k] in c;
      assert IsDataAt(s, c[k]) && c[k] != NIL;
    }
    DataChainFrame(s, s2, e.firstDataBlock, c);
  }

  /** Another file's entry and chain survive the deletion of entry `i`. */
  lemma DeleteKeepsChainAt(s: Slots, files: seq<Ref>, free: seq<Ref>, chains: map<Ref, seq<Ref>>, i: int, j: int)
    requires Layout(s, files, free, chains) && 0 <= i < |files| && 0 <= j < |files| - 1
    ensures CanDelete(s, files[i])
    ensures FileChain(DeleteFileState(s, files[i]).0, files[Kept(i, j)], chains[files[Kept(i, j)]])
  {
    var h := files[i];
    var f := files[Kept(i, j)];
    var c := chains[f];
    DeleteKeepsEntryFields(s, files, free, chains, i, j);
    DeleteChainPrereqs(s, files, free, chains, i, Kept(i, j));
    DeleteKeepsChainBlocks(s, files, free, chains, i, Kept(i, j));
    FileChainFrame(s, DeleteFileState(s, h).0, f, c);
  }

  /** What the frame argument for file `files[J]` needs from the layout. */
  lemma DeleteChainPrereqs(s: Slots, files: seq<Ref>, free: seq<Ref>, chains: map<Ref, seq<Ref>>, i: int, J: int)
    requires Layout(s, files, free, chains) && 0 <= i < |files| && 0 <= J < |files|
    ensures forall k | 0 <= k < |files| :: files[k] in chains
    ensures NoDup(Census(files, free, chains))
    ensures CanDelete(s, files[i]) && DeleteFileState(s, files[i]).1 == Pass
    ensures var e := At(s, files[i]);
            && (e.prevIndexBlock == NIL || e.prevIndexBlock in files)
            && (e.nextIndexBlock == NIL || e.nextIndexBlock in files)
            && (ReleasedLast(e, files[i]) == files[i] || ReleasedLast(e, files[i]) in chains[files[i]])
    ensures forall k | 0 <= k < |chains[files[J]]| :: 0 < chains[files[J]][k] < |s|
    ensures FileChain(s, files[J], chains[files[J]])
  {
    var e := At(s, files[i]);
    DeleteChainEnds(s, files, free, chains, i);
    ReleasedLastOwned(s, files, free, chains, i);
    UnlinkNeighbours(s, files, i);
    assert e.prevIndexBlock == NIL || e.prevIndexBlock == files[i - 1];
    assert e.nextIndexBlock == NIL || e.nextIndexBlock == files[i + 1];
    var c := chains[files[J]];
    assert FileChain(s, files[J], c);
    forall k | 0 <= k < |c|
      ensures 0 < c[k] < |s|
    {
      assert c[k] in c && IsDataAt(s, c[k]);
    }
  }


  /** Another file's entry keeps its chain fields, size and name. */
  lemma DeleteKeepsEntryFields(s: Slots, files: seq<Ref>, free: seq<Ref>, chains: map<Ref, seq<Ref>>, i: int, j: int)
    requires Layout(s, files, free, chains) && 0 <= i < |files| && 0 <= j < |files| - 1
    ensures CanDelete(s, files[i])
    ensures SameEntry(s, DeleteFileState(s, files[i]).0, files[Kept(i, j)])
  {
    var k := Kept(i, j);
    var f := files[k];
    DeleteKeepsEntryAt(s, files, free, chains, i, j);
    RemoveAt(files, i);
    assert IsFileAt(s, files[k]) && f != NIL;
    UnlinkKeepsEntry(s, files[i], f);
    SameEntryThenSame(s, UnlinkState(s, files[i]), DeleteFileState(s, files[i]).0, f);
  }

  lemma SameEntryThenSame(s: Slots, s1: Slots, s2: Slots, f: Ref)
    requires SameEntry(s, s1, f) && Same(s1, s2, f)
    ensures SameEntry(s, s2, f)
  {
  }

  /** Unlinking an entry changes only the index links of its neighbours. */
  lemma UnlinkKeepsEntry(s: Slots, h: Ref, f: Ref)
    requires CanUnlink(s, h) && IsFileAt(s, f) && f != NIL
    ensures SameEntry(s, UnlinkState(s, h), f)
  {
    UnlinkSlots(s, h);
  }

  /** No block of another file's chain is among the slots the deletion writes. */
  lemma DeleteKeepsChainBlocks(s: Slots, files: seq<Ref>, free: seq<Ref>, chains: map<Ref, seq<Ref>>, i: int, J: int)
    requires forall k | 0 <= k < |files| :: files[k] in chains
    requires NoDup(Census(files, free, chains))
    requires 0 <= i < |files| && 0 <= J < |files| && J != i
    requires CanDelete(s, files[i]) && DeleteFileState(s, files[i]).1 == Pass
    requires var e := At(s, files[i]);
             && (e.prevIndexBlock == NIL || e.prevIndexBlock in files)
             && (e.nextIndexBlock == NIL || e.nextIndexBlock in files)
             && (ReleasedLast(e, files[i]) == files[i] || ReleasedLast(e, files[i]) in chains[files[i]])
    requires forall k | 0 <= k < |chains[files[J]]| :: 0 < chains[files[J]][k] < |s|
    ensures forall k | 0 <= k < |chains[files[J]]| :: Same(s, DeleteFileState(s, files[i]).0, chains[files[J]][k])
  {
    var h := files[i];
    var e := At(s, h);
    DeleteSlots(s, h);
    var l := ReleasedLast(e, h);
    var c := chains[files[J]];
    forall k | 0 <= k < |c|
      ensures c[k] != h && c[k] != l && c[k] != e.prevIndexBlock && c[k] != e.nextIndexBlock
    {
      var r := c[k];
      assert r in c;
      ChainNotElsewhere(files, free, chains, J, r);
      if l != h {
        ChainsApart(files, free, chains, i, J, l);
      }
    }
  }

  lemma DeleteFileChains(s: Slots, files: seq<Ref>, free: seq<Ref>, chains: map<Ref, seq<Ref>>, i: int)
    requires Layout(s, files, free, chains) && 0 <= i < |files|
    ensures CanDelete(s, files[i])
    ensures var s' := DeleteFileState(s, files[i]).0;
            var files' := files[..i] + files[i + 1..];
            var chains' := chains - {files[i]};
            forall j | 0 <= j < |files'| :: files'[j] in chains' && FileChain(s', files'[j], chains'[files'[j]])
  {
    var h := files[i];
    DeleteChainEnds(s, files, free, chains, i);
    RemoveAt(files, i);
    var s' := DeleteFileState(s, h).0;
    var files' := files[..i] + files[i + 1..];
    var chains' := chains - {h};
    forall j | 0 <= j < |files'|
      ensures files'[j] in chains' && FileChain(s', files'[j], chains'[files'[j]])
    {
      assert files'[j] == files[Kept(i, j)] != h;
      DeleteKeepsChainAt(s, files, free, chains, i, j);
    }
  }

  /** The deletion moves the entry and its chain to the free list: the census is unchanged. */
  lemma DeleteFileCensus(files: seq<Ref>, free: seq<Ref>, chains: map<Ref, seq<Ref>>, i: int)
    requires forall k | 0 <= k < |files| :: files[k] in chains
    requires Distinct(files) && 0 <= i < |files|
    ensures var h := files[i];
            var files' := files[..i] + files[i + 1..];
            && (forall k | 0 <= k < |files'| :: files'[k] in chains - {h})
            && Census(files', [h] + chains[h] + free, chains - {h}) == Census(files, free, chains)
  {
    var h := files[i];
    var files' := files[..i] + files[i + 1..];
    var chains' := chains - {h};
    RemoveAt(files, i);
    forall k | 0 <= k < |files'|
      ensures files'[k] in chains' && chains'[files'[k]] == chains[files'[k]]
    {
      assert files'[k] == files[Kept(i, k)];
    }
    ChainCensusAgree(chains, chains', files');
    ChainCensusSplit(chains, files, i);
    RemoveAtMultiset(files, i);
    assert multiset([h] + chains[h] + free) == multiset{h} + multiset(chains[h]) + multiset(free);
  }

  lemma RemoveAtMultiset(l: seq<Ref>, i: int)
    requires 0 <= i < |l|
    ensures multiset(l) == multiset(l[..i] + l[i + 1..]) + multiset{l[i]}
  {
    assert l == l[..i] + [l[i]] + l[i + 1..];
  }

  lemma DeleteFileAccounting(s: Slots, files: seq<Ref>, free: seq<Ref>, chains: map<Ref, seq<Ref>>, i: int)
    requires Layout(s, files, free, chains) && 0 <= i < |files|
    ensures CanDelete(s, files[i])
    ensures var h := files[i];
            var s' := DeleteFileState(s, h).0;
            var files' := files[..i] + files[i + 1..];
            && (forall k | 0 <= k < |files'| :: files'[k] in chains - {h})
            && NoDup(Census(files', [h] + chains[h] + free, chains - {h}))
            && forall r | 0 < r < |s'| :: r in Census(files', [h] + chains[h] + free, chains - {h})
  {
    DeleteChainEnds(s, files, free, chains, i);
    DeleteSlots(s, files[i]);
    DeleteFileCensus(files, free, chains, i);
  }
}
