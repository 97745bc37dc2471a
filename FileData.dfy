/**
 * `loadFile` and `storeFile` of `VirtualFileSystemBackend` as functions of
 * the store before the call, and the lemmas that `storeFile` keeps the
 * store's layout and that what it stores is what `loadFile` returns.
 */
module FileData {
  import opened Wrappers
  import opened Blocks
  import opened Mock
  import opened Lists
  import opened Allocation
  import opened Transfer

  // ---------------------------------------------------------------------------
  // loadFile

  /**
   * What `loadFile(h)` returns when `c` is the chain of entry `h`: the
   * entry's recorded size (as an `Int`) of bytes filled from the chain's
   * payloads; the read fails when `h` is not an entry.
   */
  ghost function LoadFileResult(s: Slots, h: Ref, c: seq<Ref>): Result<seq<Byte>>
    requires forall i | 0 <= i < |c| :: IsDataAt(s, c[i])
  {
    match ReadSlot(s, h, FileIndexKind)
    case Err(e) => Err(e)
    case Ok(entry) =>
      var size := LongToInt(entry.fileSize);
      if size < 0 then Err(NegativeArraySize) else Ok(LoadBytes(Contents(s, c), size))
  }

  /** In a well-formed store the file-index blocks are exactly the listed entries. */
  lemma EntryIsListed(s: Slots, files: seq<Ref>, free: seq<Ref>, chains: map<Ref, seq<Ref>>, h: Ref)
    requires Layout(s, files, free, chains)
    ensures ReadSlot(s, h, FileIndexKind).Ok? <==> h in files
  {
    if 0 < h < |s| {
      ListedOrData(s, files, free, chains, h);
    }
    if h in files {
      var k :| 0 <= k < |files| && files[k] == h;
      assert IsFileAt(s, files[k]);
    }
  }

  /** Every block other than the header is a listed entry or holds data. */
  lemma ListedOrData(s: Slots, files: seq<Ref>, free: seq<Ref>, chains: map<Ref, seq<Ref>>, r: Ref)
    requires Layout(s, files, free, chains) && 0 < r < |s|
    ensures r in files || IsDataAt(s, r)
  {
    assert r in Census(files, free, chains);
    if r in files {
    } else if r in free {
      var k :| 0 <= k < |free| && free[k] == r;
      assert IsDataAt(s, free[k]);
    } else {
      var j := ChainCensusMember(chains, files, r);
      var c := chains[files[j]];
      var k :| 0 <= k < |c| && c[k] == r;
      assert FileChain(s, files[j], c);
      assert IsDataAt(s, c[k]);
    }
  }

  /**
   * In a well-formed store `loadFile` of an entry returns exactly the bytes
   * its chain holds, when they fit an `Int`; of anything else, the failed read.
   */
  lemma LoadFileOfLayout(s: Slots, files: seq<Ref>, free: seq<Ref>, chains: map<Ref, seq<Ref>>, i: int)
    requires Layout(s, files, free, chains) && 0 <= i < |files|
    requires |Contents(s, chains[files[i]])| < 0x8000_0000
    ensures forall k | 0 <= k < |chains[files[i]]| :: IsDataAt(s, chains[files[i]][k])
    ensures LoadFileResult(s, files[i], chains[files[i]]) == Ok(Contents(s, chains[files[i]]))
  {
    assert FileChain(s, files[i], chains[files[i]]);
    LoadBytesExact(Contents(s, chains[files[i]]));
  }

  // ---------------------------------------------------------------------------
  // storeFile

  /**
   * The layout invariant, except that entry `h` need not describe its own
   * chain: the state inside `storeFile` between releasing the old chain
   * and recording the new one.
   */
  ghost predicate Detached(s: Slots, files: seq<Ref>, free: seq<Ref>, chains: map<Ref, seq<Ref>>, h: Ref) {
    && IndexList(s, files)
    && FreeList(s, free)
    && (forall i | 0 <= i < |files| :: files[i] in chains && (files[i] != h ==> FileChain(s, files[i], chains[files[i]])))
    && NoDup(Census(files, free, chains))
    && forall r | 0 < r < |s| :: r in Census(files, free, chains)
  }

  /** What `storeFile(h, ...)` needs to be stated: `h` an entry, the free list, and the entry's chain when it has one. */
  ghost predicate CanStore(s: Slots, h: Ref, free: seq<Ref>, c: seq<Ref>) {
    && IsFileAt(s, h) && h != NIL && FreeList(s, free)
    && (At(s, h).firstDataBlock != NIL ==>
          && c != [] && DataChain(s, At(s, h).firstDataBlock, c) && At(s, h).lastDataBlock == Last(c)
          && forall r | r in c :: r !in free)
  }

  /** The store and the free list once `storeFile` released the entry's old chain, if it had one. */
  ghost function StoreReleased(s: Slots, h: Ref, free: seq<Ref>, c: seq<Ref>): (r: (Slots, seq<Ref>))
    requires CanStore(s, h, free, c)
    ensures |r.0| == |s| && FreeList(r.0, r.1) && r.0[h] == s[h]
  {
    var e := At(s, h);
    if e.firstDataBlock != NIL then
      FreePushesChain(s, free, c);
      assert c[0] == e.firstDataBlock;
      (FreeState(s, e.firstDataBlock, e.lastDataBlock), c + free)
    else
      (s, free)
  }

  lemma StoreReleasedFacts(s: Slots, h: Ref, free: seq<Ref>, c: seq<Ref>)
    requires CanStore(s, h, free, c)
    ensures var (s1, free1) := StoreReleased(s, h, free, c);
            && |s1| == |s| && FreeList(s1, free1) && s1[h] == s[h]
            && Header(s1).nextIndexBlock == Header(s).nextIndexBlock
            && Header(s1).prevIndexBlock == Header(s).prevIndexBlock
            && (At(s, h).firstDataBlock != NIL ==> forall r | 0 < r < |s| && r != Last(c) :: s1[r] == s[r])
            && (At(s, h).firstDataBlock == NIL ==> s1 == s)
  {
    var e := At(s, h);
    if e.firstDataBlock != NIL {
      FreePushesChain(s, free, c);
      assert c[0] == e.firstDataBlock;
      assert Last(c) in c && IsDataAt(s, Last(c)) by {
        assert c[|c| - 1] in c;
      }
    }
  }

  /** The entry `storeFile` writes back: the old one with the new size and chain ends. */
  function StoredEntry(e: Block, size: Int64, refs: seq<Ref>): (b: Block)
    requires e.FileIndexBlock?
    ensures b.FileIndexBlock? && b.fileSize == size && b.firstDataBlock == First(refs) && b.lastDataBlock == Last(refs)
    ensures b.nextIndexBlock == e.nextIndexBlock && b.prevIndexBlock == e.prevIndexBlock && b.fileName == e.fileName
  {
    e.(fileSize := size, firstDataBlock := First(refs), lastDataBlock := Last(refs))
  }

  /**
   * The store after `storeFile(h, bytes, offset, length)` and whether it
   * completed, with `free` the free list and `c` the entry's old chain:
   * the old chain is released first; a range outside `bytes` then fails;
   * otherwise `length` bytes are cut into blocks of at most `max` bytes,
   * written to freshly allocated blocks linked in order, and the entry
   * records the new size and chain ends (0 and 0 for no bytes).
   */
  ghost function StoreFileState(s: Slots, h: Ref, bytes: seq<Byte>, offset: int, length: int, max: nat,
                                free: seq<Ref>, c: seq<Ref>): (Slots, Outcome)
    requires CanStore(s, h, free, c) && max > 0 && |s| + |bytes| <= REF_LIMIT
  {
    var e := At(s, h);
    var released := StoreReleased(s, h, free, c);
    if offset < 0 || length < 0 || offset + length > |bytes| then
      (released.0, Fail(IndexOutOfBounds))
    else if length == 0 then
      (released.0[h := Some(StoredEntry(e, 0, []))], Pass)
    else
      var chain := StoreChain(released.0, released.1, bytes[offset .. offset + length], max);
      (chain.0[h := Some(StoredEntry(e, length, chain.1))], Pass)
  }

  /**
   * The store and the references once `storeFile` allocated the blocks for
   * `data` and wrote them, `max` bytes each and linked in order.
   */
  ghost function StoreChain(s: Slots, free: seq<Ref>, data: seq<Byte>, max: nat): (r: (Slots, seq<Ref>))
    requires FreeList(s, free) && |data| > 0 && max > 0 && |s| + |data| <= REF_LIMIT
    ensures |r.0| >= |s|
  {
    var n := NumDataBlocks(|data|, max);
    StoreRefsInStore(s, free, n);
    AllocatePopsFreeList(s, free, n);
    var refs := AllocatedRefs(s, free, n);
    (WriteBlocks(AllocateState(s, free, n), refs, Chunks(data, max), n), refs)
  }

  /**
   * `storeFile(h, ...)` touches only the header, the entry `h`, the old
   * chain `c`, the vacant blocks and slots past the end of the store.
   */
  lemma StoreFileStateFrame(s: Slots, h: Ref, bytes: seq<Byte>, offset: int, length: int, max: nat,
                            free: seq<Ref>, c: seq<Ref>)
    requires CanStore(s, h, free, c) && max > 0 && |s| + |bytes| <= REF_LIMIT
    ensures var s' := StoreFileState(s, h, bytes, offset, length, max, free, c).0;
            && |s'| >= |s|
            && forall r | 0 < r < |s| && r != h && r !in c && r !in free :: s'[r] == s[r]
  {
    StoreReleasedFacts(s, h, free, c);
    var released := StoreReleased(s, h, free, c);
    if At(s, h).firstDataBlock != NIL {
      assert Last(c) in c;
    }
    if 0 <= offset && 0 < length && offset + length <= |bytes| {
      var data := bytes[offset .. offset + length];
      var n := NumDataBlocks(|data|, max);
      StoreRefsInStore(released.0, released.1, n);
      var refs := AllocatedRefs(released.0, released.1, n);
      var s2 := AllocateState(released.0, released.1, n);
      forall r | 0 < r < |s| && r != h && r !in c && r !in free
        ensures WriteBlocks(s2, refs, Chunks(data, max), n)[r] == s[r]
      {
        FreshFacts(|released.0|, n - Taken(released.1, n));
        assert r !in released.1[..Taken(released.1, n)];
        WriteBlocksElsewhere(s2, refs, Chunks(data, max), n, r);
      }
    }
  }

  /** The allocated references are slots of the grown store. */
  lemma StoreRefsInStore(s: Slots, free: seq<Ref>, n: nat)
    requires FreeList(s, free) && |s| + n <= REF_LIMIT
    ensures |AllocatedRefs(s, free, n)| == n
    ensures forall j | 0 <= j < n :: AllocatedRefs(s, free, n)[j] < |AllocateState(s, free, n)|
  {
    AllocatePopsFreeList(s, free, n);
    FreeListInStore(s, free);
    var k := Taken(free, n);
    var refs := AllocatedRefs(s, free, n);
    forall j | 0 <= j < n
      ensures refs[j] < |AllocateState(s, free, n)|
    {
      if j < k {
        assert refs[j] == refs[..k][j] == free[j];
      }
    }
  }

  // ---------------------------------------------------------------------------
  // storeFile keeps the layout

  /** Replacing one file's chain changes the census of all chains by exactly the two chains. */
  lemma ChainCensusReplace(chains: map<Ref, seq<Ref>>, files: seq<Ref>, i: int, c': seq<Ref>)
    requires forall k | 0 <= k < |files| :: files[k] in chains
    requires Distinct(files) && 0 <= i < |files|
    ensures forall k | 0 <= k < |files| :: files[k] in chains[files[i] := c']
    ensures ChainCensus(chains[files[i] := c'], files) + multiset(chains[files[i]]) ==
            ChainCensus(chains, files) + multiset(c')
  {
    var h := files[i];
    var chains' := chains[h := c'];
    var pre, post := files[..i], files[i + 1..];
    forall k | 0 <= k < |pre|
      ensures pre[k] in chains && pre[k] in chains' && chains'[pre[k]] == chains[pre[k]]
    {
      assert pre[k] == files[k] != h;
    }
    forall k | 0 <= k < |post|
      ensures post[k] in chains && post[k] in chains' && chains'[post[k]] == chains[post[k]]
    {
      assert post[k] == files[i + 1 + k] != h;
    }
    ChainCensusAgree(chains, chains', files[..i]);
    ChainCensusAgree(chains, chains', files[i + 1..]);
    ChainCensusSplit(chains, files, i);
    ChainCensusSplit(chains', files, i);
  }

  /** In a well-formed store every entry can be stored to, its chain being the one the layout records. */
  lemma LayoutCanStore(s: Slots, files: seq<Ref>, free: seq<Ref>, chains: map<Ref, seq<Ref>>, i: int)
    requires Layout(s, files, free, chains) && 0 <= i < |files|
    ensures CanStore(s, files[i], free, chains[files[i]])
    ensures At(s, files[i]).firstDataBlock == NIL <==> chains[files[i]] == []
  {
    var c := chains[files[i]];
    assert FileChain(s, files[i], c);
    LayoutDisjoint(s, files, free, chains, i);
    if c != [] {
      assert c[0] in c;
    }
  }

  /**
   * Releasing the old chain: the entry keeps its block (still naming the old
   * chain), the chain joins the free list, and the rest of the layout holds
   * with the entry owning no blocks.
   */
  lemma StoreReleaseKeeps(s: Slots, files: seq<Ref>, free: seq<Ref>, chains: map<Ref, seq<Ref>>, i: int)
    requires Layout(s, files, free, chains) && 0 <= i < |files|
    ensures CanStore(s, files[i], free, chains[files[i]])
    ensures var h := files[i];
            var released := StoreReleased(s, h, free, chains[h]);
            && Detached(released.0, files, released.1, chains[h := []], h)
            && |released.0| == |s| && released.0[h] == s[h]
            && Infos(released.0, files) == Infos(s, files)
  {
    var h := files[i];
    LayoutCanStore(s, files, free, chains, i);
    StoreReleasedFacts(s, h, free, chains[h]);
    if chains[h] == [] {
      StoreReleaseNothing(s, files, free, chains, i);
    } else {
      StoreReleaseChain(s, files, free, chains, i);
      StoreReleaseFrames(s, files, free, chains, i);
      assert StoreReleased(s, h, free, chains[h]).1 == chains[h] + free;
    }
  }

  lemma StoreReleaseNothing(s: Slots, files: seq<Ref>, free: seq<Ref>, chains: map<Ref, seq<Ref>>, i: int)
    requires Layout(s, files, free, chains) && 0 <= i < |files| && chains[files[i]] == []
    ensures Detached(s, files, free, chains[files[i] := []], files[i])
  {
    UpdateSame(chains, files[i]);
  }

  lemma UpdateSame(m: map<Ref, seq<Ref>>, h: Ref)
    requires h in m
    ensures m[h := m[h]] == m
  {
  }

  lemma StoreReleaseChain(s: Slots, files: seq<Ref>, free: seq<Ref>, chains: map<Ref, seq<Ref>>, i: int)
    requires Layout(s, files, free, chains) && 0 <= i < |files| && chains[files[i]] != []
    ensures CanStore(s, files[i], free, chains[files[i]])
    ensures var h := files[i];
            var s1 := StoreReleased(s, h, free, chains[h]).0;
            Detached(s1, files, chains[h] + free, chains[h := []], h)
  {
    var h := files[i];
    var c := chains[h];
    StoreReleaseFrames(s, files, free, chains, i);
    StoreReleaseAccounting(s, files, free, chains, i);
    var released := StoreReleased(s, h, free, c);
    assert released.1 == c + free;
    DetachedIntro(released.0, files, c + free, chains[h := []], h);
  }

  /** The conjuncts of `Detached`, each established on its own. */
  lemma DetachedIntro(s: Slots, files: seq<Ref>, free: seq<Ref>, chains: map<Ref, seq<Ref>>, h: Ref)
    requires IndexList(s, files) && FreeList(s, free)
    requires forall j | 0 <= j < |files| :: files[j] in chains
    requires forall j | 0 <= j < |files| :: files[j] != h ==> FileChain(s, files[j], chains[files[j]])
    requires NoDup(Census(files, free, chains))
    requires forall r | 0 < r < |s| :: r in Census(files, free, chains)
    ensures Detached(s, files, free, chains, h)
  {
  }

  lemma StoreReleaseAccounting(s: Slots, files: seq<Ref>, free: seq<Ref>, chains: map<Ref, seq<Ref>>, i: int)
    requires Layout(s, files, free, chains) && 0 <= i < |files| && chains[files[i]] != []
    ensures CanStore(s, files[i], free, chains[files[i]])
    ensures var h := files[i];
            var s1 := StoreReleased(s, h, free, chains[h]).0;
            var free1, chains1 := chains[h] + free, chains[h := []];
            && (forall j | 0 <= j < |files| :: files[j] in chains1)
            && NoDup(Census(files, free1, chains1))
            && (forall r | 0 < r < |s1| :: r in Census(files, free1, chains1))
  {
    LayoutCanStore(s, files, free, chains, i);
    StoreReleaseCensus(files, free, chains, i);
  }

  /** The released chain moves from its file to the free list: the census is unchanged. */
  lemma StoreReleaseCensus(files: seq<Ref>, free: seq<Ref>, chains: map<Ref, seq<Ref>>, i: int)
    requires forall k | 0 <= k < |files| :: files[k] in chains
    requires Distinct(files) && 0 <= i < |files|
    ensures forall k | 0 <= k < |files| :: files[k] in chains[files[i] := []]
    ensures Census(files, chains[files[i]] + free, chains[files[i] := []]) == Census(files, free, chains)
  {
    var c := chains[files[i]];
    var chains' := chains[files[i] := []];
    ChainCensusReplace(chains, files, i, []);
    var none: seq<Ref> := [];
    assert multiset(none) == multiset{};
    assert ChainCensus(chains', files) + multiset(c) == ChainCensus(chains, files);
    assert multiset(c + free) == multiset(c) + multiset(free);
  }

  lemma StoreReleaseFrames(s: Slots, files: seq<Ref>, free: seq<Ref>, chains: map<Ref, seq<Ref>>, i: int)
    requires Layout(s, files, free, chains) && 0 <= i < |files| && chains[files[i]] != []
    ensures CanStore(s, files[i], free, chains[files[i]])
    ensures var h := files[i];
            var s1 := StoreReleased(s, h, free, chains[h]).0;
            && IndexList(s1, files) && Infos(s1, files) == Infos(s, files)
            && forall j | 0 <= j < |files| :: files[j] != h ==> FileChain(s1, files[j], chains[h := []][files[j]])
  {
    var h := files[i];
    var c := chains[h];
    LayoutCanStore(s, files, free, chains, i);
    LayoutDisjoint(s, files, free, chains, i);
    forall j, r | 0 <= j < |files| && files[j] != h && r in chains[files[j]]
      ensures r !in c
    {
    }
    assert IndexList(s, files);
    StoreReleaseOthers(s, files, free, chains, h);
  }

  lemma StoreReleaseOthers(s: Slots, files: seq<Ref>, free: seq<Ref>, chains: map<Ref, seq<Ref>>, h: Ref)
    requires IndexList(s, files) && h in chains && CanStore(s, h, free, chains[h]) && At(s, h).firstDataBlock != NIL
    requires forall j | 0 <= j < |files| :: files[j] in chains && (files[j] != h ==> FileChain(s, files[j], chains[files[j]]))
    requires forall j, r | 0 <= j < |files| && files[j] != h && r in chains[files[j]] :: r !in chains[h]
    ensures var s1 := StoreReleased(s, h, free, chains[h]).0;
            && IndexList(s1, files) && Infos(s1, files) == Infos(s, files)
            && forall j | 0 <= j < |files| :: files[j] != h ==> FileChain(s1, files[j], chains[h := []][files[j]])
  {
    var c := chains[h];
    StoreReleasedFacts(s, h, free, c);
    var s1 := StoreReleased(s, h, free, c).0;
    var l := Last(c);
    assert l in c && IsDataAt(s, l) by {
      assert c[|c| - 1] in c;
    }
    forall j | 0 <= j < |files| && files[j] != h
      ensures chains[h := []][files[j]] == chains[files[j]]
    {
    }
    OneDataBlockFrame(s, s1, files, chains, h, l);
  }


  /**
   * A write that changes only data block `l`, which no file but `h` owns,
   * and no index link of the header, keeps the index and every other
   * file's chain.
   */
  lemma OneDataBlockFrame(s: Slots, s1: Slots, files: seq<Ref>, chains: map<Ref, seq<Ref>>, h: Ref, l: Ref)
    requires IndexList(s, files)
    requires forall j | 0 <= j < |files| :: files[j] in chains && (files[j] != h ==> FileChain(s, files[j], chains[files[j]]))
    requires forall j, r | 0 <= j < |files| && files[j] != h && r in chains[files[j]] :: r != l
    requires IsDataAt(s, l) && |s1| == |s| && HasHeader(s1)
    requires Header(s1).nextIndexBlock == Header(s).nextIndexBlock && Header(s1).prevIndexBlock == Header(s).prevIndexBlock
    requires forall r | 0 < r < |s| && r != l :: s1[r] == s[r]
    ensures IndexList(s1, files) && Infos(s1, files) == Infos(s, files)
    ensures forall j | 0 <= j < |files| :: files[j] != h ==> FileChain(s1, files[j], chains[files[j]])
  {
    forall j | 0 <= j < |files|
      ensures Same(s, s1, files[j])
    {
      assert IsFileAt(s, files[j]) && files[j] != NIL;
    }
    IndexListFrame(s, s1, files);
    forall j | 0 <= j < |files| && files[j] != h
      ensures FileChain(s1, files[j], chains[files[j]])
    {
      var cj := chains[files[j]];
      assert FileChain(s, files[j], cj);
      forall k | 0 <= k < |cj|
        ensures Same(s, s1, cj[k])
      {
        assert cj[k] in cj && cj[k] != NIL;
      }
      FileChainFrame(s, s1, files[j], cj);
    }
  }


  /** Every block the census counts is a block of the store other than the header, while `h` owns none. */
  lemma DetachedCensusBelow(s: Slots, files: seq<Ref>, free: seq<Ref>, chains: map<Ref, seq<Ref>>, h: Ref)
    requires Detached(s, files, free, chains, h) && h in chains && chains[h] == []
    ensures forall r | r in Census(files, free, chains) :: 0 < r < |s|
  {
    forall k | 0 <= k < |files|
      ensures 0 < files[k] < |s|
    {
      assert IsFileAt(s, files[k]);
    }
    FreeListInStore(s, free);
    forall j, r | 0 <= j < |files| && r in chains[files[j]]
      ensures 0 < r < |s|
    {
      var c := chains[files[j]];
      var k :| 0 <= k < |c| && c[k] == r;
      if files[j] != h {
        assert FileChain(s, files[j], c);
        assert IsDataAt(s, c[k]) && c[k] != NIL;
      }
    }
    forall r | r in Census(files, free, chains)
      ensures 0 < r < |s|
    {
      if r !in files && r !in free {
        var j := ChainCensusMember(chains, files, r);
      }
    }
  }


  /** Adding fresh references beyond every counted block keeps the count free of duplicates. */
  lemma NoDupAddFresh(m: multiset<Ref>, start: nat, count: nat)
    requires NoDup(m) && (forall r | r in m :: r < start) && start + count <= REF_LIMIT
    ensures NoDup(m + multiset(Fresh(start, count)))
  {
    var added := Fresh(start, count);
    FreshFacts(start, count);
    forall r | r in m + multiset(added)
      ensures (m + multiset(added))[r] == 1
    {
      if r in m {
        assert r !in added;
      } else {
        assert r in added;
        FreshCountOne(start, count, r);
      }
    }
  }

  /** Each fresh reference occurs once among the fresh references. */
  lemma {:induction false} FreshCountOne(start: nat, count: nat, r: Ref)
    requires start + count <= REF_LIMIT && start <= r < start + count
    ensures multiset(Fresh(start, count))[r] == 1
    decreases count
  {
    var prefix := Fresh(start, count - 1);
    var last := (start + count - 1) as Ref;
    assert Fresh(start, count) == prefix + [last];
    assert multiset(Fresh(start, count)) == multiset(prefix) + multiset{last};
    if r == last {
      FreshFacts(start, count - 1);
      assert r !in prefix;
    } else {
      FreshCountOne(start, count - 1, r);
    }
  }

  /**
   * Allocating the new blocks: they become entry `h`'s chain (not yet
   * written), the free list loses what was taken, fresh slots join the
   * count, and every listed entry is untouched.
   */
  lemma StoreAllocKeeps(s: Slots, files: seq<Ref>, free: seq<Ref>, chains: map<Ref, seq<Ref>>, i: int, n: nat)
    requires 0 <= i < |files| && Detached(s, files, free, chains, files[i]) && chains[files[i]] == []
    requires |s| + n <= REF_LIMIT
    ensures var h := files[i];
            var refs := AllocatedRefs(s, free, n);
            var s2 := AllocateState(s, free, n);
            && Detached(s2, files, free[Taken(free, n)..], chains[h := refs], h)
            && (forall j | 0 <= j < |files| :: Same(s, s2, files[j]))
            && Infos(s2, files) == Infos(s, files)
  {
    StoreAllocIndex(s, files, free, n);
    StoreAllocChains(s, files, free, chains, i, n);
    StoreAllocCensus(s, files, free, chains, i, n);
  }

  /** Allocation touches no index entry, and leaves what it did not take as the free list. */
  lemma StoreAllocIndex(s: Slots, files: seq<Ref>, free: seq<Ref>, n: nat)
    requires IndexList(s, files) && FreeList(s, free) && |s| + n <= REF_LIMIT
    ensures var s2 := AllocateState(s, free, n);
            && (forall j | 0 <= j < |files| :: Same(s, s2, files[j]))
            && IndexList(s2, files) && Infos(s2, files) == Infos(s, files)
            && FreeList(s2, free[Taken(free, n)..])
  {
    var s2 := AllocateState(s, free, n);
    AllocatePopsFreeList(s, free, n);
    AllocateStateSlots(s, free, n);
    forall j | 0 <= j < |files|
      ensures Same(s, s2, files[j])
    {
      assert IsFileAt(s, files[j]) && files[j] != NIL;
    }
    IndexListFrame(s, s2, files);
  }

  lemma StoreAllocChains(s: Slots, files: seq<Ref>, free: seq<Ref>, chains: map<Ref, seq<Ref>>, i: int, n: nat)
    requires 0 <= i < |files| && Detached(s, files, free, chains, files[i])
    requires FreeList(s, free) && |s| + n <= REF_LIMIT
    ensures var h := files[i];
            var s2 := AllocateState(s, free, n);
            forall j | 0 <= j < |files| ::
              files[j] in chains[h := AllocatedRefs(s, free, n)] &&
              (files[j] != h ==> FileChain(s2, files[j], chains[h := AllocatedRefs(s, free, n)][files[j]]))
  {
    var h := files[i];
    var refs := AllocatedRefs(s, free, n);
    var chains' := chains[h := refs];
    var s2 := AllocateState(s, free, n);
    AllocateStateSlots(s, free, n);
    forall j | 0 <= j < |files| && files[j] != h
      ensures FileChain(s2, files[j], chains'[files[j]])
    {
      var c := chains[files[j]];
      assert chains'[files[j]] == c;
      assert FileChain(s, files[j], c);
      forall k | 0 <= k < |c|
        ensures Same(s, s2, c[k])
      {
        assert c[k] in c && c[k] != NIL && IsDataAt(s, c[k]);
      }
      FileChainFrame(s, s2, files[j], c);
    }
  }

  lemma StoreAllocCensus(s: Slots, files: seq<Ref>, free: seq<Ref>, chains: map<Ref, seq<Ref>>, i: int, n: nat)
    requires 0 <= i < |files| && Detached(s, files, free, chains, files[i]) && chains[files[i]] == []
    requires |s| + n <= REF_LIMIT
    ensures var h := files[i];
            var k := Taken(free, n);
            var free', chains' := free[k..], chains[h := AllocatedRefs(s, free, n)];
            && (forall j | 0 <= j < |files| :: files[j] in chains')
            && NoDup(Census(files, free', chains'))
            && forall r | 0 < r < |AllocateState(s, free, n)| :: r in Census(files, free', chains')
  {
    var k := Taken(free, n);
    AllocatePopsFreeList(s, free, n);
    DetachedCensusBelow(s, files, free, chains, files[i]);
    GrowCensus(files, free, chains, i, AllocatedRefs(s, free, n), k, |s|, n - k);
  }

  /**
   * Giving a file that owns no blocks the taken vacant blocks and fresh
   * ones keeps every block counted once, and the count now covers the
   * fresh slots too.
   */
  lemma GrowCensus(files: seq<Ref>, free: seq<Ref>, chains: map<Ref, seq<Ref>>, i: int, refs: seq<Ref>, k: nat,
                   size: nat, count: nat)
    requires forall j | 0 <= j < |files| :: files[j] in chains
    requires Distinct(files) && 0 <= i < |files| && chains[files[i]] == [] && k <= |free|
    requires size + count <= REF_LIMIT
    requires multiset(refs) + multiset(free[k..]) == multiset(free) + multiset(Fresh(size, count))
    requires NoDup(Census(files, free, chains))
    requires forall r | r in Census(files, free, chains) :: 0 < r < size
    requires forall r | 0 < r < size :: r in Census(files, free, chains)
    ensures forall j | 0 <= j < |files| :: files[j] in chains[files[i] := refs]
    ensures NoDup(Census(files, free[k..], chains[files[i] := refs]))
    ensures var free', chains' := free[k..], chains[files[i] := refs];
            forall r | 0 < r < size + count :: r in Census(files, free', chains')
  {
    var m := Census(files, free, chains);
    MoveToChain(files, free, chains, i, refs, k, Fresh(size, count));
    NoDupAddFresh(m, size, count);
    CoverFresh(m, size, count);
  }

  /** Counted blocks covering `1 .. start - 1`, with fresh ones added, cover `1 .. start + count - 1`. */
  lemma CoverFresh(m: multiset<Ref>, start: nat, count: nat)
    requires (forall r | 0 < r < start :: r in m) && start + count <= REF_LIMIT
    ensures forall r | 0 < r < start + count :: r in m + multiset(Fresh(start, count))
  {
    var added := Fresh(start, count);
    FreshFacts(start, count);
    forall r | 0 < r < start + count
      ensures r in m + multiset(added)
    {
      if r >= start {
        assert added[r - start] == r;
      }
    }
  }

  /**
   * Moving the references `refs` (the first `k` of the free list and the
   * fresh `added` ones) to a file that owned no blocks adds exactly `added`
   * to the census.
   */
  lemma MoveToChain(files: seq<Ref>, free: seq<Ref>, chains: map<Ref, seq<Ref>>, i: int, refs: seq<Ref>, k: nat,
                    added: seq<Ref>)
    requires forall j | 0 <= j < |files| :: files[j] in chains
    requires Distinct(files) && 0 <= i < |files| && chains[files[i]] == [] && k <= |free|
    requires multiset(refs) + multiset(free[k..]) == multiset(free) + multiset(added)
    ensures forall j | 0 <= j < |files| :: files[j] in chains[files[i] := refs]
    ensures Census(files, free[k..], chains[files[i] := refs]) == Census(files, free, chains) + multiset(added)
  {
    var chains' := chains[files[i] := refs];
    ChainCensusReplace(chains, files, i, refs);
    var none: seq<Ref> := [];
    assert multiset(none) == multiset{};
    var cc, cc' := ChainCensus(chains, files), ChainCensus(chains', files);
    assert cc' == cc + multiset(refs);
    var f, f' := multiset(free), multiset(free[k..]);
    calc {
      Census(files, free[k..], chains');
      multiset(files) + f' + cc + multiset(refs);
      multiset(files) + cc + (multiset(refs) + f');
      multiset(files) + cc + (f + multiset(added));
      Census(files, free, chains) + multiset(added);
    }
  }

  /**
   * Writing the payloads into entry `h`'s new blocks: every listed entry,
   * the free list and every other chain are untouched, and the new blocks
   * form a chain from their first reference holding the payloads in order.
   */
  lemma StoreWriteKeeps(s: Slots, files: seq<Ref>, free: seq<Ref>, chains: map<Ref, seq<Ref>>, i: int,
                        chunks: seq<seq<Byte>>)
    requires 0 <= i < |files| && Detached(s, files, free, chains, files[i])
    requires var refs := chains[files[i]];
             && |refs| == |chunks| && Distinct(refs) && NIL !in refs
             && forall j | 0 <= j < |refs| :: refs[j] < |s|
    ensures var refs := chains[files[i]];
            var s3 := WriteBlocks(s, refs, chunks, |refs|);
            && Detached(s3, files, free, chains, files[i])
            && (forall j | 0 <= j < |files| :: Same(s, s3, files[j]))
            && Infos(s3, files) == Infos(s, files)
            && DataChain(s3, First(refs), refs)
            && Contents(s3, refs) == Flatten(chunks)
  {
    var refs := chains[files[i]];
    var s3 := WriteBlocks(s, refs, chunks, |refs|);
    WrittenApart(files, free, chains, i);
    forall r | 0 <= r < |s| && r !in refs
      ensures Same(s, s3, r)
    {
      WriteBlocksElsewhere(s, refs, chunks, |refs|, r);
    }
    assert Same(s, s3, 0);
    forall j | 0 <= j < |files|
      ensures Same(s, s3, files[j])
    {
      assert IsFileAt(s, files[j]) && files[j] !in refs;
    }
    IndexListFrame(s, s3, files);
    forall j | 0 <= j < |free|
      ensures Same(s, s3, free[j])
    {
      assert free[j] in free && IsDataAt(s, free[j]);
    }
    DataChainFrame(s, s3, Header(s).firstVacantBlock, free);
    forall j | 0 <= j < |files| && j != i
      ensures FileChain(s3, files[j], chains[files[j]])
    {
      var c := chains[files[j]];
      assert FileChain(s, files[j], c);
      forall k | 0 <= k < |c|
        ensures Same(s, s3, c[k])
      {
        assert c[k] in c && IsDataAt(s, c[k]);
      }
      FileChainFrame(s, s3, files[j], c);
    }
    WrittenChain(s, refs, chunks);
  }

  /** Entry `files[i]`'s blocks are no entry, no vacant block and no block of another file. */
  lemma WrittenApart(files: seq<Ref>, free: seq<Ref>, chains: map<Ref, seq<Ref>>, i: int)
    requires forall k | 0 <= k < |files| :: files[k] in chains
    requires NoDup(Census(files, free, chains)) && 0 <= i < |files|
    ensures forall r | r in chains[files[i]] :: r !in free && r !in files
    ensures forall j, r | 0 <= j < |files| && j != i && r in chains[files[i]] :: r !in chains[files[j]]
  {
    forall r | r in chains[files[i]]
      ensures r !in free && r !in files
    {
      ChainNotElsewhere(files, free, chains, i, r);
    }
    forall j, r | 0 <= j < |files| && j != i && r in chains[files[i]]
      ensures r !in chains[files[j]]
    {
      ChainsApart(files, free, chains, i, j, r);
    }
  }

  /**
   * Recording the new chain in entry `h` (its ends and its length) brings
   * back the full layout invariant, and the index now reports the new size.
   */
  lemma StoreRecordKeeps(s: Slots, files: seq<Ref>, free: seq<Ref>, chains: map<Ref, seq<Ref>>, i: int, size: Int64)
    requires 0 <= i < |files| && Detached(s, files, free, chains, files[i])
    requires DataChain(s, First(chains[files[i]]), chains[files[i]])
    requires size == |Contents(s, chains[files[i]])|
    ensures var h := files[i];
            var s' := s[h := Some(StoredEntry(At(s, h), size, chains[h]))];
            && Layout(s', files, free, chains)
            && Infos(s', files) == Infos(s, files)[i := FileInfo(At(s, h).fileName, size, h)]
            && (forall k | 0 <= k < |chains[h]| :: IsDataAt(s', chains[h][k]))
            && Contents(s', chains[h]) == Contents(s, chains[h])
  {
    var h := files[i];
    var c := chains[h];
    var s' := s[h := Some(StoredEntry(At(s, h), size, c))];
    StoreRecordIndex(s, files, i, size, c);
    StoreRecordChains(s, files, free, chains, i, size);
  }

  lemma StoreRecordChains(s: Slots, files: seq<Ref>, free: seq<Ref>, chains: map<Ref, seq<Ref>>, i: int, size: Int64)
    requires 0 <= i < |files| && Detached(s, files, free, chains, files[i])
    requires DataChain(s, First(chains[files[i]]), chains[files[i]])
    requires size == |Contents(s, chains[files[i]])|
    ensures var h := files[i];
            var s' := s[h := Some(StoredEntry(At(s, h), size, chains[h]))];
            && FreeList(s', free)
            && (forall j | 0 <= j < |files| :: FileChain(s', files[j], chains[files[j]]))
            && (forall k | 0 <= k < |chains[h]| :: IsDataAt(s', chains[h][k]))
            && Contents(s', chains[h]) == Contents(s, chains[h])
  {
    var h := files[i];
    var c := chains[h];
    var b := StoredEntry(At(s, h), size, c);
    var s' := s[h := Some(b)];
    StoreRecordIndex(s, files, i, size, c);
    assert IsFileAt(s, h) && h != NIL && Header(s') == Header(s);
    DataChainOverEntry(s, h, b, Header(s).firstVacantBlock, free);
    DataChainOverEntry(s, h, b, First(c), c);
    forall j | 0 <= j < |files|
      ensures FileChain(s', files[j], chains[files[j]])
    {
      if j != i {
        FileChainOverEntry(s, h, b, files[j], chains[files[j]]);
      }
    }
  }


  /** Only entry `h` changes, and only in the fields `buildIndex` reports as its size. */
  lemma StoreRecordIndex(s: Slots, files: seq<Ref>, i: int, size: Int64, c: seq<Ref>)
    requires IndexList(s, files) && 0 <= i < |files|
    ensures var h := files[i];
            var s' := s[h := Some(StoredEntry(At(s, h), size, c))];
            && IndexList(s', files)
            && Infos(s', files) == Infos(s, files)[i := FileInfo(At(s, h).fileName, size, h)]
            && forall j | 0 <= j < |files| && j != i :: SameEntry(s, s', files[j])
  {
    var h := files[i];
    var b := StoredEntry(At(s, h), size, c);
    var s' := s[h := Some(b)];
    forall j | 0 <= j < |files|
      ensures IsFileAt(s', files[j])
      ensures At(s', files[j]).nextIndexBlock == NextOf(files, j)
      ensures At(s', files[j]).prevIndexBlock == PrevOf(files, j)
      ensures InfoOf(s', files[j]) == (if j == i then FileInfo(b.fileName, size, h) else InfoOf(s, files[j]))
      ensures j != i ==> SameEntry(s, s', files[j])
    {
      RewriteEntryAt(s, files, i, j, b);
    }
    assert Header(s') == Header(s);
    InfosUpdate(s, s', files, i, FileInfo(b.fileName, size, h));
  }

  /** Rewriting entry `files[i]` with the same index links keeps every entry's links, and every other entry. */
  lemma RewriteEntryAt(s: Slots, files: seq<Ref>, i: int, j: int, b: Block)
    requires IndexList(s, files) && 0 <= i < |files| && 0 <= j < |files|
    requires b.FileIndexBlock?
    requires b.nextIndexBlock == At(s, files[i]).nextIndexBlock && b.prevIndexBlock == At(s, files[i]).prevIndexBlock
    ensures var s' := s[files[i] := Some(b)];
            && IsFileAt(s', files[j])
            && At(s', files[j]).nextIndexBlock == NextOf(files, j)
            && At(s', files[j]).prevIndexBlock == PrevOf(files, j)
            && InfoOf(s', files[j]) == (if j == i then FileInfo(b.fileName, b.fileSize, files[i]) else InfoOf(s, files[j]))
            && (j != i ==> SameEntry(s, s', files[j]))
  {
    assert IsFileAt(s, files[i]) && IsFileAt(s, files[j]);
    if j != i {
      assert files[j] != files[i];
    }
  }


  /** No entry, and no vacant block, lies in any file's chain. */
  lemma EntryOwnsNoBlock(files: seq<Ref>, free: seq<Ref>, chains: map<Ref, seq<Ref>>, i: int)
    requires forall k | 0 <= k < |files| :: files[k] in chains
    requires NoDup(Census(files, free, chains)) && 0 <= i < |files|
    ensures files[i] !in free
    ensures forall j, r | 0 <= j < |files| && r in chains[files[j]] :: r != files[i]
  {
    EntryNotElsewhere(files, free, chains, i);
    forall j, r | 0 <= j < |files| && r in chains[files[j]]
      ensures r != files[i]
    {
      ChainNotElsewhere(files, free, chains, j, r);
      assert files[i] in files;
    }
  }

  // ---------------------------------------------------------------------------
  // The whole of storeFile

  /**
   * The free list and the entry's chain once `storeFile` completed for a
   * valid range of `length` bytes: what is left of the free list after
   * releasing the old chain and allocating, and the allocated references.
   */
  ghost function StoreLists(s: Slots, h: Ref, free: seq<Ref>, c: seq<Ref>, length: nat, max: nat): (r: (seq<Ref>, seq<Ref>))
    requires CanStore(s, h, free, c) && max > 0 && |s| + length <= REF_LIMIT
  {
    var released := StoreReleased(s, h, free, c);
    if length == 0 then (released.1, [])
    else
      var n := NumDataBlocks(length, max);
      (released.1[Taken(released.1, n)..], AllocatedRefs(released.0, released.1, n))
  }

  /**
   * `storeFile` with a valid range keeps the layout invariant: it completes,
   * the entry now owns a chain holding exactly the stored bytes, every
   * other file keeps its chain and its bytes, no block is leaked or owned
   * twice, and the index reports the new size under the same name and
   * handle.
   */
  lemma StoreFileKeepsLayout(s: Slots, files: seq<Ref>, free: seq<Ref>, chains: map<Ref, seq<Ref>>, i: int,
                             bytes: seq<Byte>, offset: int, length: int, max: nat)
    requires Layout(s, files, free, chains) && 0 <= i < |files|
    requires max > 0 && |s| + |bytes| <= REF_LIMIT
    requires 0 <= offset && 0 <= length && offset + length <= |bytes|
    ensures CanStore(s, files[i], free, chains[files[i]])
    ensures var h := files[i];
            var r := StoreFileState(s, h, bytes, offset, length, max, free, chains[h]);
            var lists := StoreLists(s, h, free, chains[h], length, max);
            && r.1 == Pass
            && Layout(r.0, files, lists.0, chains[h := lists.1])
            && (forall b | b in lists.1 :: IsDataAt(r.0, b))
            && Contents(r.0, lists.1) == bytes[offset .. offset + length]
            && Infos(r.0, files) == Infos(s, files)[i := FileInfo(At(s, h).fileName, length, h)]
            && OthersKeepData(s, r.0, files, chains, h)
  {
    if length == 0 {
      StoreFileEmptyKeeps(s, files, free, chains, i, bytes, offset, length, max);
    } else {
      StoreFileDataKeeps(s, files, free, chains, i, bytes, offset, length, max);
    }
    var h := files[i];
    StoreFileStateFrame(s, h, bytes, offset, length, max, free, chains[h]);
    OthersKeepDataIntro(s, StoreFileState(s, h, bytes, offset, length, max, free, chains[h]).0, files, free, chains, h);
  }

  lemma StoreFileEmptyKeeps(s: Slots, files: seq<Ref>, free: seq<Ref>, chains: map<Ref, seq<Ref>>, i: int,
                            bytes: seq<Byte>, offset: int, length: int, max: nat)
    requires Layout(s, files, free, chains) && 0 <= i < |files|
    requires max > 0 && |s| + |bytes| <= REF_LIMIT
    requires 0 <= offset && length == 0 && offset + length <= |bytes|
    ensures CanStore(s, files[i], free, chains[files[i]])
    ensures var h := files[i];
            var r := StoreFileState(s, h, bytes, offset, length, max, free, chains[h]);
            var lists := StoreLists(s, h, free, chains[h], length, max);
            && r.1 == Pass
            && Layout(r.0, files, lists.0, chains[h := lists.1])
            && (forall b | b in lists.1 :: IsDataAt(r.0, b))
            && Contents(r.0, lists.1) == bytes[offset .. offset + length]
            && Infos(r.0, files) == Infos(s, files)[i := FileInfo(At(s, h).fileName, length, h)]
  {
    var h := files[i];
    StoreReleaseKeeps(s, files, free, chains, i);
    var released := StoreReleased(s, h, free, chains[h]);
    var chains1 := chains[h := []];
    assert chains1[h] == [];
    StoreRecordKeeps(released.0, files, released.1, chains1, i, 0);
    assert bytes[offset .. offset + length] == [];
  }

  lemma StoreFileDataKeeps(s: Slots, files: seq<Ref>, free: seq<Ref>, chains: map<Ref, seq<Ref>>, i: int,
                           bytes: seq<Byte>, offset: int, length: int, max: nat)
    requires Layout(s, files, free, chains) && 0 <= i < |files|
    requires max > 0 && |s| + |bytes| <= REF_LIMIT
    requires 0 <= offset && 0 < length && offset + length <= |bytes|
    ensures CanStore(s, files[i], free, chains[files[i]])
    ensures var h := files[i];
            var r := StoreFileState(s, h, bytes, offset, length, max, free, chains[h]);
            var lists := StoreLists(s, h, free, chains[h], length, max);
            && r.1 == Pass
            && Layout(r.0, files, lists.0, chains[h := lists.1])
            && (forall b | b in lists.1 :: IsDataAt(r.0, b))
            && Contents(r.0, lists.1) == bytes[offset .. offset + length]
            && Infos(r.0, files) == Infos(s, files)[i := FileInfo(At(s, h).fileName, length, h)]
  {
    var h := files[i];
    StoreReleaseKeeps(s, files, free, chains, i);
    var released := StoreReleased(s, h, free, chains[h]);
    StoreFileStateData(s, h, bytes, offset, length, max, free, chains[h]);
    StoreFileData(released.0, files, released.1, chains, i, bytes[offset .. offset + length], max);
  }

  /** `storeFile` of a non-empty valid range: release, then allocate and write, then record. */
  lemma StoreFileStateData(s: Slots, h: Ref, bytes: seq<Byte>, offset: int, length: int, max: nat,
                           free: seq<Ref>, c: seq<Ref>)
    requires CanStore(s, h, free, c) && max > 0 && |s| + |bytes| <= REF_LIMIT
    requires 0 <= offset && 0 < length && offset + length <= |bytes|
    ensures var released := StoreReleased(s, h, free, c);
            var n := NumDataBlocks(length, max);
            var chain := StoreChain(released.0, released.1, bytes[offset .. offset + length], max);
            && StoreFileState(s, h, bytes, offset, length, max, free, c)
               == (chain.0[h := Some(StoredEntry(At(s, h), length, chain.1))], Pass)
            && StoreLists(s, h, free, c, length, max)
               == (released.1[Taken(released.1, n)..], AllocatedRefs(released.0, released.1, n))
  {
  }

  /** The bytes go to freshly allocated blocks, recorded in the entry, from the state after the release. */
  lemma StoreFileData(s: Slots, files: seq<Ref>, free: seq<Ref>, chains: map<Ref, seq<Ref>>, i: int,
                      data: seq<Byte>, max: nat)
    requires 0 <= i < |files| && Detached(s, files, free, chains[files[i] := []], files[i])
    requires max > 0 && |data| > 0 && |s| + |data| <= REF_LIMIT
    ensures var h := files[i];
            var n := NumDataBlocks(|data|, max);
            var chain := StoreChain(s, free, data, max);
            var s' := chain.0[h := Some(StoredEntry(At(s, h), |data|, chain.1))];
            && chain.1 == AllocatedRefs(s, free, n)
            && Layout(s', files, free[Taken(free, n)..], chains[h := chain.1])
            && (forall b | b in chain.1 :: IsDataAt(s', b))
            && Contents(s', chain.1) == data
            && Infos(s', files) == Infos(s, files)[i := FileInfo(At(s, h).fileName, |data|, h)]
  {
    var h := files[i];
    var n := NumDataBlocks(|data|, max);
    var chain := StoreChain(s, free, data, max);
    var released := chains[h := []];
    assert released[h] == [];
    StoreChainKeeps(s, files, free, released, i, data, max);
    UpdateTwice(chains, h, [], chain.1);
    StoreRecordKeeps(chain.0, files, free[Taken(free, n)..], chains[h := chain.1], i, |data|);
  }

  /**
   * Allocating and writing the blocks: they hold the bytes as the chain of
   * entry `h`, which is itself unchanged, and the rest of the layout holds.
   */
  lemma StoreChainKeeps(s: Slots, files: seq<Ref>, free: seq<Ref>, chains: map<Ref, seq<Ref>>, i: int,
                        data: seq<Byte>, max: nat)
    requires 0 <= i < |files| && Detached(s, files, free, chains, files[i]) && chains[files[i]] == []
    requires max > 0 && |data| > 0 && |s| + |data| <= REF_LIMIT
    ensures var h := files[i];
            var n := NumDataBlocks(|data|, max);
            var chain := StoreChain(s, free, data, max);
            && chain.1 == AllocatedRefs(s, free, n)
            && Detached(chain.0, files, free[Taken(free, n)..], chains[h := chain.1], h)
            && Same(s, chain.0, h)
            && Infos(chain.0, files) == Infos(s, files)
            && DataChain(chain.0, First(chain.1), chain.1)
            && Contents(chain.0, chain.1) == data
  {
    var h := files[i];
    var n := NumDataBlocks(|data|, max);
    var refs := AllocatedRefs(s, free, n);
    var s2, free2, chains2 := AllocateState(s, free, n), free[Taken(free, n)..], chains[h := refs];
    StoreAllocKeeps(s, files, free, chains, i, n);
    AllocatePopsFreeList(s, free, n);
    StoreRefsInStore(s, free, n);
    var chunks := Chunks(data, max);
    StoreWriteKeeps(s2, files, free2, chains2, i, chunks);
    ChunksFlatten(data, max);
    var s3 := WriteBlocks(s2, refs, chunks, n);
    assert StoreChain(s, free, data, max) == (s3, refs);
    assert Same(s2, s3, files[i]) && Same(s, s2, files[i]);
  }

  /** A second update of the same key overrides the first. */
  lemma UpdateTwice(m: map<Ref, seq<Ref>>, h: Ref, a: seq<Ref>, b: seq<Ref>)
    ensures m[h := a][h := b] == m[h := b]
  {
  }

  /** What `storeFile` stored, `loadFile` gives back. */
  lemma StoreThenLoad(s: Slots, files: seq<Ref>, free: seq<Ref>, chains: map<Ref, seq<Ref>>, i: int,
                      bytes: seq<Byte>, offset: int, length: int, max: nat)
    requires Layout(s, files, free, chains) && 0 <= i < |files|
    requires max > 0 && |s| + |bytes| <= REF_LIMIT
    requires 0 <= offset && 0 <= length < 0x8000_0000 && offset + length <= |bytes|
    ensures CanStore(s, files[i], free, chains[files[i]])
    ensures var h := files[i];
            var r := StoreFileState(s, h, bytes, offset, length, max, free, chains[h]);
            var lists := StoreLists(s, h, free, chains[h], length, max);
            && (forall b | b in lists.1 :: IsDataAt(r.0, b))
            && LoadFileResult(r.0, h, lists.1) == Ok(bytes[offset .. offset + length])
  {
    var h := files[i];
    StoreFileKeepsLayout(s, files, free, chains, i, bytes, offset, length, max);
    var r := StoreFileState(s, h, bytes, offset, length, max, free, chains[h]);
    var lists := StoreLists(s, h, free, chains[h], length, max);
    var chains' := chains[h := lists.1];
    assert chains'[files[i]] == lists.1;
    LoadFileOfLayout(r.0, files, lists.0, chains', i);
  }

  // ---------------------------------------------------------------------------
  // A range outside the array

  /**
   * As written, `storeFile` releases the entry's old chain before wrapping
   * the range, so a range outside the array fails only after the release:
   * the entry still names its old first block, which is now the head of the
   * free list and is the next block `allocate` hands out.
   */
  lemma StoreFileBadRangeReleases(s: Slots, h: Ref, free: seq<Ref>, c: seq<Ref>,
                                  bytes: seq<Byte>, offset: int, length: int, max: nat)
    requires CanStore(s, h, free, c) && At(s, h).firstDataBlock != NIL
    requires max > 0 && |s| + |bytes| <= REF_LIMIT && |s| < REF_LIMIT
    requires offset < 0 || length < 0 || offset + length > |bytes|
    ensures var r := StoreFileState(s, h, bytes, offset, length, max, free, c);
            var released := StoreReleased(s, h, free, c);
            && r == (released.0, Fail(IndexOutOfBounds))
            && released.0[h] == s[h]
            && released.1 == c + free && released.1[0] == At(s, h).firstDataBlock
            && AllocatedRefs(released.0, released.1, 1) == [At(s, h).firstDataBlock]
  {
    var released := StoreReleased(s, h, free, c);
    var first := At(s, h).firstDataBlock;
    assert released.1 == c + free;
    assert released.1[0] == first;
    assert Taken(released.1, 1) == 1;
    assert Fresh(|released.0|, 0) == [];
    assert released.1[..1] == [first];
  }

  /**
   * `storeFile` with the range checked before anything is released: a
   * range outside the array fails and changes nothing, any other range
   * stores as before.
   */
  ghost function StoreFileChecked(s: Slots, h: Ref, bytes: seq<Byte>, offset: int, length: int, max: nat,
                                  free: seq<Ref>, c: seq<Ref>): (r: (Slots, Outcome))
    requires CanStore(s, h, free, c) && max > 0 && |s| + |bytes| <= REF_LIMIT
    ensures (offset < 0 || length < 0 || offset + length > |bytes|) <==> r.1 == Fail(IndexOutOfBounds)
    ensures r.1 == Fail(IndexOutOfBounds) ==> r.0 == s
  {
    if offset < 0 || length < 0 || offset + length > |bytes| then (s, Fail(IndexOutOfBounds))
    else StoreFileState(s, h, bytes, offset, length, max, free, c)
  }

  /** With the range checked first, `storeFile` keeps the layout invariant on every input. */
  lemma StoreFileCheckedKeepsLayout(s: Slots, files: seq<Ref>, free: seq<Ref>, chains: map<Ref, seq<Ref>>, i: int,
                                    bytes: seq<Byte>, offset: int, length: int, max: nat)
    requires Layout(s, files, free, chains) && 0 <= i < |files|
    requires max > 0 && |s| + |bytes| <= REF_LIMIT
    ensures CanStore(s, files[i], free, chains[files[i]])
    ensures var h := files[i];
            var r := StoreFileChecked(s, h, bytes, offset, length, max, free, chains[h]);
            if r.1.Fail? then r.0 == s
            else
              var lists := StoreLists(s, h, free, chains[h], length, max);
              && Layout(r.0, files, lists.0, chains[h := lists.1])
              && (forall b | b in lists.1 :: IsDataAt(r.0, b))
              && Contents(r.0, lists.1) == bytes[offset .. offset + length]
              && Infos(r.0, files) == Infos(s, files)[i := FileInfo(At(s, h).fileName, length, h)]
              && OthersKeepData(s, r.0, files, chains, h)
  {
    LayoutCanStore(s, files, free, chains, i);
    if 0 <= offset && 0 <= length && offset + length <= |bytes| {
      StoreFileKeepsLayout(s, files, free, chains, i, bytes, offset, length, max);
    }
  }
}
