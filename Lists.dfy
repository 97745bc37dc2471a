/**
 * The three kinds of linked lists the backend threads through the block
 * store, stated over the slot sequence of the in-memory store:
 *  - the free list: a LIFO chain of vacant data blocks, linked through
 *    `nextDataBlock` from the header's `firstVacantBlock`;
 *  - the file index: a doubly linked list of file-index blocks, anchored in
 *    the header's `nextIndexBlock` / `prevIndexBlock`;
 *  - one data chain per file, linked through `nextDataBlock` from the entry's
 *    `firstDataBlock` to its `lastDataBlock`.
 * Reference 0 is the header's slot and, inside a link, the end of a list.
 * A list is described by the ghost sequence of the references it visits.
 */
module Lists {
  import opened Wrappers
  import opened Blocks
  import opened Mock

  predicate HasHeader(s: Slots) { |s| > 0 && s[0].Some? && s[0].value.HeaderIndexBlock? }

  function Header(s: Slots): Block
    requires HasHeader(s)
  {
    s[0].value
  }

  predicate IsDataAt(s: Slots, r: int) { 0 <= r < |s| && s[r].Some? && s[r].value.DataBlock? }

  predicate IsFileAt(s: Slots, r: int) { 0 <= r < |s| && s[r].Some? && s[r].value.FileIndexBlock? }

  function At(s: Slots, r: int): Block
    requires 0 <= r < |s| && s[r].Some?
  {
    s[r].value
  }

  /** Slot `r` holds the same thing in both stores. */
  predicate Same(s: Slots, s': Slots, r: int) { 0 <= r < |s| && r < |s'| && s'[r] == s[r] }

  function First(c: seq<Ref>): Ref { if c == [] then NIL else c[0] }

  function Last(c: seq<Ref>): Ref { if c == [] then NIL else c[|c| - 1] }

  /** The link stored after position `i` of a list: the next reference, or 0 at the end. */
  function NextOf(c: seq<Ref>, i: int): Ref
    requires 0 <= i < |c|
  {
    if i + 1 < |c| then c[i + 1] else NIL
  }

  function PrevOf(c: seq<Ref>, i: int): Ref
    requires 0 <= i < |c|
  {
    if i > 0 then c[i - 1] else NIL
  }

  predicate Distinct(c: seq<Ref>) { forall i, j | 0 <= i < j < |c| :: c[i] != c[j] }

  /** `c` lists the data blocks reached from `first` through `nextDataBlock` until 0. */
  ghost predicate DataChain(s: Slots, first: Ref, c: seq<Ref>) {
    && First(c) == first
    && NIL !in c
    && Distinct(c)
    && forall i | 0 <= i < |c| :: IsDataAt(s, c[i]) && At(s, c[i]).nextDataBlock == NextOf(c, i)
  }

  ghost predicate FreeList(s: Slots, free: seq<Ref>) {
    HasHeader(s) && DataChain(s, Header(s).firstVacantBlock, free)
  }

  /** `files` lists the file-index blocks of the doubly linked index, head first. */
  ghost predicate IndexList(s: Slots, files: seq<Ref>) {
    && HasHeader(s)
    && Header(s).nextIndexBlock == First(files)
    && Header(s).prevIndexBlock == Last(files)
    && NIL !in files
    && Distinct(files)
    && forall i | 0 <= i < |files| ::
         && IsFileAt(s, files[i])
         && At(s, files[i]).nextIndexBlock == NextOf(files, i)
         && At(s, files[i]).prevIndexBlock == PrevOf(files, i)
  }

  /** The payloads of a chain's blocks, concatenated in chain order. */
  ghost function Contents(s: Slots, c: seq<Ref>): seq<Byte>
    requires forall i | 0 <= i < |c| :: IsDataAt(s, c[i])
  {
    if c == [] then []
    else
      assert IsDataAt(s, c[0]);
      At(s, c[0]).fileData + Contents(s, c[1..])
  }

  /** File entry `f` owns the data chain `c` and records its ends and its total length. */
  ghost predicate FileChain(s: Slots, f: Ref, c: seq<Ref>) {
    && IsFileAt(s, f)
    && DataChain(s, At(s, f).firstDataBlock, c)
    && At(s, f).lastDataBlock == Last(c)
    && At(s, f).fileSize == |Contents(s, c)|
  }

  /** Every block owned by some file of `files`, counted with multiplicity. */
  function ChainCensus(chains: map<Ref, seq<Ref>>, files: seq<Ref>): multiset<Ref>
    requires forall i | 0 <= i < |files| :: files[i] in chains
  {
    if files == [] then multiset{} else multiset(chains[files[0]]) + ChainCensus(chains, files[1..])
  }

  /** Every block the layout accounts for: index entries, vacant blocks and file data. */
  function Census(files: seq<Ref>, free: seq<Ref>, chains: map<Ref, seq<Ref>>): multiset<Ref>
    requires forall i | 0 <= i < |files| :: files[i] in chains
  {
    multiset(files) + multiset(free) + ChainCensus(chains, files)
  }

  predicate NoDup(m: multiset<Ref>) { forall r | r in m :: m[r] == 1 }

  /**
   * The backend's store invariant: a header at 0, a well-formed index and free
   * list, one well-formed chain per file, every block in at most one list and
   * every block other than the header in some list (no block is leaked).
   */
  ghost predicate Layout(s: Slots, files: seq<Ref>, free: seq<Ref>, chains: map<Ref, seq<Ref>>) {
    && IndexList(s, files)
    && FreeList(s, free)
    && (forall i | 0 <= i < |files| :: files[i] in chains && FileChain(s, files[i], chains[files[i]]))
    && NoDup(Census(files, free, chains))
    && forall r | 0 < r < |s| :: r in Census(files, free, chains)
  }

  // ---------------------------------------------------------------------------
  // Lists are determined by the store

  /** The chain from a given first block is unique: the ghost witness is canonical. */
  lemma {:induction false} DataChainUnique(s: Slots, first: Ref, c1: seq<Ref>, c2: seq<Ref>)
    requires DataChain(s, first, c1) && DataChain(s, first, c2)
    ensures c1 == c2
    decreases |c1|
  {
    if c1 != [] && c2 != [] {
      var next := At(s, c1[0]).nextDataBlock;
      DataChainTail(s, c1);
      DataChainTail(s, c2);
      DataChainUnique(s, next, c1[1..], c2[1..]);
      assert c1 == [c1[0]] + c1[1..];
      assert c2 == [c2[0]] + c2[1..];
    }
  }

  lemma DataChainTail(s: Slots, c: seq<Ref>)
    requires c != [] && DataChain(s, First(c), c)
    ensures DataChain(s, At(s, c[0]).nextDataBlock, c[1..])
  {
    var t := c[1..];
    forall i | 0 <= i < |t|
      ensures IsDataAt(s, t[i]) && At(s, t[i]).nextDataBlock == NextOf(t, i)
    {
      assert t[i] == c[i + 1];
    }
  }

  /** A data block whose link leads to a chain, and is not in it, heads the longer chain. */
  lemma DataChainCons(s: Slots, h: Ref, c: seq<Ref>)
    requires IsDataAt(s, h) && h != NIL && h !in c
    requires DataChain(s, At(s, h).nextDataBlock, c)
    ensures DataChain(s, h, [h] + c)
  {
    var l := [h] + c;
    forall k | 0 <= k < |l|
      ensures IsDataAt(s, l[k]) && At(s, l[k]).nextDataBlock == NextOf(l, k)
    {
      if k > 0 {
        assert l[k] == c[k - 1];
      }
    }
    forall a, b | 0 <= a < b < |l|
      ensures l[a] != l[b]
    {
      assert l[b] == c[b - 1] && c[b - 1] in c;
      if a > 0 {
        assert l[a] == c[a - 1];
      }
    }
    assert NIL !in l by {
      assert l == [h] + c;
    }
  }

  // ---------------------------------------------------------------------------
  // Frames: a list survives any change to blocks outside it

  lemma DataChainFrame(s: Slots, s': Slots, first: Ref, c: seq<Ref>)
    requires DataChain(s, first, c)
    requires forall i | 0 <= i < |c| :: Same(s, s', c[i])
    ensures DataChain(s', first, c)
    ensures Contents(s', c) == Contents(s, c)
  {
    ContentsFrame(s, s', c);
  }

  lemma {:induction false} ContentsFrame(s: Slots, s': Slots, c: seq<Ref>)
    requires forall i | 0 <= i < |c| :: IsDataAt(s, c[i]) && Same(s, s', c[i])
    ensures forall i | 0 <= i < |c| :: IsDataAt(s', c[i])
    ensures Contents(s', c) == Contents(s, c)
    decreases |c|
  {
    if c != [] {
      ContentsFrame(s, s', c[1..]);
    }
  }

  /** Entry `f` is a file-index block in both stores with the same data-chain fields; its index links may differ. */
  predicate SameEntry(s: Slots, s': Slots, f: int) {
    && IsFileAt(s, f) && IsFileAt(s', f)
    && At(s', f).firstDataBlock == At(s, f).firstDataBlock
    && At(s', f).lastDataBlock == At(s, f).lastDataBlock
    && At(s', f).fileSize == At(s, f).fileSize
    && At(s', f).fileName == At(s, f).fileName
  }

  lemma FileChainFrame(s: Slots, s': Slots, f: Ref, c: seq<Ref>)
    requires FileChain(s, f, c)
    requires SameEntry(s, s', f)
    requires forall i | 0 <= i < |c| :: Same(s, s', c[i])
    ensures FileChain(s', f, c)
  {
    DataChainFrame(s, s', At(s, f).firstDataBlock, c);
  }

  /** Rewriting a file-index block leaves every data chain, and what it holds, alone. */
  lemma DataChainOverEntry(s: Slots, h: Ref, b: Block, first: Ref, c: seq<Ref>)
    requires DataChain(s, first, c) && IsFileAt(s, h)
    ensures DataChain(s[h := Some(b)], first, c)
    ensures Contents(s[h := Some(b)], c) == Contents(s, c)
  {
    var s' := s[h := Some(b)];
    forall k | 0 <= k < |c|
      ensures Same(s, s', c[k])
    {
      assert IsDataAt(s, c[k]);
    }
    DataChainFrame(s, s', first, c);
  }

  /** Rewriting another file's entry leaves a file's chain alone. */
  lemma FileChainOverEntry(s: Slots, h: Ref, b: Block, f: Ref, c: seq<Ref>)
    requires FileChain(s, f, c) && IsFileAt(s, h) && SameEntry(s, s[h := Some(b)], f)
    ensures FileChain(s[h := Some(b)], f, c)
  {
    DataChainOverEntry(s, h, b, At(s, f).firstDataBlock, c);
  }

  /** Every file keeps its chain when no entry's chain fields and no chain block change. */
  lemma ChainsFrame(s: Slots, s': Slots, files: seq<Ref>, chains: map<Ref, seq<Ref>>)
    requires forall i | 0 <= i < |files| :: files[i] in chains && FileChain(s, files[i], chains[files[i]])
    requires forall i | 0 <= i < |files| :: SameEntry(s, s', files[i])
    requires forall i, r | 0 <= i < |files| && r in chains[files[i]] :: Same(s, s', r)
    ensures forall i | 0 <= i < |files| :: FileChain(s', files[i], chains[files[i]])
  {
    forall i | 0 <= i < |files|
      ensures FileChain(s', files[i], chains[files[i]])
    {
      var c := chains[files[i]];
      forall k | 0 <= k < |c|
        ensures Same(s, s', c[k])
      {
        assert c[k] in c;
      }
      FileChainFrame(s, s', files[i], c);
    }
  }

  lemma FreeListFrame(s: Slots, s': Slots, free: seq<Ref>)
    requires FreeList(s, free)
    requires HasHeader(s') && Header(s').firstVacantBlock == Header(s).firstVacantBlock
    requires forall i | 0 <= i < |free| :: Same(s, s', free[i])
    ensures FreeList(s', free)
  {
    DataChainFrame(s, s', Header(s).firstVacantBlock, free);
  }

  lemma IndexListFrame(s: Slots, s': Slots, files: seq<Ref>)
    requires IndexList(s, files)
    requires HasHeader(s')
    requires Header(s').nextIndexBlock == Header(s).nextIndexBlock
    requires Header(s').prevIndexBlock == Header(s).prevIndexBlock
    requires forall i | 0 <= i < |files| :: Same(s, s', files[i])
    ensures IndexList(s', files)
    ensures Infos(s', files) == Infos(s, files)
  {
  }

  // ---------------------------------------------------------------------------
  // The file index as `buildIndex` reports it

  /** `VirtualFileInfo`: a file's name, size and handle. */
  datatype FileInfo = FileInfo(name: Name, size: Int64, handle: Ref)

  /** The (name, size, handle) triples of the entries `files`, in list order. */
  ghost function Infos(s: Slots, files: seq<Ref>): seq<FileInfo>
    requires forall i | 0 <= i < |files| :: IsFileAt(s, files[i])
  {
    seq(|files|, i requires 0 <= i < |files| && IsFileAt(s, files[i]) => InfoOf(s, files[i]))
  }

  ghost function InfoOf(s: Slots, f: Ref): FileInfo
    requires IsFileAt(s, f)
  {
    FileInfo(At(s, f).fileName, At(s, f).fileSize, f)
  }
  /** The listing changes only where one entry's reported name or size does. */
  lemma InfosUpdate(s: Slots, s': Slots, files: seq<Ref>, i: int, info: FileInfo)
    requires 0 <= i < |files|
    requires forall j | 0 <= j < |files| :: IsFileAt(s, files[j]) && IsFileAt(s', files[j])
    requires forall j | 0 <= j < |files| :: InfoOf(s', files[j]) == (if j == i then info else InfoOf(s, files[j]))
    ensures Infos(s', files) == Infos(s, files)[i := info]
  {
    var infos, infos' := Infos(s, files), Infos(s', files);
    assert |infos'| == |infos[i := info]|;
    forall j | 0 <= j < |files|
      ensures infos'[j] == infos[i := info][j]
    {
    }
  }


  // ---------------------------------------------------------------------------
  // Contents

  lemma {:induction false} ContentsAppend(s: Slots, a: seq<Ref>, b: seq<Ref>)
    requires forall i | 0 <= i < |a| :: IsDataAt(s, a[i])
    requires forall i | 0 <= i < |b| :: IsDataAt(s, b[i])
    ensures forall i | 0 <= i < |a + b| :: IsDataAt(s, (a + b)[i])
    ensures Contents(s, a + b) == Contents(s, a) + Contents(s, b)
    decreases |a|
  {
    if a == [] {
      assert a + b == b;
    } else {
      assert (a + b)[1..] == a[1..] + b;
      ContentsAppend(s, a[1..], b);
    }
  }

  // ---------------------------------------------------------------------------
  // Census algebra

  lemma {:induction false} ChainCensusAppend(chains: map<Ref, seq<Ref>>, a: seq<Ref>, b: seq<Ref>)
    requires forall i | 0 <= i < |a| :: a[i] in chains
    requires forall i | 0 <= i < |b| :: b[i] in chains
    ensures forall i | 0 <= i < |a + b| :: (a + b)[i] in chains
    ensures ChainCensus(chains, a + b) == ChainCensus(chains, a) + ChainCensus(chains, b)
    decreases |a|
  {
    if a == [] {
      assert a + b == b;
    } else {
      assert (a + b)[1..] == a[1..] + b;
      ChainCensusAppend(chains, a[1..], b);
    }
  }

  /** Changing the chains of files outside `files` does not change their census. */
  lemma {:induction false} ChainCensusAgree(chains: map<Ref, seq<Ref>>, chains': map<Ref, seq<Ref>>, files: seq<Ref>)
    requires forall i | 0 <= i < |files| :: files[i] in chains && files[i] in chains' && chains'[files[i]] == chains[files[i]]
    ensures ChainCensus(chains', files) == ChainCensus(chains, files)
    decreases |files|
  {
    if files != [] {
      ChainCensusAgree(chains, chains', files[1..]);
    }
  }

  /** The census split around the file at position `i`. */
  lemma ChainCensusSplit(chains: map<Ref, seq<Ref>>, files: seq<Ref>, i: int)
    requires forall k | 0 <= k < |files| :: files[k] in chains
    requires 0 <= i < |files|
    ensures ChainCensus(chains, files) ==
            ChainCensus(chains, files[..i]) + multiset(chains[files[i]]) + ChainCensus(chains, files[i + 1..])
    ensures ChainCensus(chains, files[..i] + files[i + 1..]) ==
            ChainCensus(chains, files[..i]) + ChainCensus(chains, files[i + 1..])
  {
    assert files == files[..i] + files[i..];
    ChainCensusAppend(chains, files[..i], files[i..]);
    assert files[i..][1..] == files[i + 1..];
    ChainCensusAppend(chains, files[..i], files[i + 1..]);
  }

  /** A block counted in the census of files lies in the chain of one of them. */
  lemma {:induction false} ChainCensusMember(chains: map<Ref, seq<Ref>>, files: seq<Ref>, r: Ref) returns (k: nat)
    requires forall i | 0 <= i < |files| :: files[i] in chains
    requires r in ChainCensus(chains, files)
    ensures k < |files| && r in chains[files[k]]
    decreases |files|
  {
    if r in multiset(chains[files[0]]) {
      k := 0;
    } else {
      var k' := ChainCensusMember(chains, files[1..], r);
      k := k' + 1;
    }
  }

  lemma NotInBoth(m: multiset<Ref>, a: multiset<Ref>, b: multiset<Ref>, r: Ref)
    requires NoDup(m) && a + b <= m && r in a
    ensures r !in b
  {
    assert r in m;
    assert (a + b)[r] == a[r] + b[r] <= m[r];
  }

  /** The chain of each file lies within the census of all files. */
  lemma {:induction false} OneChain(chains: map<Ref, seq<Ref>>, files: seq<Ref>, j: int)
    requires forall k | 0 <= k < |files| :: files[k] in chains
    requires 0 <= j < |files|
    ensures multiset(chains[files[j]]) <= ChainCensus(chains, files)
    decreases |files|
  {
    if j > 0 {
      OneChain(chains, files[1..], j - 1);
      assert files[1..][j - 1] == files[j];
    }
  }

  /** The multiset of two different files' chains lies within the census of all files. */
  lemma {:induction false} TwoChains(chains: map<Ref, seq<Ref>>, files: seq<Ref>, i: int, j: int)
    requires forall k | 0 <= k < |files| :: files[k] in chains
    requires 0 <= i < j < |files|
    ensures multiset(chains[files[i]]) + multiset(chains[files[j]]) <= ChainCensus(chains, files)
    decreases |files|
  {
    var tail := ChainCensus(chains, files[1..]);
    assert ChainCensus(chains, files) == multiset(chains[files[0]]) + tail;
    assert files[1..][j - 1] == files[j];
    if i == 0 {
      OneChain(chains, files[1..], j - 1);
    } else {
      TwoChains(chains, files[1..], i - 1, j - 1);
      assert files[1..][i - 1] == files[i];
    }
  }

  lemma EntryNotElsewhere(files: seq<Ref>, free: seq<Ref>, chains: map<Ref, seq<Ref>>, i: int)
    requires forall k | 0 <= k < |files| :: files[k] in chains
    requires NoDup(Census(files, free, chains))
    requires 0 <= i < |files|
    ensures files[i] !in free
    ensures files[i] !in ChainCensus(chains, files)
  {
    var m := Census(files, free, chains);
    NotInBoth(m, multiset(files), multiset(free), files[i]);
    NotInBoth(m, multiset(files), ChainCensus(chains, files), files[i]);
  }

  lemma ChainNotElsewhere(files: seq<Ref>, free: seq<Ref>, chains: map<Ref, seq<Ref>>, i: int, r: Ref)
    requires forall k | 0 <= k < |files| :: files[k] in chains
    requires NoDup(Census(files, free, chains))
    requires 0 <= i < |files| && r in chains[files[i]]
    ensures r !in free && r !in files
  {
    var m := Census(files, free, chains);
    ChainCensusSplit(chains, files, i);
    NotInBoth(m, ChainCensus(chains, files), multiset(free), r);
    NotInBoth(m, ChainCensus(chains, files), multiset(files), r);
  }

  lemma ChainsApart(files: seq<Ref>, free: seq<Ref>, chains: map<Ref, seq<Ref>>, i: int, j: int, r: Ref)
    requires forall k | 0 <= k < |files| :: files[k] in chains
    requires NoDup(Census(files, free, chains))
    requires 0 <= i < |files| && 0 <= j < |files| && i != j && r in chains[files[i]]
    ensures r !in chains[files[j]]
  {
    var m := Census(files, free, chains);
    var lo, hi := if i < j then i else j, if i < j then j else i;
    TwoChains(chains, files, lo, hi);
    var a, b := multiset(chains[files[i]]), multiset(chains[files[j]]);
    assert a + b == multiset(chains[files[lo]]) + multiset(chains[files[hi]]);
    NotInBoth(m, a, b, r);
  }

  /**
   * Under the layout invariant, the lists are pairwise disjoint: an index
   * entry is never vacant nor file data, a vacant block is no file's data,
   * and two files share no data block.
   */
  lemma LayoutDisjoint(s: Slots, files: seq<Ref>, free: seq<Ref>, chains: map<Ref, seq<Ref>>, i: int)
    requires Layout(s, files, free, chains)
    requires 0 <= i < |files|
    ensures files[i] !in free
    ensures forall j | 0 <= j < |files| :: files[i] !in chains[files[j]]
    ensures forall r | r in chains[files[i]] :: r !in free && r !in files
    ensures forall j, r | 0 <= j < |files| && j != i && r in chains[files[i]] :: r !in chains[files[j]]
  {
    EntryNotElsewhere(files, free, chains, i);
    forall j | 0 <= j < |files|
      ensures files[i] !in chains[files[j]]
    {
      ChainCensusSplit(chains, files, j);
    }
    forall r | r in chains[files[i]]
      ensures r !in free && r !in files
    {
      ChainNotElsewhere(files, free, chains, i, r);
    }
    forall j, r | 0 <= j < |files| && j != i && r in chains[files[i]]
      ensures r !in chains[files[j]]
    {
      ChainsApart(files, free, chains, i, j, r);
    }
  }

  /**
   * Every file of `files` other than `h` holds the same bytes in `s'` as
   * in `s`, each block of its chain being a data block in both.
   */
  ghost predicate OthersKeepData(s: Slots, s': Slots, files: seq<Ref>, chains: map<Ref, seq<Ref>>, h: Ref) {
    forall j | 0 <= j < |files| && files[j] != h && files[j] in chains ::
      && (forall k | 0 <= k < |chains[files[j]]| :: IsDataAt(s, chains[files[j]][k]) && IsDataAt(s', chains[files[j]][k]))
      && Contents(s', chains[files[j]]) == Contents(s, chains[files[j]])
  }

  /**
   * Under the layout, a change confined to the header, the index entries,
   * the vacant blocks, the chain of `h` (when `h` is a file) and slots past
   * the end of the store keeps the bytes of every other file.
   */
  lemma OthersKeepDataIntro(s: Slots, s': Slots, files: seq<Ref>, free: seq<Ref>, chains: map<Ref, seq<Ref>>, h: Ref)
    requires Layout(s, files, free, chains) && |s'| >= |s|
    requires forall r | 0 < r < |s| && r !in files && r !in free && (h in files ==> r !in chains[h]) :: s'[r] == s[r]
    ensures OthersKeepData(s, s', files, chains, h)
  {
    forall j | 0 <= j < |files| && files[j] != h && files[j] in chains
      ensures forall k | 0 <= k < |chains[files[j]]| :: IsDataAt(s, chains[files[j]][k]) && IsDataAt(s', chains[files[j]][k])
      ensures Contents(s', chains[files[j]]) == Contents(s, chains[files[j]])
    {
      var c := chains[files[j]];
      LayoutDisjoint(s, files, free, chains, j);
      forall k | 0 <= k < |c|
        ensures IsDataAt(s, c[k]) && Same(s, s', c[k])
      {
        assert IsDataAt(s, c[k]) && c[k] != NIL;
        if h in files {
          var i :| 0 <= i < |files| && files[i] == h;
          assert c[k] !in chains[files[i]];
        }
      }
      ContentsFrame(s, s', c);
    }
  }

  /** Every block the census counts is a block of the store, other than the header. */
  lemma CensusInStore(s: Slots, files: seq<Ref>, free: seq<Ref>, chains: map<Ref, seq<Ref>>, r: Ref)
    requires Layout(s, files, free, chains)
    requires r in Census(files, free, chains)
    ensures 0 < r < |s|
  {
    if r in files {
      var i :| 0 <= i < |files| && files[i] == r;
    } else if r in free {
      var i :| 0 <= i < |free| && free[i] == r;
    } else {
      var k := ChainCensusMember(chains, files, r);
      var c := chains[files[k]];
      var i :| 0 <= i < |c| && c[i] == r;
    }
  }
}
