/**
 * Block allocation and release on the free list: what `allocate(n)` and
 * `free(first, last)` of `VirtualFileSystemBackend` do to the slot store,
 * as functions of the store before the call, and the facts that make the
 * free list a LIFO stack of vacant blocks.
 */
module Allocation {
  import opened Wrappers
  import opened Blocks
  import opened Mock
  import opened Lists

  const REF_LIMIT: nat := 0x1_0000_0000

  /** The references `start`, `start+1`, ... handed out for slots appended by `expand`. */
  function Fresh(start: nat, count: nat): (refs: seq<Ref>)
    requires start + count <= REF_LIMIT
    ensures |refs| == count && forall i | 0 <= i < count :: refs[i] == start + i
  {
    if count == 0 then [] else Fresh(start, count - 1) + [(start + count - 1) as Ref]
  }

  /** How many of the `n` blocks come from the free list. */
  function Taken(free: seq<Ref>, n: nat): nat { if n < |free| then n else |free| }

  /** The references `allocate(n)` returns: vacant blocks in list order, then fresh ones. */
  ghost function AllocatedRefs(s: Slots, free: seq<Ref>, n: nat): seq<Ref>
    requires |s| + n <= REF_LIMIT
  {
    var k := Taken(free, n);
    free[..k] + Fresh(|s|, n - k)
  }

  /** The store after `allocate(n)`: the header points past the taken blocks, and the store grew by the shortfall. */
  ghost function AllocateState(s: Slots, free: seq<Ref>, n: nat): Slots
    requires HasHeader(s)
  {
    var k := Taken(free, n);
    var vacant := if k < |free| then free[k] else NIL;
    s[0 := Some(Header(s).(firstVacantBlock := vacant))] + Nones(n - k)
  }

  /** The store after `free(first, last)`: `last` links to the old free-list head and `first` becomes the head. */
  ghost function FreeState(s: Slots, first: Ref, last: Ref): Slots
    requires HasHeader(s) && IsDataAt(s, last)
  {
    var header := Header(s);
    var lastBlock := At(s, last).(nextDataBlock := header.firstVacantBlock);
    s[last := Some(lastBlock)][0 := Some(header.(firstVacantBlock := first))]
  }

  lemma FreshFacts(start: nat, count: nat)
    requires start + count <= REF_LIMIT
    ensures Distinct(Fresh(start, count))
    ensures forall r | r in Fresh(start, count) :: start <= r < start + count
  {
  }

  /**
   * `allocate(n)` pops the first blocks of the free list and appends fresh
   * slots for the rest: it returns `n` distinct non-zero references, the
   * store keeps every old block except the header, and what remains of the
   * free list is again a well-formed free list. No block is lost or
   * duplicated: the returned references and the remaining free list are
   * exactly the old free list and the fresh slots.
   */
  lemma AllocatePopsFreeList(s: Slots, free: seq<Ref>, n: nat)
    requires FreeList(s, free) && |s| + n <= REF_LIMIT
    ensures var k := Taken(free, n);
            var refs := AllocatedRefs(s, free, n);
            var s' := AllocateState(s, free, n);
            && |refs| == n && Distinct(refs) && NIL !in refs
            && refs[..k] == free[..k]
            && (forall i | k <= i < n :: refs[i] == |s| + i - k)
            && |s'| == |s| + (n - k)
            && (forall r | 0 < r < |s| :: s'[r] == s[r])
            && (forall r | |s| <= r < |s'| :: s'[r] == None)
            && FreeList(s', free[k..])
            && multiset(refs) + multiset(free[k..]) == multiset(free) + multiset(Fresh(|s|, n - k))
  {
    FreeListInStore(s, free);
    AllocatedRefsFacts(s, free, n);
    AllocateStateFacts(s, free, n);
  }

  lemma FreeListInStore(s: Slots, free: seq<Ref>)
    requires FreeList(s, free)
    ensures forall i | 0 <= i < |free| :: 0 < free[i] < |s|
  {
    forall i | 0 <= i < |free|
      ensures 0 < free[i] < |s|
    {
      assert IsDataAt(s, free[i]);
    }
  }

  lemma AllocatedRefsFacts(s: Slots, free: seq<Ref>, n: nat)
    requires 0 < |s| && |s| + n <= REF_LIMIT
    requires Distinct(free) && forall i | 0 <= i < |free| :: 0 < free[i] < |s|
    ensures var k := Taken(free, n);
            var refs := AllocatedRefs(s, free, n);
            && |refs| == n && Distinct(refs) && NIL !in refs
            && refs[..k] == free[..k]
            && (forall i | k <= i < n :: refs[i] == |s| + i - k)
            && multiset(refs) + multiset(free[k..]) == multiset(free) + multiset(Fresh(|s|, n - k))
  {
    var k := Taken(free, n);
    var refs := AllocatedRefs(s, free, n);
    var added := Fresh(|s|, n - k);
    assert refs == free[..k] + added;
    forall i, j | 0 <= i < j < |refs|
      ensures refs[i] != refs[j]
    {
      if j < k {
        assert refs[i] == free[i] && refs[j] == free[j];
      } else if i < k {
        assert refs[i] == free[i] && refs[j] == added[j - k];
      } else {
        assert refs[i] == added[i - k] && refs[j] == added[j - k];
      }
    }
    forall i | 0 <= i < |refs|
      ensures refs[i] != NIL
    {
      if i >= k {
        assert refs[i] == added[i - k];
      } else {
        assert refs[i] == free[i];
      }
    }
    assert free == free[..k] + free[k..];
  }

  lemma AllocateStateFacts(s: Slots, free: seq<Ref>, n: nat)
    requires FreeList(s, free)
    ensures var k := Taken(free, n);
            var s' := AllocateState(s, free, n);
            && |s'| == |s| + (n - k)
            && (forall r | 0 < r < |s| :: s'[r] == s[r])
            && (forall r | |s| <= r < |s'| :: s'[r] == None)
            && FreeList(s', free[k..])
  {
    var k := Taken(free, n);
    var s' := AllocateState(s, free, n);
    AllocateStateSlots(s, free, n);
    DataChainSuffix(s, free, k);
    var rest := free[k..];
    forall i | 0 <= i < |rest|
      ensures Same(s, s', rest[i])
    {
      assert rest[i] == free[k + i];
      assert IsDataAt(s, free[k + i]);
    }
    DataChainFrame(s, s', First(rest), rest);
  }

  lemma AllocateStateSlots(s: Slots, free: seq<Ref>, n: nat)
    requires HasHeader(s)
    ensures var k := Taken(free, n);
            var s' := AllocateState(s, free, n);
            && |s'| == |s| + (n - k)
            && HasHeader(s')
            && Header(s').firstVacantBlock == (if k < |free| then free[k] else NIL)
            && Header(s').nextIndexBlock == Header(s).nextIndexBlock
            && Header(s').prevIndexBlock == Header(s).prevIndexBlock
            && (forall r | 0 < r < |s| :: s'[r] == s[r])
            && (forall r | |s| <= r < |s'| :: s'[r] == None)
  {
  }

  /** Every suffix of a chain is the chain from its own first block. */
  lemma DataChainSuffix(s: Slots, c: seq<Ref>, k: nat)
    requires DataChain(s, First(c), c) && k <= |c|
    ensures DataChain(s, First(c[k..]), c[k..])
  {
    var rest := c[k..];
    forall i | 0 <= i < |rest|
      ensures IsDataAt(s, rest[i]) && At(s, rest[i]).nextDataBlock == NextOf(rest, i)
    {
      assert rest[i] == c[k + i];
    }
    forall i, j | 0 <= i < j < |rest|
      ensures rest[i] != rest[j]
    {
      assert rest[i] == c[k + i] && rest[j] == c[k + j];
    }
    forall r | r in rest
      ensures r != NIL
    {
      var i :| 0 <= i < |rest| && rest[i] == r;
      assert rest[i] == c[k + i];
    }
  }

  /**
   * `free(first, last)` pushes a whole chain onto the free list: when
   * `first..last` is a chain disjoint from the free list, the new free list
   * is that chain followed by the old free list. Only `last` and the header
   * are rewritten; the chain itself is never walked.
   */
  lemma FreePushesChain(s: Slots, free: seq<Ref>, c: seq<Ref>)
    requires FreeList(s, free) && c != [] && DataChain(s, c[0], c)
    requires forall r | r in c :: r !in free
    ensures IsDataAt(s, Last(c))
    ensures var s' := FreeState(s, c[0], Last(c));
            && FreeList(s', c + free)
            && |s'| == |s|
            && forall r | 0 < r < |s| && r != Last(c) :: s'[r] == s[r]
  {
    var last := Last(c);
    assert IsDataAt(s, c[|c| - 1]);
    var s' := FreeState(s, c[0], last);
    var l := c + free;
    forall i, j | 0 <= i < j < |l|
      ensures l[i] != l[j]
    {
      if j >= |c| && i < |c| {
        assert l[i] in c && l[j] == free[j - |c|];
      }
    }
    forall i | 0 <= i < |l|
      ensures IsDataAt(s', l[i]) && At(s', l[i]).nextDataBlock == NextOf(l, i)
    {
      if i < |c| {
        assert l[i] == c[i] && IsDataAt(s, c[i]);
        if i < |c| - 1 {
          assert c[i] != last;
        }
      } else {
        assert l[i] == free[i - |c|] && IsDataAt(s, free[i - |c|]);
        assert l[i] !in c;
      }
    }
  }

  /**
   * Allocating right after freeing a chain hands back exactly that chain, in
   * order, and leaves the free list as it was before the free: the free
   * list behaves as a stack.
   */
  lemma FreeThenAllocate(s: Slots, free: seq<Ref>, c: seq<Ref>)
    requires FreeList(s, free) && c != [] && DataChain(s, c[0], c)
    requires forall r | r in c :: r !in free
    requires |s| + |c| <= REF_LIMIT
    ensures IsDataAt(s, Last(c))
    ensures var s' := FreeState(s, c[0], Last(c));
            && AllocatedRefs(s', c + free, |c|) == c
            && FreeList(AllocateState(s', c + free, |c|), free)
  {
    FreePushesChain(s, free, c);
    var s' := FreeState(s, c[0], Last(c));
    AllocatePopsFreeList(s', c + free, |c|);
    assert (c + free)[..|c|] == c;
    assert (c + free)[|c|..] == free;
  }

  /** The allocation tests: free list 1 -> 2; one block is taken from it, or three with one fresh block. */
  lemma AllocateScenarios()
    ensures var s := [Some(HeaderIndexBlock(0, 0, 1, 0)), Some(DataBlock(2, [])), Some(DataBlock(0, []))];
            && AllocatedRefs(s, [1, 2], 1) == [1]
            && Header(AllocateState(s, [1, 2], 1)).firstVacantBlock == 2
            && AllocateState(s, [1, 2], 1)[2] == Some(DataBlock(0, []))
            && AllocatedRefs(s, [1, 2], 3) == [1, 2, 3]
            && Header(AllocateState(s, [1, 2], 3)).firstVacantBlock == 0
  {
    var s := [Some(HeaderIndexBlock(0, 0, 1, 0)), Some(DataBlock(2, [])), Some(DataBlock(0, []))];
    assert Fresh(3, 1) == [3];
  }

  /**
   * The test that frees the chain 2 -> 4 onto the free list 1 -> 3: the
   * free list becomes 2, 4, 1, 3.
   */
  lemma FreeScenario()
    ensures var s := [Some(HeaderIndexBlock(0, 0, 1, 0)), Some(DataBlock(3, [])), Some(DataBlock(4, [])),
                      Some(DataBlock(0, [])), Some(DataBlock(0, []))];
            FreeList(FreeState(s, 2, 4), [2, 4, 1, 3])
  {
    var s := [Some(HeaderIndexBlock(0, 0, 1, 0)), Some(DataBlock(3, [])), Some(DataBlock(4, [])),
              Some(DataBlock(0, [])), Some(DataBlock(0, []))];
    assert FreeList(s, [1, 3]);
    assert DataChain(s, 2, [2, 4]);
    FreePushesChain(s, [1, 3], [2, 4]);
    assert [2, 4] + [1, 3] == [2, 4, 1, 3];
  }
}
