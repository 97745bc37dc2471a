/**
 * The in-memory block store `BlockStorageMock`: an `ArrayList<Block?>` of
 * slots indexed by block reference, grown by `expand`. The backend is
 * modelled over this store. Its blocks are values, as the engine's are: a
 * read hands out the stored value and a write replaces the slot.
 */
module Mock {
  import opened Wrappers
  import opened Blocks

  type Slots = seq<Option<Block>>

  function Nones(n: nat): (s: Slots)
    ensures |s| == n && forall i | 0 <= i < n :: s[i] == None
  {
    if n == 0 then [] else Nones(n - 1) + [None]
  }

  /** What `read*Block(ref)` yields: the stored block when the slot holds one of the requested kind. */
  function ReadSlot(blocks: Slots, ref: Ref, kind: Kind): (r: Result<Block>)
    ensures r.Ok? <==> ref < |blocks| && blocks[ref].Some? && KindOf(blocks[ref].value) == kind
    ensures r.Ok? ==> r.value == blocks[ref].value
    ensures ref >= |blocks| ==> r == Err(IndexOutOfBounds)
    ensures ref < |blocks| && blocks[ref].None? ==> r == Err(NullBlock)
  {
    if ref >= |blocks| then Err(IndexOutOfBounds)
    else if blocks[ref].None? then Err(NullBlock)
    else if KindOf(blocks[ref].value) != kind then Err(ClassCast)
    else Ok(blocks[ref].value)
  }

  class BlockStorageMock {
    const maxBytesPerDataBlock: nat
    var blocks: Slots

    constructor ()
      ensures blocks == [] && maxBytesPerDataBlock == 4
    {
      maxBytesPerDataBlock := 4;
      blocks := [];
    }

    /** Appends `numExtraBlocks` empty slots and returns the reference of the first. */
    method Expand(numExtraBlocks: int) returns (firstAddedBlockRef: Ref)
      requires numExtraBlocks >= 0
      requires |blocks| < 0x1_0000_0000
      modifies this
      ensures firstAddedBlockRef == old(|blocks|)
      ensures blocks == old(blocks) + Nones(numExtraBlocks)
    {
      firstAddedBlockRef := |blocks|;
      var numBlocksAdded := 0;
      while numBlocksAdded < numExtraBlocks
        invariant 0 <= numBlocksAdded <= numExtraBlocks
        invariant blocks == old(blocks) + Nones(numBlocksAdded)
      {
        blocks := blocks + [None];
        numBlocksAdded := numBlocksAdded + 1;
      }
    }

    /** The test-setup helpers `addHeaderIndexBlock` / `addFileIndexBlock` / `addDataBlock`. */
    method Add(b: Block)
      modifies this
      ensures blocks == old(blocks) + [Some(b)]
    {
      blocks := blocks + [Some(b)];
    }

    /** `readHeaderIndexBlock` / `readFileIndexBlock` / `readDataBlock`. */
    method ReadBlock(ref: Ref, kind: Kind) returns (r: Result<Block>)
      ensures r == ReadSlot(blocks, ref, kind)
    {
      if ref >= |blocks| {
        return Err(IndexOutOfBounds);
      }
      var slot := blocks[ref];
      if slot.None? {
        return Err(NullBlock);
      }
      if KindOf(slot.value) != kind {
        return Err(ClassCast);
      }
      r := Ok(slot.value);
    }

    /** `writeHeaderIndexBlock` / `writeFileIndexBlock` / `writeDataBlock`: replaces slot `ref` only. */
    method WriteBlock(ref: Ref, b: Block)
      requires ref < |blocks|
      modifies this
      ensures blocks == old(blocks)[ref := Some(b)]
      ensures |blocks| == old(|blocks|) && forall r | 0 <= r < |blocks| && r != ref :: blocks[r] == old(blocks[r])
    {
      blocks := blocks[ref := Some(b)];
    }
  }
}
