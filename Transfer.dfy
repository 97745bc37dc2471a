/**
 * Moving a file's bytes between the caller and its data chain: the array
 * `loadFile` fills from the chain's payloads, and the blocks `storeFile`
 * cuts the bytes into and writes, each linked to the next.
 */
module Transfer {
  import opened Wrappers
  import opened Blocks
  import opened Codec
  import opened Mock
  import opened Lists

  /** Kotlin `Long.toInt()`: the low 32 bits, read as a signed `Int`. */
  function LongToInt(x: Int64): (r: Int32)
    ensures 0 <= x < 0x8000_0000 ==> r == x
    ensures (x - r) % 0x1_0000_0000 == 0
  {
    Signed32(x % 0x1_0000_0000)
  }

  /**
   * The `size`-byte array `loadFile` returns for a chain whose payloads are
   * `contents`: their first `size` bytes, zero-padded when they are shorter.
   */
  function LoadBytes(contents: seq<Byte>, size: nat): (bytes: seq<Byte>)
    ensures |bytes| == size
    ensures forall k | 0 <= k < size :: bytes[k] == (if k < |contents| then contents[k] else 0)
  {
    if size <= |contents| then contents[..size] else contents + Zeros(size - |contents|)
  }

  /** Loading as many bytes as the chain holds gives back exactly its payloads. */
  lemma LoadBytesExact(contents: seq<Byte>)
    ensures LoadBytes(contents, |contents|) == contents
  {
  }

  // ---------------------------------------------------------------------------
  // Cutting bytes into data blocks

  /** How many data blocks `storeFile` asks for to hold `length > 0` bytes, `max` per block. */
  function NumDataBlocks(length: nat, max: nat): (n: nat)
    requires length > 0 && max > 0
    ensures 0 < n <= length
  {
    DivAtMost(length - 1, max);
    1 + (length - 1) / max
  }

  lemma DivAtMost(a: nat, max: nat)
    requires max > 0
    ensures a / max <= a
  {
    assert a == (a / max) * max + a % max;
    MulMono(1, max, a / max);
  }

  /** The fewest blocks that hold the bytes: all but the last are full, the last holds at least one byte. */
  lemma NumDataBlocksBounds(length: nat, max: nat)
    requires length > 0 && max > 0
    ensures (NumDataBlocks(length, max) - 1) * max < length <= NumDataBlocks(length, max) * max
  {
    var q := (length - 1) / max;
    assert length - 1 == q * max + (length - 1) % max;
  }

  lemma MulMono(a: nat, b: nat, max: nat)
    requires a <= b
    ensures a * max <= b * max
  {
  }

  /** Where the `k`-th block's payload starts and ends. */
  lemma ChunkBounds(length: nat, max: nat, k: nat)
    requires length > 0 && max > 0 && k < NumDataBlocks(length, max)
    ensures k * max < length
    ensures k + 1 < NumDataBlocks(length, max) ==> k * max + max < length
  {
    var n := NumDataBlocks(length, max);
    NumDataBlocksBounds(length, max);
    MulMono(k, n - 1, max);
    if k + 1 < n {
      MulMono(k + 1, n - 1, max);
    }
  }

  /** The payload of the `k`-th block `storeFile` writes: `max` bytes, and what remains in the last one. */
  function Chunk(data: seq<Byte>, max: nat, k: nat): (chunk: seq<Byte>)
    requires |data| > 0 && max > 0 && k < NumDataBlocks(|data|, max)
    ensures 0 < |chunk| <= max
    ensures k + 1 < NumDataBlocks(|data|, max) ==> |chunk| == max
    ensures k * max + |chunk| <= |data| && chunk == data[k * max .. k * max + |chunk|]
  {
    ChunkBounds(|data|, max, k);
    NumDataBlocksBounds(|data|, max);
    if k + 1 < NumDataBlocks(|data|, max) then data[k * max .. k * max + max] else data[k * max ..]
  }

  /** The payloads of the blocks `storeFile` writes, in chain order. */
  function Chunks(data: seq<Byte>, max: nat): (chunks: seq<seq<Byte>>)
    requires |data| > 0 && max > 0
    ensures |chunks| == NumDataBlocks(|data|, max)
  {
    seq(NumDataBlocks(|data|, max), k requires 0 <= k < NumDataBlocks(|data|, max) => Chunk(data, max, k))
  }

  /** Concatenation of payloads, in order. */
  function Flatten(chunks: seq<seq<Byte>>): (bytes: seq<Byte>)
  {
    if chunks == [] then [] else chunks[0] + Flatten(chunks[1..])
  }

  /** Cutting loses and reorders nothing: the payloads put back together are the bytes. */
  lemma ChunksFlatten(data: seq<Byte>, max: nat)
    requires |data| > 0 && max > 0
    ensures Flatten(Chunks(data, max)) == data
  {
    ChunksFrom(data, max, 0);
  }

  lemma {:induction false} ChunksFrom(data: seq<Byte>, max: nat, k: nat)
    requires |data| > 0 && max > 0 && k < NumDataBlocks(|data|, max)
    ensures k * max < |data|
    ensures Flatten(Chunks(data, max)[k..]) == data[k * max ..]
    decreases NumDataBlocks(|data|, max) - k
  {
    var chunks := Chunks(data, max);
    ChunkBounds(|data|, max, k);
    FlattenFrom(chunks, k);
    if k + 1 < |chunks| {
      ChunksFrom(data, max, k + 1);
      ChunkStep(data, max, k);
    } else {
      assert chunks[k + 1..] == [];
      assert chunks[k] == data[k * max..];
    }
  }

  lemma FlattenFrom(chunks: seq<seq<Byte>>, k: nat)
    requires k < |chunks|
    ensures Flatten(chunks[k..]) == chunks[k] + Flatten(chunks[k + 1..])
  {
    assert chunks[k..][1..] == chunks[k + 1..];
  }

  /** A block that is not the last holds `max` bytes, so the rest of the data starts one block further on. */
  lemma ChunkStep(data: seq<Byte>, max: nat, k: nat)
    requires |data| > 0 && max > 0 && k + 1 < NumDataBlocks(|data|, max)
    ensures (k + 1) * max <= |data|
    ensures data[k * max..] == Chunk(data, max, k) + data[(k + 1) * max..]
  {
    var p, q := k * max, (k + 1) * max;
    var c := Chunk(data, max, k);
    MulSucc(k, max);
    assert q == p + |c|;
    SliceSplit(data, p, q);
  }

  lemma SliceSplit(data: seq<Byte>, p: nat, q: nat)
    requires p <= q <= |data|
    ensures data[p..] == data[p .. q] + data[q..]
  {
  }

  lemma MulSucc(k: nat, max: nat)
    ensures (k + 1) * max == k * max + max
  {
  }

  /** `storeFile` of six bytes at four bytes per block: two blocks, [1, 2, 3, 4] and [5, 6]. */
  lemma ChunksScenario()
    ensures Chunks([1, 2, 3, 4, 5, 6], 4) == [[1, 2, 3, 4], [5, 6]]
  {
    var data: seq<Byte> := [1, 2, 3, 4, 5, 6];
    assert NumDataBlocks(6, 4) == 2;
    assert Chunk(data, 4, 0) == [1, 2, 3, 4];
    assert Chunk(data, 4, 1) == [5, 6];
  }

  // ---------------------------------------------------------------------------
  // Writing the blocks

  /** The store once the first `k` of the blocks `refs` hold their payloads, each linked to the next. */
  function WriteBlocks(s: Slots, refs: seq<Ref>, chunks: seq<seq<Byte>>, k: nat): (s': Slots)
    requires |refs| == |chunks| && k <= |refs|
    requires forall j | 0 <= j < |refs| :: refs[j] < |s|
    ensures |s'| == |s|
  {
    if k == 0 then s
    else WriteBlocks(s, refs, chunks, k - 1)[refs[k - 1] := Some(DataBlock(NextOf(refs, k - 1), chunks[k - 1]))]
  }

  /** Each of the first `k` blocks holds its payload and links to the next reference. */
  lemma {:induction false} WriteBlocksAt(s: Slots, refs: seq<Ref>, chunks: seq<seq<Byte>>, k: nat, j: nat)
    requires |refs| == |chunks| && k <= |refs| && Distinct(refs)
    requires forall i | 0 <= i < |refs| :: refs[i] < |s|
    requires j < k
    ensures WriteBlocks(s, refs, chunks, k)[refs[j]] == Some(DataBlock(NextOf(refs, j), chunks[j]))
    decreases k
  {
    if j < k - 1 {
      WriteBlocksAt(s, refs, chunks, k - 1, j);
      assert refs[j] != refs[k - 1];
    }
  }

  /** Every other slot is left alone. */
  lemma {:induction false} WriteBlocksElsewhere(s: Slots, refs: seq<Ref>, chunks: seq<seq<Byte>>, k: nat, r: int)
    requires |refs| == |chunks| && k <= |refs|
    requires forall i | 0 <= i < |refs| :: refs[i] < |s|
    requires 0 <= r < |s| && r !in refs
    ensures WriteBlocks(s, refs, chunks, k)[r] == s[r]
    decreases k
  {
    if k > 0 {
      WriteBlocksElsewhere(s, refs, chunks, k - 1, r);
      assert refs[k - 1] in refs;
    }
  }

  /**
   * Once all blocks are written, `refs` is a data chain from its first
   * reference whose payloads, put together, are the chunks put together.
   */
  lemma WrittenChain(s: Slots, refs: seq<Ref>, chunks: seq<seq<Byte>>)
    requires |refs| == |chunks| && Distinct(refs) && NIL !in refs
    requires forall i | 0 <= i < |refs| :: refs[i] < |s|
    ensures var s' := WriteBlocks(s, refs, chunks, |refs|);
            && DataChain(s', First(refs), refs)
            && Contents(s', refs) == Flatten(chunks)
  {
    var s' := WriteBlocks(s, refs, chunks, |refs|);
    forall i | 0 <= i < |refs|
      ensures IsDataAt(s', refs[i]) && At(s', refs[i]).nextDataBlock == NextOf(refs, i)
    {
      WriteBlocksAt(s, refs, chunks, |refs|, i);
    }
    WrittenContents(s, refs, chunks, 0);
  }

  lemma {:induction false} WrittenContents(s: Slots, refs: seq<Ref>, chunks: seq<seq<Byte>>, j: nat)
    requires |refs| == |chunks| && Distinct(refs) && j <= |refs|
    requires forall i | 0 <= i < |refs| :: refs[i] < |s|
    requires forall i | 0 <= i < |refs| :: IsDataAt(WriteBlocks(s, refs, chunks, |refs|), refs[i])
    ensures Contents(WriteBlocks(s, refs, chunks, |refs|), refs[j..]) == Flatten(chunks[j..])
    decreases |refs| - j
  {
    var s' := WriteBlocks(s, refs, chunks, |refs|);
    if j < |refs| {
      WrittenContents(s, refs, chunks, j + 1);
      WriteBlocksAt(s, refs, chunks, |refs|, j);
      assert refs[j..][0] == refs[j] && refs[j..][1..] == refs[j + 1..];
      assert chunks[j..][0] == chunks[j] && chunks[j..][1..] == chunks[j + 1..];
    } else {
      assert refs[j..] == [] && chunks[j..] == [];
    }
  }
}
