/**
 * The storage engine `VirtualFileSystemStorage`: block `r` sits at byte offset
 * `r * blockSize` of the host channel, framed as signature, CRC-32 of the body,
 * then a body of exactly `blockSize - 8` bytes.
 *
 * The host channel is modelled by its contents, a growable byte sequence. The
 * CRC-32 routine is a parameter `crc`: only equality of checksums matters.
 */
module Storage {
  import opened Wrappers
  import opened Blocks
  import opened Codec

  type Checksum = seq<Byte> -> UInt

  /** A block together with the body bytes it was read from (`Block.rawBytes`). */
  datatype StoredBlock = StoredBlock(block: Block, rawBytes: seq<Byte>)

  /** Signature, then checksum of the body, then the body. */
  function Frame(signature: Int32, crc: Checksum, body: seq<Byte>): (f: seq<Byte>)
    ensures |f| == BLOCK_HEADER_SIZE + |body|
  {
    PutInt(signature) + PutUInt(crc(body)) + body
  }

  /** Reading n bytes at pos: a read that comes back short is an error. */
  function ReadAt(channel: seq<Byte>, pos: nat, n: nat): (r: Result<seq<Byte>>)
    ensures r.Ok? <==> pos + n <= |channel|
    ensures r.Err? ==> r.error == EndOfFile
    ensures r.Ok? ==> |r.value| == n && forall i | 0 <= i < n :: r.value[i] == channel[pos + i]
  {
    if pos + n <= |channel| then Ok(channel[pos..pos + n]) else Err(EndOfFile)
  }

  /**
   * Writing at pos. Writing past the end grows the channel; the gap, which the
   * host file leaves unspecified, is filled with zeros here.
   */
  function WriteAt(channel: seq<Byte>, pos: nat, bytes: seq<Byte>): (c: seq<Byte>)
    ensures |c| == if pos + |bytes| <= |channel| then |channel| else pos + |bytes|
    ensures c[pos..pos + |bytes|] == bytes
    ensures forall i | 0 <= i < |channel| && !(pos <= i < pos + |bytes|) :: c[i] == channel[i]
  {
    if pos <= |channel| then
      channel[..pos] + bytes + (if pos + |bytes| < |channel| then channel[pos + |bytes|..] else [])
    else
      channel + Zeros(pos - |channel|) + bytes
  }

  /** Checks a frame's signature and checksum and returns its body (`readBlock` after the read). */
  function Unframe(frame: seq<Byte>, expectedSignature: Int32, crc: Checksum): (r: Result<seq<Byte>>)
    requires |frame| >= BLOCK_HEADER_SIZE
    ensures r.Ok? <==> GetInt(frame, 0) == expectedSignature && GetUInt(frame, 4) == crc(frame[8..])
    ensures r.Ok? ==> r.value == frame[8..]
    ensures r.Err? ==> r.error in {SignatureMismatch, ChecksumMismatch}
  {
    if GetInt(frame, 0) != expectedSignature then Err(SignatureMismatch)
    else if GetUInt(frame, 4) != crc(frame[8..]) then Err(ChecksumMismatch)
    else Ok(frame[8..])
  }

  function ReadBlockSpec(channel: seq<Byte>, blockSize: nat, crc: Checksum, ref: Ref, expectedSignature: Int32)
    : Result<seq<Byte>>
    requires blockSize >= BLOCK_HEADER_SIZE
  {
    match ReadAt(channel, ref * blockSize, blockSize)
    case Err(e) => Err(e)
    case Ok(frame) => Unframe(frame, expectedSignature, crc)
  }

  function WriteBlockSpec(channel: seq<Byte>, blockSize: nat, crc: Checksum, ref: Ref, signature: Int32,
                          body: seq<Byte>): seq<Byte>
  {
    WriteAt(channel, ref * blockSize, Frame(signature, crc, body))
  }

  /** Reading a block of a kind: unframe, then parse the body. */
  function ReadStored(channel: seq<Byte>, blockSize: nat, crc: Checksum, ref: Ref, kind: Kind): Result<StoredBlock>
    requires blockSize >= BLOCK_HEADER_SIZE
  {
    match ReadBlockSpec(channel, blockSize, crc, ref, Signature(kind))
    case Err(e) => Err(e)
    case Ok(body) =>
      match Parse(kind, body)
      case Err(e) => Err(e)
      case Ok(b) => Ok(StoredBlock(b, body))
  }

  lemma SlotsDisjoint(blockSize: nat, ref: Ref, other: Ref)
    requires ref != other
    ensures other * blockSize + blockSize <= ref * blockSize || ref * blockSize + blockSize <= other * blockSize
  {
    var lo, hi := if other < ref then other else ref, if other < ref then ref else other;
    var d := hi - lo;
    assert hi * blockSize == lo * blockSize + d * blockSize;
    assert d * blockSize == (d - 1) * blockSize + blockSize;
    assert (d - 1) * blockSize >= 0;
  }

  /** Block `ref` occupies bytes `[ref*blockSize, (ref+1)*blockSize)` and no byte outside it changes. */
  lemma WriteBlockPlacement(channel: seq<Byte>, blockSize: nat, crc: Checksum, ref: Ref, signature: Int32,
                            body: seq<Byte>)
    requires |body| + BLOCK_HEADER_SIZE == blockSize
    ensures var c := WriteBlockSpec(channel, blockSize, crc, ref, signature, body);
      && |c| >= (ref + 1) * blockSize
      && c[ref * blockSize..(ref + 1) * blockSize] == Frame(signature, crc, body)
      && forall i | 0 <= i < |channel| && !(ref * blockSize <= i < (ref + 1) * blockSize) :: c[i] == channel[i]
  {
  }

  /** A write followed by a read at the same reference returns the body that was written. */
  lemma ReadAfterWrite(channel: seq<Byte>, blockSize: nat, crc: Checksum, ref: Ref, signature: Int32,
                       body: seq<Byte>)
    requires |body| + BLOCK_HEADER_SIZE == blockSize
    ensures ReadBlockSpec(WriteBlockSpec(channel, blockSize, crc, ref, signature, body), blockSize, crc, ref,
                          signature) == Ok(body)
  {
    var c := WriteBlockSpec(channel, blockSize, crc, ref, signature, body);
    var frame := c[ref * blockSize..ref * blockSize + blockSize];
    assert frame == Frame(signature, crc, body);
    GetPutInt(signature, frame, 0);
    GetPutUInt(crc(body), frame, 4);
    assert frame[8..] == body;
  }

  /** Reading a block under another kind's signature fails: the on-disk tag decides the kind. */
  lemma ReadAfterWriteOtherKind(channel: seq<Byte>, blockSize: nat, crc: Checksum, ref: Ref, written: Kind,
                                expected: Kind, body: seq<Byte>)
    requires |body| + BLOCK_HEADER_SIZE == blockSize && written != expected
    ensures ReadStored(WriteBlockSpec(channel, blockSize, crc, ref, Signature(written), body), blockSize, crc,
                       ref, expected) == Err(SignatureMismatch)
  {
    var sig, other := Signature(written), Signature(expected);
    assert sig != other;
    WrittenFrameRead(channel, blockSize, crc, ref, sig, body);
    UnframeOtherSignature(sig, other, crc, body);
  }

  /** Reading back the slot just written gives the whole frame. */
  lemma WrittenFrameRead(channel: seq<Byte>, blockSize: nat, crc: Checksum, ref: Ref, signature: Int32, body: seq<Byte>)
    requires |body| + BLOCK_HEADER_SIZE == blockSize
    ensures ReadAt(WriteBlockSpec(channel, blockSize, crc, ref, signature, body), ref * blockSize, blockSize)
         == Ok(Frame(signature, crc, body))
  {
  }

  /** A frame is refused under any signature but its own. */
  lemma UnframeOtherSignature(signature: Int32, expected: Int32, crc: Checksum, body: seq<Byte>)
    requires signature != expected
    ensures Unframe(Frame(signature, crc, body), expected, crc) == Err(SignatureMismatch)
  {
    GetPutInt(signature, Frame(signature, crc, body), 0);
  }

  /** Writing one block leaves every other complete block readable exactly as before. */
  lemma WriteLeavesOtherBlocks(channel: seq<Byte>, blockSize: nat, crc: Checksum, ref: Ref, signature: Int32,
                               body: seq<Byte>, other: Ref, expected: Int32)
    requires |body| + BLOCK_HEADER_SIZE == blockSize
    requires other != ref && other * blockSize + blockSize <= |channel|
    ensures ReadBlockSpec(WriteBlockSpec(channel, blockSize, crc, ref, signature, body), blockSize, crc, other,
                          expected)
         == ReadBlockSpec(channel, blockSize, crc, other, expected)
  {
    var c := WriteBlockSpec(channel, blockSize, crc, ref, signature, body);
    SlotsDisjoint(blockSize, ref, other);
    var lo := other * blockSize;
    assert c[lo..lo + blockSize] == channel[lo..lo + blockSize];
  }

  /** Stored round trip: a rendered block written at `ref` reads back as the same block. */
  lemma StoredRoundTrip(channel: seq<Byte>, blockSize: nat, crc: Checksum, ref: Ref, b: Block, raw: seq<Byte>)
    requires |raw| + BLOCK_HEADER_SIZE == blockSize && blockSize < 0x8000_0000
    requires Render(b, raw).Ok?
    ensures var c := WriteBlockSpec(channel, blockSize, crc, ref, Signature(KindOf(b)), Render(b, raw).value);
      ReadStored(c, blockSize, crc, ref, KindOf(b)) == Ok(StoredBlock(b, Render(b, raw).value))
  {
    RoundTrip(b, raw);
    ReadAfterWrite(channel, blockSize, crc, ref, Signature(KindOf(b)), Render(b, raw).value);
  }

  // ---------------------------------------------------------------------------
  // Bootstrap

  const MINIMAL_HEADER_SIZE := BLOCK_HEADER_SIZE + MIN_HEADER_INDEX_BLOCK_BODY_SIZE

  /**
   * `readMinimalHeader`: reads the first 24 bytes, checks the signature, skips
   * the checksum without verifying it and decodes the four header fields.
   */
  function ReadMinimalHeader(channel: seq<Byte>): (r: Result<Block>)
    ensures r.Ok? <==> |channel| >= MINIMAL_HEADER_SIZE && GetInt(channel, 0) == HEADER_INDEX_SIGNATURE
    ensures r.Ok? ==> r.value.HeaderIndexBlock?
  {
    if |channel| < MINIMAL_HEADER_SIZE then Err(EndOfFile)
    else if GetInt(channel, 0) != HEADER_INDEX_SIGNATURE then Err(SignatureMismatch)
    else ParseHeaderIndexBlock(channel[8..MINIMAL_HEADER_SIZE])
  }

  /** The checksum bytes play no part in bootstrapping. */
  lemma MinimalHeaderIgnoresChecksum(channel: seq<Byte>, other: seq<Byte>)
    requires |channel| >= MINIMAL_HEADER_SIZE && |other| == |channel|
    requires channel[..4] == other[..4] && channel[8..] == other[8..]
    ensures ReadMinimalHeader(channel) == ReadMinimalHeader(other)
  {
    assert channel[0..4] == other[0..4];
    assert channel[8..MINIMAL_HEADER_SIZE] == other[8..MINIMAL_HEADER_SIZE];
  }

  /** After a header block is written at reference 0, bootstrapping recovers exactly its four fields. */
  lemma MinimalHeaderAfterWrite(channel: seq<Byte>, blockSize: nat, crc: Checksum, b: Block, raw: seq<Byte>)
    requires b.HeaderIndexBlock?
    requires |raw| + BLOCK_HEADER_SIZE == blockSize && blockSize >= MINIMAL_HEADER_SIZE
    ensures var body := RenderHeaderIndexBlock(b, raw).value;
      ReadMinimalHeader(WriteBlockSpec(channel, blockSize, crc, 0, HEADER_INDEX_SIGNATURE, body)) == Ok(b)
  {
    var body := RenderHeaderIndexBlock(b, raw).value;
    var c := WriteBlockSpec(channel, blockSize, crc, 0, HEADER_INDEX_SIGNATURE, body);
    var frame := Frame(HEADER_INDEX_SIGNATURE, crc, body);
    assert c[0..blockSize] == frame;
    assert c[0..4] == frame[0..4] == PutInt(HEADER_INDEX_SIGNATURE);
    GetPutInt(HEADER_INDEX_SIGNATURE, c, 0);
    assert c[8..MINIMAL_HEADER_SIZE] == body[..16];
    HeaderIndexBlockRoundTrip(b, raw);
    assert ParseHeaderIndexBlock(body[..16]) == ParseHeaderIndexBlock(body) by {
      assert body[..16][0..4] == body[0..4];
      assert body[..16][4..8] == body[4..8];
      assert body[..16][8..12] == body[8..12];
      assert body[..16][12..16] == body[12..16];
    }
  }

  // ---------------------------------------------------------------------------
  // The engine

  class VirtualFileSystemStorage {
    const blockSize: nat
    const crc: Checksum
    const maxBytesPerDataBlock: int
    /** Contents of the host channel. */
    var channel: seq<Byte>
    var numBlocksInStorage: int

    ghost predicate Valid()
      reads this
    {
      BLOCK_HEADER_SIZE <= blockSize < 0x8000_0000
      && maxBytesPerDataBlock == blockSize - BLOCK_HEADER_SIZE - MIN_DATA_BLOCK_BODY_SIZE
    }

    constructor (blockSize: nat, channel: seq<Byte>, crc: Checksum)
      requires BLOCK_HEADER_SIZE <= blockSize < 0x8000_0000
      ensures Valid()
      ensures this.blockSize == blockSize && this.channel == channel && this.crc == crc
      ensures numBlocksInStorage == |channel| / blockSize
      ensures maxBytesPerDataBlock == blockSize - 16
    {
      this.blockSize := blockSize;
      this.crc := crc;
      this.channel := channel;
      this.maxBytesPerDataBlock := blockSize - BLOCK_HEADER_SIZE - MIN_DATA_BLOCK_BODY_SIZE;
      this.numBlocksInStorage := |channel| / blockSize;
    }

    /** Reserves blocks by bookkeeping only; the channel grows when a reserved slot is written. */
    method Expand(numExtraBlocks: int) returns (firstExtraBlock: UInt)
      requires 0 <= numBlocksInStorage < 0x1_0000_0000
      modifies this`numBlocksInStorage
      ensures firstExtraBlock == old(numBlocksInStorage)
      ensures numBlocksInStorage == old(numBlocksInStorage) + numExtraBlocks
    {
      firstExtraBlock := numBlocksInStorage;
      numBlocksInStorage := numBlocksInStorage + numExtraBlocks;
    }

    method ReadBlock(ref: Ref, expectedSignature: Int32) returns (r: Result<seq<Byte>>)
      requires Valid()
      ensures r == ReadBlockSpec(channel, blockSize, crc, ref, expectedSignature)
      ensures r.Ok? ==> |r.value| + BLOCK_HEADER_SIZE == blockSize
    {
      var read := ReadAt(channel, ref * blockSize, blockSize);
      if read.Err? {
        return Err(EndOfFile);
      }
      var buffer := read.value;
      var actualSignature := GetInt(buffer, 0);
      if actualSignature != expectedSignature {
        return Err(SignatureMismatch);
      }
      var expectedChecksum := GetUInt(buffer, 4);
      var body := buffer[8..];
      if crc(body) != expectedChecksum {
        return Err(ChecksumMismatch);
      }
      r := Ok(body);
    }

    method WriteBlock(ref: Ref, signature: Int32, body: seq<Byte>)
      requires Valid()
      requires |body| == blockSize - BLOCK_HEADER_SIZE
      modifies this`channel
      ensures channel == WriteBlockSpec(old(channel), blockSize, crc, ref, signature, body)
      ensures ReadBlockSpec(channel, blockSize, crc, ref, signature) == Ok(body)
    {
      var buffer := PutInt(signature) + PutUInt(crc(body)) + body;
      assert buffer == Frame(signature, crc, body);
      ReadAfterWrite(channel, blockSize, crc, ref, signature, body);
      channel := WriteAt(channel, ref * blockSize, buffer);
    }

    /** `newHeaderIndexBlock` / `newFileIndexBlock` / `newDataBlock`: a default block over a zero body. */
    method NewBlock(kind: Kind) returns (b: StoredBlock)
      requires Valid()
      ensures KindOf(b.block) == kind
      ensures b.rawBytes == Zeros(blockSize - BLOCK_HEADER_SIZE)
      ensures b.block == match kind
                         case HeaderKind => NewHeaderIndexBlock()
                         case FileIndexKind => NewFileIndexBlock()
                         case DataKind => NewDataBlock()
    {
      var raw := Zeros(blockSize - BLOCK_HEADER_SIZE);
      match kind
      case HeaderKind => b := StoredBlock(NewHeaderIndexBlock(), raw);
      case FileIndexKind => b := StoredBlock(NewFileIndexBlock(), raw);
      case DataKind => b := StoredBlock(NewDataBlock(), raw);
    }

    /** `readHeaderIndexBlock` / `readFileIndexBlock` / `readDataBlock`. */
    method ReadBlockOfKind(ref: Ref, kind: Kind) returns (r: Result<StoredBlock>)
      requires Valid()
      ensures r == ReadStored(channel, blockSize, crc, ref, kind)
      ensures r.Ok? ==> KindOf(r.value.block) == kind && |r.value.rawBytes| + BLOCK_HEADER_SIZE == blockSize
    {
      var body := ReadBlock(ref, Signature(kind));
      if body.Err? {
        return Err(body.error);
      }
      var parsed := Parse(kind, body.value);
      if parsed.Err? {
        return Err(parsed.error);
      }
      r := Ok(StoredBlock(parsed.value, body.value));
    }

    /**
     * `writeHeaderIndexBlock` / `writeFileIndexBlock` / `writeDataBlock`: renders
     * the block over its own body and writes the frame. A rendering failure
     * leaves the channel untouched.
     */
    method WriteBlockOfKind(ref: Ref, b: StoredBlock) returns (o: Outcome)
      requires Valid()
      requires |b.rawBytes| == blockSize - BLOCK_HEADER_SIZE
      modifies this`channel
      ensures o.Pass? <==> Render(b.block, b.rawBytes).Ok?
      ensures o.Fail? ==> channel == old(channel) && o.error == Render(b.block, b.rawBytes).error
      ensures o.Pass? ==>
        channel == WriteBlockSpec(old(channel), blockSize, crc, ref, Signature(KindOf(b.block)),
                                  Render(b.block, b.rawBytes).value)
      ensures o.Pass? ==>
        && ReadStored(channel, blockSize, crc, ref, KindOf(b.block)).Ok?
        && ReadStored(channel, blockSize, crc, ref, KindOf(b.block)).value.block == b.block
    {
      var rendered := Render(b.block, b.rawBytes);
      if rendered.Err? {
        return Fail(rendered.error);
      }
      WriteBlock(ref, Signature(KindOf(b.block)), rendered.value);
      StoredRoundTrip(old(channel), blockSize, crc, ref, b.block, b.rawBytes);
      o := Pass;
    }
  }
}
