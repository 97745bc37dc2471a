/**
 * Body encoding of the three block kinds, as `VirtualFileSystemStorage`'s
 * companion `parse*` / `render*` functions do it with a big-endian
 * `java.nio.ByteBuffer`. Names are UTF-16BE: every code unit becomes two
 * bytes, most significant first, with no byte-order mark.
 *
 * Rendering writes the fields over the block's previous body (`rawBytes`),
 * so bytes after the encoded fields keep whatever they held before.
 */
module Codec {
  import opened Wrappers
  import opened Blocks

  const BLOCK_HEADER_SIZE := 8
  const MIN_HEADER_INDEX_BLOCK_BODY_SIZE := 16
  const MIN_FILE_INDEX_BLOCK_BODY_SIZE := 28
  const MIN_DATA_BLOCK_BODY_SIZE := 8

  /** The replacement character the UTF-16BE decoder produces for a truncated code unit. */
  const REPLACEMENT_CHARACTER: Char16 := 0xFFFD

  // ---------------------------------------------------------------------------
  // Big-endian integers

  function Pow256(n: nat): (p: nat)
    ensures p > 0
  {
    if n == 0 then 1 else 256 * Pow256(n - 1)
  }

  /** The n-byte big-endian encoding of x. */
  function ToBigEndian(x: nat, n: nat): (s: seq<Byte>)
    requires x < Pow256(n)
    ensures |s| == n
  {
    if n == 0 then [] else ToBigEndian(x / 256, n - 1) + [x % 256]
  }

  /** The number a big-endian byte sequence denotes. */
  function FromBigEndian(s: seq<Byte>): (x: nat)
    ensures x < Pow256(|s|)
  {
    if s == [] then 0
    else
      var hi := FromBigEndian(s[..|s| - 1]);
      assert hi * 256 + s[|s| - 1] < Pow256(|s|) by {
        assert hi <= Pow256(|s| - 1) - 1;
        assert hi * 256 <= Pow256(|s| - 1) * 256 - 256;
      }
      hi * 256 + s[|s| - 1]
  }

  lemma {:induction false} FromToBigEndian(x: nat, n: nat)
    requires x < Pow256(n)
    ensures FromBigEndian(ToBigEndian(x, n)) == x
  {
    if n > 0 {
      var s := ToBigEndian(x, n);
      assert s[..n - 1] == ToBigEndian(x / 256, n - 1);
      FromToBigEndian(x / 256, n - 1);
    }
  }

  lemma {:induction false} ToFromBigEndian(s: seq<Byte>)
    ensures ToBigEndian(FromBigEndian(s), |s|) == s
  {
    if s != [] {
      var n := |s|;
      var hi := FromBigEndian(s[..n - 1]);
      var x := hi * 256 + s[n - 1];
      assert x / 256 == hi && x % 256 == s[n - 1];
      ToFromBigEndian(s[..n - 1]);
      assert s == s[..n - 1] + [s[n - 1]];
    }
  }

  lemma Pow256Values()
    ensures Pow256(2) == 0x1_0000
    ensures Pow256(4) == 0x1_0000_0000
    ensures Pow256(8) == 0x1_0000_0000_0000_0000
  {
  }

  /** Two's-complement bit pattern of a 32-bit `Int`. */
  function Unsigned32(x: Int32): (u: UInt)
  {
    if x < 0 then x + 0x1_0000_0000 else x
  }

  function Signed32(u: UInt): (x: Int32)
    ensures Unsigned32(x) == u
  {
    if u < 0x8000_0000 then u else u - 0x1_0000_0000
  }

  /** The other direction: an `Int`'s bit pattern read back as an `Int` is that `Int`. */
  lemma SignedOfUnsigned32(x: Int32)
    ensures Signed32(Unsigned32(x)) == x
  {
  }

  /** Two's-complement bit pattern of a 64-bit `Long`. */
  function Unsigned64(x: Int64): (u: nat)
    ensures u < 0x1_0000_0000_0000_0000
  {
    if x < 0 then x + 0x1_0000_0000_0000_0000 else x
  }

  function Signed64(u: nat): (x: Int64)
    requires u < 0x1_0000_0000_0000_0000
    ensures Unsigned64(x) == u
  {
    if u < 0x8000_0000_0000_0000 then u else u - 0x1_0000_0000_0000_0000
  }

  /** `putInt` of an `Int`. */
  function PutInt(x: Int32): (s: seq<Byte>)
    ensures |s| == 4
  {
    Pow256Values();
    ToBigEndian(Unsigned32(x), 4)
  }

  /** `putInt(u.toInt())` of a `UInt`: the same bit pattern. */
  function PutUInt(u: UInt): (s: seq<Byte>)
    ensures |s| == 4
  {
    Pow256Values();
    ToBigEndian(u, 4)
  }

  function PutLong(x: Int64): (s: seq<Byte>)
    ensures |s| == 8
  {
    Pow256Values();
    ToBigEndian(Unsigned64(x), 8)
  }

  /** `getInt()` at byte offset `at`. */
  function GetInt(s: seq<Byte>, at: nat): Int32
    requires at + 4 <= |s|
  {
    Pow256Values();
    Signed32(FromBigEndian(s[at..at + 4]))
  }

  /** `getInt().toUInt()` at byte offset `at`. */
  function GetUInt(s: seq<Byte>, at: nat): UInt
    requires at + 4 <= |s|
  {
    Pow256Values();
    FromBigEndian(s[at..at + 4])
  }

  function GetLong(s: seq<Byte>, at: nat): Int64
    requires at + 8 <= |s|
  {
    Pow256Values();
    Signed64(FromBigEndian(s[at..at + 8]))
  }

  lemma GetPutInt(x: Int32, s: seq<Byte>, at: nat)
    requires at + 4 <= |s| && s[at..at + 4] == PutInt(x)
    ensures GetInt(s, at) == x
  {
    Pow256Values();
    FromToBigEndian(Unsigned32(x), 4);
  }

  lemma GetPutUInt(u: UInt, s: seq<Byte>, at: nat)
    requires at + 4 <= |s| && s[at..at + 4] == PutUInt(u)
    ensures GetUInt(s, at) == u
  {
    Pow256Values();
    FromToBigEndian(u, 4);
  }

  lemma GetPutLong(x: Int64, s: seq<Byte>, at: nat)
    requires at + 8 <= |s| && s[at..at + 8] == PutLong(x)
    ensures GetLong(s, at) == x
  {
    Pow256Values();
    FromToBigEndian(Unsigned64(x), 8);
  }

  /** Reading an `Int` and writing it back reproduces the four bytes. */
  lemma PutGetInt(s: seq<Byte>, at: nat)
    requires at + 4 <= |s|
    ensures PutInt(GetInt(s, at)) == s[at..at + 4]
  {
    Pow256Values();
    ToFromBigEndian(s[at..at + 4]);
  }

  // ---------------------------------------------------------------------------
  // UTF-16BE names

  function EncodeUtf16(name: Name): (bytes: seq<Byte>)
    ensures |bytes| == 2 * |name|
  {
    if name == [] then []
    else
      Pow256Values();
      ToBigEndian(name[0], 2) + EncodeUtf16(name[1..])
  }

  /** Decodes pairs of bytes; a trailing odd byte becomes the replacement character. */
  function DecodeUtf16(bytes: seq<Byte>): Name
  {
    if |bytes| == 0 then []
    else if |bytes| == 1 then [REPLACEMENT_CHARACTER]
    else
      Pow256Values();
      [FromBigEndian(bytes[..2])] + DecodeUtf16(bytes[2..])
  }

  lemma {:induction false} DecodeEncodeUtf16(name: Name)
    ensures DecodeUtf16(EncodeUtf16(name)) == name
  {
    if name != [] {
      Pow256Values();
      var bytes := EncodeUtf16(name);
      assert bytes[..2] == ToBigEndian(name[0], 2);
      assert bytes[2..] == EncodeUtf16(name[1..]);
      FromToBigEndian(name[0], 2);
      DecodeEncodeUtf16(name[1..]);
    }
  }

  // ---------------------------------------------------------------------------
  // Header index block: next(u32) prev(u32) firstVacant(u32) blockSize(i32)

  function ParseHeaderIndexBlock(body: seq<Byte>): (r: Result<Block>)
    ensures r.Ok? <==> |body| >= MIN_HEADER_INDEX_BLOCK_BODY_SIZE
    ensures r.Err? ==> r.error == BufferUnderflow
    ensures r.Ok? ==> KindOf(r.value) == HeaderKind
  {
    if |body| < MIN_HEADER_INDEX_BLOCK_BODY_SIZE then Err(BufferUnderflow)
    else Ok(HeaderIndexBlock(GetUInt(body, 0), GetUInt(body, 4), GetUInt(body, 8), GetInt(body, 12)))
  }

  function RenderHeaderIndexBlock(b: Block, raw: seq<Byte>): (r: Result<seq<Byte>>)
    requires b.HeaderIndexBlock?
    ensures r.Ok? <==> |raw| >= MIN_HEADER_INDEX_BLOCK_BODY_SIZE
    ensures r.Err? ==> r.error == BufferOverflow
    ensures r.Ok? ==> |r.value| == |raw| && r.value[16..] == raw[16..]
  {
    if |raw| < MIN_HEADER_INDEX_BLOCK_BODY_SIZE then Err(BufferOverflow)
    else Ok(PutUInt(b.nextIndexBlock) + PutUInt(b.prevIndexBlock) + PutUInt(b.firstVacantBlock)
            + PutInt(b.blockSize) + raw[16..])
  }

  // ---------------------------------------------------------------------------
  // File index block: next prev firstData lastData (u32) fileSize(i64) nameLen(i32) name

  /** The name bytes `parseFileIndexBlock` hands to the decoder for a declared length n. */
  function NameBytes(body: seq<Byte>, n: int): seq<Byte>
    requires |body| >= MIN_FILE_INDEX_BLOCK_BODY_SIZE && n <= |body| - 28
  {
    // a negative length moves the buffer limit below its position: nothing is left to decode
    if n >= 0 then body[28..28 + n] else []
  }

  function ParseFileIndexBlock(body: seq<Byte>): (r: Result<Block>)
    ensures |body| < MIN_FILE_INDEX_BLOCK_BODY_SIZE ==> r == Err(BufferUnderflow)
    ensures |body| >= MIN_FILE_INDEX_BLOCK_BODY_SIZE ==>
              (r == Err(Corrupted) <==> GetInt(body, 24) > |body| - 28)
    ensures |body| >= MIN_FILE_INDEX_BLOCK_BODY_SIZE ==>
              (r == Err(IllegalArgument) <==> GetInt(body, 24) < -28)
    ensures r.Ok? ==> KindOf(r.value) == FileIndexKind
  {
    if |body| < MIN_FILE_INDEX_BLOCK_BODY_SIZE then Err(BufferUnderflow)
    else
      var nameSize := GetInt(body, 24);
      if nameSize > |body| - 28 then Err(Corrupted)
      else if 28 + nameSize < 0 then Err(IllegalArgument)
      else Ok(FileIndexBlock(GetUInt(body, 0), GetUInt(body, 4), GetUInt(body, 8), GetUInt(body, 12),
                             GetLong(body, 16), DecodeUtf16(NameBytes(body, nameSize))))
  }

  function RenderFileIndexBlock(b: Block, raw: seq<Byte>): (r: Result<seq<Byte>>)
    requires b.FileIndexBlock?
    requires |raw| < 0x8000_0000
    ensures |raw| < MIN_FILE_INDEX_BLOCK_BODY_SIZE ==> r == Err(BufferOverflow)
    ensures |raw| >= MIN_FILE_INDEX_BLOCK_BODY_SIZE ==>
              (r.Err? <==> 2 * |b.fileName| > |raw| - 28) && (r.Err? ==> r.error == NameTooLong)
    ensures r.Ok? ==> |r.value| == |raw| && r.value[28 + 2 * |b.fileName|..] == raw[28 + 2 * |b.fileName|..]
  {
    if |raw| < MIN_FILE_INDEX_BLOCK_BODY_SIZE then Err(BufferOverflow)
    else
      var encoded := EncodeUtf16(b.fileName);
      if |encoded| > |raw| - 28 then Err(NameTooLong)
      else Ok(PutUInt(b.nextIndexBlock) + PutUInt(b.prevIndexBlock)
              + PutUInt(b.firstDataBlock) + PutUInt(b.lastDataBlock)
              + PutLong(b.fileSize) + PutInt(|encoded|) + encoded + raw[28 + |encoded|..])
  }

  // ---------------------------------------------------------------------------
  // Data block: next(u32) dataLen(i32) payload

  function ParseDataBlock(body: seq<Byte>): (r: Result<Block>)
    ensures |body| < MIN_DATA_BLOCK_BODY_SIZE ==> r == Err(BufferUnderflow)
    ensures |body| >= MIN_DATA_BLOCK_BODY_SIZE ==>
              (r == Err(Corrupted) <==> GetInt(body, 4) > |body| - 8)
    ensures |body| >= MIN_DATA_BLOCK_BODY_SIZE ==>
              (r.Ok? <==> 0 <= GetInt(body, 4) <= |body| - 8)
    ensures r.Ok? ==> KindOf(r.value) == DataKind && |r.value.fileData| == GetInt(body, 4)
  {
    if |body| < MIN_DATA_BLOCK_BODY_SIZE then Err(BufferUnderflow)
    else
      var dataSize := GetInt(body, 4);
      if dataSize > |body| - 8 then Err(Corrupted)
      else if 8 + dataSize < 0 then Err(IllegalArgument)
      else if dataSize < 0 then Err(NegativeArraySize)
      else Ok(DataBlock(GetUInt(body, 0), body[8..8 + dataSize]))
  }

  function RenderDataBlock(b: Block, raw: seq<Byte>): (r: Result<seq<Byte>>)
    requires b.DataBlock?
    requires |raw| < 0x8000_0000
    ensures |raw| < MIN_DATA_BLOCK_BODY_SIZE ==> r == Err(BufferOverflow)
    ensures |raw| >= MIN_DATA_BLOCK_BODY_SIZE ==>
              (r.Err? <==> |b.fileData| > |raw| - 8) && (r.Err? ==> r.error == DataTooLarge)
    ensures r.Ok? ==> |r.value| == |raw| && r.value[8 + |b.fileData|..] == raw[8 + |b.fileData|..]
  {
    if |raw| < MIN_DATA_BLOCK_BODY_SIZE then Err(BufferOverflow)
    else if |b.fileData| > |raw| - 8 then Err(DataTooLarge)
    else Ok(PutUInt(b.nextDataBlock) + PutInt(|b.fileData|) + b.fileData + raw[8 + |b.fileData|..])
  }

  // ---------------------------------------------------------------------------
  // Dispatch on the kind, and the round trip

  function Parse(kind: Kind, body: seq<Byte>): Result<Block>
  {
    match kind
    case HeaderKind => ParseHeaderIndexBlock(body)
    case FileIndexKind => ParseFileIndexBlock(body)
    case DataKind => ParseDataBlock(body)
  }

  function Render(b: Block, raw: seq<Byte>): Result<seq<Byte>>
    requires |raw| < 0x8000_0000
  {
    match b
    case HeaderIndexBlock(_, _, _, _) => RenderHeaderIndexBlock(b, raw)
    case FileIndexBlock(_, _, _, _, _, _) => RenderFileIndexBlock(b, raw)
    case DataBlock(_, _) => RenderDataBlock(b, raw)
  }

  lemma HeaderIndexBlockRoundTrip(b: Block, raw: seq<Byte>)
    requires b.HeaderIndexBlock? && |raw| >= MIN_HEADER_INDEX_BLOCK_BODY_SIZE
    ensures ParseHeaderIndexBlock(RenderHeaderIndexBlock(b, raw).value) == Ok(b)
  {
    var body := RenderHeaderIndexBlock(b, raw).value;
    GetPutUInt(b.nextIndexBlock, body, 0);
    GetPutUInt(b.prevIndexBlock, body, 4);
    GetPutUInt(b.firstVacantBlock, body, 8);
    GetPutInt(b.blockSize, body, 12);
  }

  lemma FileIndexBlockRoundTrip(b: Block, raw: seq<Byte>)
    requires b.FileIndexBlock? && |raw| < 0x8000_0000
    requires RenderFileIndexBlock(b, raw).Ok?
    ensures ParseFileIndexBlock(RenderFileIndexBlock(b, raw).value) == Ok(b)
  {
    var body := RenderFileIndexBlock(b, raw).value;
    var encoded := EncodeUtf16(b.fileName);
    GetPutUInt(b.nextIndexBlock, body, 0);
    GetPutUInt(b.prevIndexBlock, body, 4);
    GetPutUInt(b.firstDataBlock, body, 8);
    GetPutUInt(b.lastDataBlock, body, 12);
    GetPutLong(b.fileSize, body, 16);
    GetPutInt(|encoded|, body, 24);
    assert NameBytes(body, |encoded|) == encoded;
    DecodeEncodeUtf16(b.fileName);
  }

  lemma DataBlockRoundTrip(b: Block, raw: seq<Byte>)
    requires b.DataBlock? && |raw| < 0x8000_0000
    requires RenderDataBlock(b, raw).Ok?
    ensures ParseDataBlock(RenderDataBlock(b, raw).value) == Ok(b)
  {
    var body := RenderDataBlock(b, raw).value;
    GetPutUInt(b.nextDataBlock, body, 0);
    GetPutInt(|b.fileData|, body, 4);
    assert body[8..8 + |b.fileData|] == b.fileData;
  }

  /** Whatever renders successfully parses back, under its own kind, to the same block. */
  lemma RoundTrip(b: Block, raw: seq<Byte>)
    requires |raw| < 0x8000_0000 && Render(b, raw).Ok?
    ensures |Render(b, raw).value| == |raw|
    ensures Parse(KindOf(b), Render(b, raw).value) == Ok(b)
  {
    match b
    case HeaderIndexBlock(_, _, _, _) => HeaderIndexBlockRoundTrip(b, raw);
    case FileIndexBlock(_, _, _, _, _, _) => FileIndexBlockRoundTrip(b, raw);
    case DataBlock(_, _) => DataBlockRoundTrip(b, raw);
  }
}
