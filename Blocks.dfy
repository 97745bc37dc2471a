/**
 * The three kinds of fixed-size block the host file is made of. In the
 * Kotlin code they are the subclasses of the sealed class `Block`; here they
 * are the constructors of one closed datatype, with value semantics: a caller
 * that wants to change a block builds a modified copy and writes it back.
 */
module Blocks {
  import opened Wrappers

  type Byte = b: int | 0 <= b < 0x100
  /** Kotlin `UInt`. */
  type UInt = x: int | 0 <= x < 0x1_0000_0000
  /** Kotlin `Int`. */
  type Int32 = x: int | -0x8000_0000 <= x < 0x8000_0000
  /** Kotlin `Long`. */
  type Int64 = x: int | -0x8000_0000_0000_0000 <= x < 0x8000_0000_0000_0000
  /** A Kotlin `Char`: one UTF-16 code unit. */
  type Char16 = c: int | 0 <= c < 0x1_0000
  /** A Kotlin `String`, as its sequence of UTF-16 code units. */
  type Name = seq<Char16>

  /** `n` zero bytes: a fresh `ByteArray(n)`. */
  function Zeros(n: nat): (z: seq<Byte>)
    ensures |z| == n && forall i | 0 <= i < n :: z[i] == 0
  {
    if n == 0 then [] else Zeros(n - 1) + [0]
  }

  /** A block reference. Reference 0 is the header block and, in every chain, "no block". */
  type Ref = UInt
  const NIL: Ref := 0

  const HEADER_INDEX_SIGNATURE: Int32 := 0x44544131
  const FILE_INDEX_SIGNATURE: Int32 := 0x44544649
  const DATA_SIGNATURE: Int32 := 0x44544644

  datatype Block =
    | HeaderIndexBlock(nextIndexBlock: Ref, prevIndexBlock: Ref, firstVacantBlock: Ref, blockSize: Int32)
    | FileIndexBlock(nextIndexBlock: Ref, prevIndexBlock: Ref, firstDataBlock: Ref, lastDataBlock: Ref,
                     fileSize: Int64, fileName: Name)
    | DataBlock(nextDataBlock: Ref, fileData: seq<Byte>)

  datatype Kind = HeaderKind | FileIndexKind | DataKind

  function KindOf(b: Block): Kind
  {
    match b
    case HeaderIndexBlock(_, _, _, _) => HeaderKind
    case FileIndexBlock(_, _, _, _, _, _) => FileIndexKind
    case DataBlock(_, _) => DataKind
  }

  function Signature(k: Kind): Int32
  {
    match k
    case HeaderKind => HEADER_INDEX_SIGNATURE
    case FileIndexKind => FILE_INDEX_SIGNATURE
    case DataKind => DATA_SIGNATURE
  }

  /** The kind a 32-bit signature announces, if any: the signatures are pairwise distinct. */
  function KindOfSignature(sig: int): (k: Option<Kind>)
    ensures forall kind: Kind :: k == Some(kind) <==> Signature(kind) == sig
  {
    if sig == HEADER_INDEX_SIGNATURE then Some(HeaderKind)
    else if sig == FILE_INDEX_SIGNATURE then Some(FileIndexKind)
    else if sig == DATA_SIGNATURE then Some(DataKind)
    else None
  }

  /** A header block as freshly constructed: every field at its default. */
  function NewHeaderIndexBlock(): (b: Block)
    ensures KindOf(b) == HeaderKind
    ensures b.nextIndexBlock == NIL && b.prevIndexBlock == NIL && b.firstVacantBlock == NIL && b.blockSize == 0
  {
    HeaderIndexBlock(NIL, NIL, NIL, 0)
  }

  /** A file-index block as freshly constructed: unlinked, no data chain, empty and unnamed. */
  function NewFileIndexBlock(): (b: Block)
    ensures KindOf(b) == FileIndexKind
    ensures b.nextIndexBlock == NIL && b.prevIndexBlock == NIL
    ensures b.firstDataBlock == NIL && b.lastDataBlock == NIL
    ensures b.fileSize == 0 && b.fileName == []
  {
    FileIndexBlock(NIL, NIL, NIL, NIL, 0, [])
  }

  /** A data block as freshly constructed: end of chain, no payload. */
  function NewDataBlock(): (b: Block)
    ensures KindOf(b) == DataKind
    ensures b.DataBlock? && b.nextDataBlock == NIL && b.fileData == []
  {
    DataBlock(NIL, [])
  }

  /** Assigning `nextIndexBlock`, a field of both index-block kinds; every other field is kept. */
  function SetNextIndex(b: Block, r: Ref): Block
    requires !b.DataBlock?
  {
    if b.HeaderIndexBlock? then HeaderIndexBlock(r, b.prevIndexBlock, b.firstVacantBlock, b.blockSize)
    else FileIndexBlock(r, b.prevIndexBlock, b.firstDataBlock, b.lastDataBlock, b.fileSize, b.fileName)
  }

  /** Assigning `prevIndexBlock`, a field of both index-block kinds; every other field is kept. */
  function SetPrevIndex(b: Block, r: Ref): Block
    requires !b.DataBlock?
  {
    if b.HeaderIndexBlock? then HeaderIndexBlock(b.nextIndexBlock, r, b.firstVacantBlock, b.blockSize)
    else FileIndexBlock(b.nextIndexBlock, r, b.firstDataBlock, b.lastDataBlock, b.fileSize, b.fileName)
  }
}
