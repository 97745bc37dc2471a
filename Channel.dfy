/**
 * `VirtualFileChannel`: a handle on an open entity with a cursor. The
 * cursor doubles as the closed flag (-1); closing is idempotent and closes
 * the entity once. Writes on a read-only channel fail before anything else
 * is checked; positional reads and writes leave the cursor alone, cursor
 * reads and writes advance it by the count when that count is positive.
 *
 * The pure functions `CursorRead` and `CursorWrite` give the cursor
 * operations on a file's bytes; the class's methods are proved to follow
 * them, and the lemmas say what runs of them do.
 */
module Channel {
  import opened Wrappers
  import opened Blocks
  import opened Allocation
  import opened Entity

  /** The cursor value that marks a closed channel. */
  const CLOSED: int := -1

  // ---------------------------------------------------------------------------
  // Cursor operations on a file's bytes

  /**
   * `read(dst)` at cursor `cursor` on a file whose bytes are `data`, with
   * room for `remaining` bytes in `dst`: the count, the bytes delivered and
   * the new cursor.
   */
  function CursorRead(cursor: int, data: seq<Byte>, remaining: nat): (r: (Result<int>, seq<Byte>, int))
    ensures cursor == CLOSED ==> r == (Err(ClosedChannel), [], CLOSED)
    ensures cursor >= 0 ==> r.0.Ok? && (r.0 == Ok(-1) <==> cursor >= |data|)
    ensures cursor >= 0 && cursor < |data| ==>
              && r.2 == cursor + |r.1| && r.0 == Ok(|r.1|) && |r.1| <= remaining
              && r.2 <= |data| && r.1 == data[cursor .. r.2]
              && (remaining > 0 ==> r.2 > cursor)
    ensures cursor >= |data| ==> r.1 == [] && r.2 == cursor
  {
    if cursor == CLOSED then (Err(ClosedChannel), [], CLOSED)
    else
      var (count, bytes) := ReadAt(data, remaining, cursor);
      (count, bytes, if count.Ok? && count.value > 0 then cursor + count.value else cursor)
  }

  /**
   * `write(src)` at cursor `cursor` on a file whose bytes are `data`: the
   * count, the file's new bytes and the new cursor.
   */
  function CursorWrite(isReadOnly: bool, cursor: int, data: seq<Byte>, src: seq<Byte>): (r: (Result<int>, seq<Byte>, int))
    ensures isReadOnly ==> r == (Err(NonWritable), data, cursor)
    ensures !isReadOnly && cursor == CLOSED ==> r == (Err(ClosedChannel), data, cursor)
    ensures !isReadOnly && cursor >= 0 ==>
              && r.0 == Ok(|src|) && r.2 == cursor + |src|
              && |r.1| == (if r.2 > |data| then r.2 else |data|)
              && r.1[cursor .. r.2] == src
              && r.1[..cursor] == if cursor <= |data| then data[..cursor] else data + Zeros(cursor - |data|)
  {
    if isReadOnly then (Err(NonWritable), data, cursor)
    else if cursor == CLOSED then (Err(ClosedChannel), data, cursor)
    else if cursor < 0 then (Err(IndexOutOfBounds), data, cursor)
    else
      var written := WriteAt(data, src, cursor);
      (Ok(|src|), written, if |src| > 0 then cursor + |src| else cursor)
  }

  /** The bytes a run of cursor reads delivers, from `cursor` until a read returns -1. */
  function Drain(data: seq<Byte>, remaining: nat, cursor: nat): seq<Byte>
    requires remaining > 0 && cursor <= |data|
    decreases |data| - cursor
  {
    var (count, bytes, next) := CursorRead(cursor, data, remaining);
    if count == Ok(-1) then [] else bytes + Drain(data, remaining, next)
  }

  /** Reading a file through a cursor until the end delivers exactly its bytes from the cursor on. */
  lemma {:induction false} DrainReadsAll(data: seq<Byte>, remaining: nat, cursor: nat)
    requires remaining > 0 && cursor <= |data|
    ensures Drain(data, remaining, cursor) == data[cursor..]
    decreases |data| - cursor
  {
    var (count, bytes, next) := CursorRead(cursor, data, remaining);
    if cursor < |data| {
      DrainReadsAll(data, remaining, next);
      assert data[cursor..] == data[cursor .. next] + data[next..];
    }
  }

  /** Writing `src` and then `src'` from `position` is writing `src + src'` from `position`. */
  lemma WriteAtTwice(data: seq<Byte>, src: seq<Byte>, src': seq<Byte>, position: nat)
    ensures WriteAt(WriteAt(data, src, position), src', position + |src|) == WriteAt(data, src + src', position)
  {
    var once := WriteAt(data, src, position);
    var twice := WriteAt(once, src', position + |src|);
    var both := WriteAt(data, src + src', position);
    assert |twice| == |both|;
    forall i | 0 <= i < |both|
      ensures twice[i] == both[i]
    {
      if position <= i < position + |src| {
        assert both[i] == both[position .. position + |src + src'|][i - position];
        assert once[i] == once[position .. position + |src|][i - position];
      } else if position + |src| <= i < position + |src| + |src'| {
        assert both[i] == both[position .. position + |src + src'|][i - position];
        assert twice[i] == twice[position + |src| .. position + |src| + |src'|][i - position - |src|];
      }
    }
  }

  /**
   * Two cursor writes in a row do what one cursor write of the two
   * sources put together does: same count in total, same bytes, same
   * cursor.
   */
  lemma CursorWritesConcatenate(cursor: nat, data: seq<Byte>, src: seq<Byte>, src': seq<Byte>)
    ensures var (count, data', cursor') := CursorWrite(false, cursor, data, src);
            var (count', data'', cursor'') := CursorWrite(false, cursor', data', src');
            && count.Ok? && count'.Ok?
            && CursorWrite(false, cursor, data, src + src') == (Ok(count.value + count'.value), data'', cursor'')
  {
    WriteAtTwice(data, src, src', cursor);
  }

  /** What a cursor write puts in, a positional read at the old cursor gets back. */
  lemma CursorWriteThenRead(cursor: nat, data: seq<Byte>, src: seq<Byte>)
    requires |src| > 0
    ensures var (_, data', _) := CursorWrite(false, cursor, data, src);
            ReadAt(data', |src|, cursor) == (Ok(|src|), src)
  {
    ReadAfterWrite(data, src, cursor);
  }

  // ---------------------------------------------------------------------------
  // The channel

  class VirtualFileChannel {
    const file: VirtualFileEntity
    const isReadOnly: bool
    var position: int

    ghost predicate Valid()
      reads this
    {
      position >= CLOSED
    }

    constructor (file: VirtualFileEntity, isReadOnly: bool)
      ensures this.file == file && this.isReadOnly == isReadOnly && position == 0 && Valid()
    {
      this.file := file;
      this.isReadOnly := isReadOnly;
      position := 0;
    }

    /**
     * `close()`: the first close closes the entity (`doClose`), every close
     * leaves the channel closed, and closing a closed channel does nothing.
     */
    method Close() returns (outcome: Outcome)
      requires Valid() && file.Valid() && file.backend.Valid()
      requires |file.backend.storage.blocks| + file.content.Length <= REF_LIMIT
      modifies this, file, file.backend, file.backend.storage
      ensures position == CLOSED && file.Valid() && file.backend.Valid()
      ensures old(position) == CLOSED ==> outcome == Pass && unchanged(file, file.backend, file.backend.storage)
      ensures old(position) != CLOSED ==>
                && (outcome.Pass? ==> file.CurrentStatus() == AfterClose(old(file.CurrentStatus())))
                && (outcome.Fail? ==> file.CurrentStatus() == old(file.CurrentStatus()))
                && (StoresOnClose(old(file.CurrentStatus())) && file.handle in old(file.backend.files) ==>
                      outcome == Pass && file.Loaded() == Ok(old(file.Content())))
    {
      outcome := Pass;
      if position != CLOSED {
        outcome := file.Close();
      }
      position := CLOSED;
    }

    /** `read(dst, position)`: reads at `at` without moving the cursor; fails on a closed channel. */
    method PositionalRead(remaining: nat, at: int) returns (r: Result<int>, bytes: seq<Byte>)
      requires Valid() && file.Valid()
      ensures position == CLOSED ==> r == Err(ClosedChannel) && bytes == []
      ensures position != CLOSED ==> (r, bytes) == ReadAt(file.Content(), remaining, at)
    {
      if position == CLOSED {
        return Err(ClosedChannel), [];
      }
      r, bytes := file.Read(remaining, at);
    }

    /** `read(dst)`: reads at the cursor and moves it past the bytes read. */
    method Read(remaining: nat) returns (r: Result<int>, bytes: seq<Byte>)
      requires Valid() && file.Valid()
      modifies this
      ensures Valid()
      ensures (r, bytes, position) == CursorRead(old(position), file.Content(), remaining)
    {
      if position == CLOSED {
        return Err(ClosedChannel), [];
      }
      r, bytes := file.Read(remaining, position);
      if r.Ok? && r.value > 0 {
        position := position + r.value;
      }
    }

    /**
     * `write(src, position)`: writes at `at` without moving the cursor;
     * fails on a read-only channel, then on a closed one, leaving the file
     * alone.
     */
    method PositionalWrite(src: seq<Byte>, at: int) returns (r: Result<int>)
      requires Valid() && file.Valid() && at + |src| <= INT_MAX
      requires at + |src| > file.contentSize ==> file.GrowthFits(at + |src|)
      modifies file, file.content
      ensures file.Valid()
      ensures isReadOnly ==> r == Err(NonWritable) && unchanged(file) && file.Content() == old(file.Content())
      ensures !isReadOnly && position == CLOSED ==> r == Err(ClosedChannel) && unchanged(file) && file.Content() == old(file.Content())
      ensures !isReadOnly && position != CLOSED ==>
                && file.openCounter == old(file.openCounter) && file.isModified
                && (at < 0 ==> r == Err(IndexOutOfBounds) && file.Content() == old(file.Content()))
                && (at >= 0 ==> r == Ok(|src|) && file.Content() == WriteAt(old(file.Content()), src, at))
    {
      if isReadOnly {
        return Err(NonWritable);
      }
      if position == CLOSED {
        return Err(ClosedChannel);
      }
      r := file.Write(src, at);
    }

    /** `write(src)`: writes at the cursor and moves it past the bytes written. */
    method Write(src: seq<Byte>) returns (r: Result<int>)
      requires Valid() && file.Valid() && position + |src| <= INT_MAX
      requires position + |src| > file.contentSize ==> file.GrowthFits(position + |src|)
      modifies this, file, file.content
      ensures Valid() && file.Valid() && file.openCounter == old(file.openCounter)
      ensures (r, file.Content(), position) == CursorWrite(isReadOnly, old(position), old(file.Content()), src)
      ensures isReadOnly || old(position) == CLOSED ==> unchanged(file) && file.Content() == old(file.Content())
      ensures !isReadOnly && old(position) != CLOSED ==> file.isModified
    {
      if isReadOnly {
        return Err(NonWritable);
      }
      if position == CLOSED {
        return Err(ClosedChannel);
      }
      r := file.Write(src, position);
      if r.Ok? && r.value > 0 {
        position := position + r.value;
      }
    }
  }
}
