/**
 * `AbstractVirtualFileEntity` together with the frontend's concrete
 * `VirtualFileEntity`: an open file's in-memory buffer. The first `open`
 * loads the file's bytes from the backend, `read` and `write` work on the
 * buffer (which doubles its capacity from 16 bytes as writes extend the
 * file), and the last `close` of a modified file stores the bytes back.
 *
 * The open/close bookkeeping is given twice: as pure transitions on a
 * `Status` (with the session lemmas, including the counter that
 * `close` never decrements as written) and as the class's methods, each
 * proved to follow the corrected transition.
 */
module Entity {
  import opened Wrappers
  import opened Blocks
  import opened Mock
  import opened Lists
  import opened Allocation
  import opened FileData
  import opened Backend

  const MIN_CONTENT_CAPACITY: nat := 16
  /** The largest Kotlin `Int`: sizes and positions stay below it. */
  const INT_MAX: int := 0x7fff_ffff

  // ---------------------------------------------------------------------------
  // Capacity growth

  /** The capacity `ensureCapacity` starts doubling from: the buffer's, but at least 16. */
  function StartCapacity(length: nat): nat
  {
    if length > MIN_CONTENT_CAPACITY then length else MIN_CONTENT_CAPACITY
  }

  /** The capacity `ensureCapacity(demand)` settles on: `capacity` doubled until it reaches `demand`. */
  function Grow(capacity: nat, demand: int): nat
    requires capacity > 0
    decreases if capacity < demand then demand - capacity else 0
  {
    if capacity >= demand then capacity else Grow(2 * capacity, demand)
  }

  /**
   * Any demand up to 2^30 grows within `Int`: a doubling happens only
   * from a capacity below the demand, so below 2^31.
   */
  lemma {:induction false} GrowWithinInt(capacity: nat, demand: int)
    requires 0 < capacity <= INT_MAX && demand <= 0x4000_0000
    ensures Grow(capacity, demand) <= INT_MAX
    decreases if capacity < demand then demand - capacity else 0
  {
    if capacity < demand {
      GrowWithinInt(2 * capacity, demand);
    }
  }

  function Pow2(k: nat): (p: nat)
    ensures p > 0
  {
    if k == 0 then 1 else 2 * Pow2(k - 1)
  }

  /** How many doublings `ensureCapacity` performs. */
  function Doublings(capacity: nat, demand: int): nat
    requires capacity > 0
    decreases if capacity < demand then demand - capacity else 0
  {
    if capacity >= demand then 0 else 1 + Doublings(2 * capacity, demand)
  }

  /**
   * The grown capacity covers the demand, is the start capacity times a
   * power of two, and is the first such: one doubling fewer would not
   * have covered the demand.
   */
  lemma {:induction false} GrowDoubles(capacity: nat, demand: int)
    requires capacity > 0
    ensures Grow(capacity, demand) >= demand && Grow(capacity, demand) >= capacity
    ensures Grow(capacity, demand) == capacity * Pow2(Doublings(capacity, demand))
    ensures Doublings(capacity, demand) > 0 ==> capacity * Pow2(Doublings(capacity, demand) - 1) < demand
    decreases if capacity < demand then demand - capacity else 0
  {
    if capacity < demand {
      var k := Doublings(2 * capacity, demand);
      GrowDoubles(2 * capacity, demand);
      DoubleScale(capacity, Pow2(k));
      if k > 0 {
        DoubleScale(capacity, Pow2(k - 1));
      }
    }
  }

  lemma DoubleScale(c: nat, p: nat)
    ensures (2 * c) * p == c * (2 * p)
  {
  }

  /** Growing a buffer of 10 bytes to hold 40: 16, then 32, then 64. */
  lemma GrowScenario()
    ensures Grow(16, 40) == 64 && Doublings(16, 40) == 2
  {
  }

  // ---------------------------------------------------------------------------
  // Reading and writing the file's bytes

  /**
   * What `read(dst, position)` yields on a file whose bytes are `data`
   * when `dst` has room for `remaining` bytes: -1 at or past the end, an
   * error for a negative position, and otherwise as many bytes from
   * `position` as both the file and `dst` allow.
   */
  function ReadAt(data: seq<Byte>, remaining: nat, position: int): (r: (Result<int>, seq<Byte>))
    ensures r.0 == Ok(-1) <==> position >= |data|
    ensures r.0.Err? <==> position < 0
    ensures r.0.Ok? && r.0.value >= 0 ==>
              && r.0.value == |r.1| <= remaining
              && 0 <= position && position + |r.1| <= |data| && r.1 == data[position .. position + |r.1|]
              && (|r.1| == remaining || position + |r.1| == |data|)
    ensures r.0.Ok? && r.0.value >= 0 && remaining > 0 ==> r.0.value > 0
  {
    if position >= |data| then (Ok(-1), [])
    else if position < 0 then (Err(IndexOutOfBounds), [])
    else
      var n := if |data| - position < remaining then |data| - position else remaining;
      (Ok(n), data[position .. position + n])
  }

  /**
   * The file's bytes after `write(src, position)`: `src` over the bytes from
   * `position`, the file extended when it runs past the end, and any gap
   * between the old end and `position` filled with zeros.
   */
  function WriteAt(data: seq<Byte>, src: seq<Byte>, position: nat): (r: seq<Byte>)
    ensures |r| == if position + |src| > |data| then position + |src| else |data|
    ensures r[position .. position + |src|] == src
    ensures forall i | 0 <= i < |r| && !(position <= i < position + |src|) :: r[i] == if i < |data| then data[i] else 0
  {
    if position + |src| > |data| then
      (if position <= |data| then data[..position] else data + Zeros(position - |data|)) + src
    else
      data[..position] + src + data[position + |src|..]
  }

  /** Reading back at the written position returns exactly the written bytes. */
  lemma ReadAfterWrite(data: seq<Byte>, src: seq<Byte>, position: nat)
    requires |src| > 0
    ensures ReadAt(WriteAt(data, src, position), |src|, position) == (Ok(|src|), src)
  {
    var w := WriteAt(data, src, position);
    assert w[position .. position + |src|] == src;
  }

  /** Writing within the file keeps its size; writing past the end makes the written bytes its tail. */
  lemma WriteSize(data: seq<Byte>, src: seq<Byte>, position: nat)
    ensures position + |src| <= |data| ==> |WriteAt(data, src, position)| == |data|
    ensures position + |src| > |data| ==> WriteAt(data, src, position)[position..] == src
  {
  }

  /** A buffer of which only the first `size` bytes are the file's: the rest are zeros. */
  ghost predicate ZeroTail(buf: seq<Byte>, size: nat) {
    size <= |buf| && forall i | size <= i < |buf| :: buf[i] == 0
  }

  /** Copying `src` into a zero-tailed buffer at `position` gives the written file as its prefix. */
  lemma CopyIsWrite(buf: seq<Byte>, size: nat, src: seq<Byte>, position: nat)
    requires ZeroTail(buf, size) && position + |src| <= |buf|
    ensures var size' := if position + |src| > size then position + |src| else size;
            var buf' := buf[..position] + src + buf[position + |src|..];
            && buf'[..size'] == WriteAt(buf[..size], src, position)
            && ZeroTail(buf', size')
  {
    var data := buf[..size];
    var size' := if position + |src| > size then position + |src| else size;
    var buf' := buf[..position] + src + buf[position + |src|..];
    var w := WriteAt(data, src, position);
    assert |buf'[..size']| == |w|;
    forall i | 0 <= i < size'
      ensures buf'[..size'][i] == w[i]
    {
      if position <= i < position + |src| {
        assert w[i] == w[position .. position + |src|][i - position];
      }
    }
  }

  // ---------------------------------------------------------------------------
  // Open and close bookkeeping

  /** The entity's counter of open channels and whether its buffer holds unsaved writes. */
  datatype Status = Status(openCounter: int, isModified: bool)

  /** `open()`: the counter goes up; the first open loads fresh content, which is unmodified. */
  function AfterOpen(st: Status): (st': Status)
    ensures st'.openCounter == st.openCounter + 1
    ensures st.openCounter == 0 ==> !st'.isModified
    ensures st.openCounter != 0 ==> st'.isModified == st.isModified
  {
    Status(st.openCounter + 1, st.openCounter != 0 && st.isModified)
  }

  /** `write(...)` marks the buffer modified. */
  function AfterWrite(st: Status): Status {
    st.(isModified := true)
  }

  /** `close()` stores the buffer exactly when it is modified and this close releases the last open. */
  predicate StoresOnClose(st: Status) {
    st.isModified && st.openCounter - 1 == 0
  }

  /** `close()` as written: the decremented counter is computed but never stored. */
  function AfterCloseAsWritten(st: Status): (st': Status)
    ensures st'.openCounter == st.openCounter
  {
    Status(st.openCounter, st.isModified && !StoresOnClose(st))
  }

  /** `close()` with the decremented counter stored. */
  function AfterClose(st: Status): (st': Status)
    ensures st'.openCounter == st.openCounter - 1
    ensures st'.isModified <==> st.isModified && !StoresOnClose(st)
  {
    Status(st.openCounter - 1, st.isModified && !StoresOnClose(st))
  }

  /** What a client does with an entity, one call at a time. */
  datatype Event = Opened | Wrote | Closed

  /** The status after `e`, and whether `e` stored the buffer; `asWritten` picks the `close()` as written. */
  function Step(st: Status, e: Event, asWritten: bool): (Status, nat) {
    match e
    case Opened => (AfterOpen(st), 0)
    case Wrote => (AfterWrite(st), 0)
    case Closed =>
      (if asWritten then AfterCloseAsWritten(st) else AfterClose(st), if StoresOnClose(st) then 1 else 0)
  }

  /** The status after a run of events, and how many times the buffer was stored. */
  function Replay(st: Status, events: seq<Event>, asWritten: bool): (Status, nat)
    decreases |events|
  {
    if events == [] then (st, 0)
    else
      var (st1, n1) := Step(st, events[0], asWritten);
      var (st2, n2) := Replay(st1, events[1..], asWritten);
      (st2, n1 + n2)
  }

  function Repeat(e: Event, n: nat): (r: seq<Event>)
    ensures |r| == n && forall i | 0 <= i < n :: r[i] == e
  {
    if n == 0 then [] else [e] + Repeat(e, n - 1)
  }

  function CountOf(events: seq<Event>, e: Event): nat {
    if events == [] then 0 else (if events[0] == e then 1 else 0) + CountOf(events[1..], e)
  }

  lemma {:induction false} ReplayAppend(st: Status, a: seq<Event>, b: seq<Event>, asWritten: bool)
    ensures var (stA, nA) := Replay(st, a, asWritten);
            var (stB, nB) := Replay(stA, b, asWritten);
            Replay(st, a + b, asWritten) == (stB, nA + nB)
    decreases |a|
  {
    if a != [] {
      assert (a + b)[0] == a[0] && (a + b)[1..] == a[1..] + b;
      var (st1, _) := Step(st, a[0], asWritten);
      ReplayAppend(st1, a[1..], b, asWritten);
    } else {
      assert a + b == b;
    }
  }

  /**
   * As written, `close()` never lowers the counter: from a closed entity,
   * the counter after any run of events is the number of opens, so a file
   * once opened stays open for good (and `deleteFile` refuses it).
   */
  lemma {:induction false} AsWrittenCounterOnlyGrows(st: Status, events: seq<Event>)
    ensures Replay(st, events, true).0.openCounter == st.openCounter + CountOf(events, Opened)
    decreases |events|
  {
    if events != [] {
      var (st1, _) := Step(st, events[0], true);
      AsWrittenCounterOnlyGrows(st1, events[1..]);
    }
  }

  /**
   * The input that shows it: open, write, open again, close twice. As
   * written the modified buffer is never stored and the file stays open;
   * with the counter stored, the second close stores it once and the file
   * is closed and clean.
   */
  lemma CloseAsWrittenNeverStores()
    ensures var events := [Opened, Wrote, Opened, Closed, Closed];
            && Replay(Status(0, false), events, true) == (Status(2, true), 0)
            && Replay(Status(0, false), events, false) == (Status(0, false), 1)
  {
  }

  /** `k` closes of a modified entity opened `k` times store it once, at the last close, and leave it closed. */
  lemma {:induction false} ClosesStoreOnce(k: nat)
    requires k > 0
    ensures Replay(Status(k, true), Repeat(Closed, k), false) == (Status(0, false), 1)
    decreases k
  {
    var events := Repeat(Closed, k);
    assert events[0] == Closed && events[1..] == Repeat(Closed, k - 1);
    if k > 1 {
      ClosesStoreOnce(k - 1);
    } else {
      assert events[1..] == [];
    }
  }

  lemma {:induction false} OpensFromClosed(k: nat)
    ensures Replay(Status(0, false), Repeat(Opened, k), false) == (Status(k, false), 0)
    decreases k
  {
    if k > 0 {
      var events := Repeat(Opened, k);
      assert events == Repeat(Opened, k - 1) + [Opened] by {
        RepeatSnoc(Opened, k);
      }
      OpensFromClosed(k - 1);
      ReplayAppend(Status(0, false), Repeat(Opened, k - 1), [Opened], false);
    }
  }

  lemma {:induction false} RepeatSnoc(e: Event, k: nat)
    requires k > 0
    ensures Repeat(e, k) == Repeat(e, k - 1) + [e]
  {
    var r := Repeat(e, k);
    var r' := Repeat(e, k - 1) + [e];
    assert |r| == |r'|;
    forall i | 0 <= i < k
      ensures r[i] == r'[i]
    {
    }
  }

  /**
   * With the counter stored, a balanced session (`k` opens, a write, `k`
   * closes) stores the buffer exactly once and leaves the entity closed
   * and clean.
   */
  lemma BalancedSessionStoresOnce(k: nat)
    requires k > 0
    ensures Replay(Status(0, false), Repeat(Opened, k) + [Wrote] + Repeat(Closed, k), false) == (Status(0, false), 1)
  {
    var opens, closes := Repeat(Opened, k), Repeat(Closed, k);
    OpensFromClosed(k);
    ReplayAppend(Status(0, false), opens, [Wrote], false);
    ReplayAppend(Status(0, false), opens + [Wrote], closes, false);
    ClosesStoreOnce(k);
  }

  /**
   * Storing the first `size` bytes of `bytes` under a listed handle passes,
   * and the chain it records for the handle loads them back.
   */
  lemma StoredLoadsBack(s: Slots, files: seq<Ref>, free: seq<Ref>, chains: map<Ref, seq<Ref>>,
                        s': Slots, outcome: Outcome, chains': map<Ref, seq<Ref>>,
                        i: nat, bytes: seq<Byte>, size: nat, max: nat)
    requires Layout(s, files, free, chains) && i < |files|
    requires max > 0 && |s| + |bytes| <= REF_LIMIT && size <= INT_MAX && size <= |bytes|
    requires var h := files[i];
             && CanStore(s, h, free, chains[h])
             && (s', outcome) == StoreFileChecked(s, h, bytes, 0, size, max, free, chains[h])
             && chains' == chains[h := StoreLists(s, h, free, chains[h], size, max).1]
    ensures var h := files[i];
            && outcome == Pass && h in chains'
            && (forall k | 0 <= k < |chains'[h]| :: IsDataAt(s', chains'[h][k]))
            && LoadFileResult(s', h, chains'[h]) == Ok(bytes[..size])
  {
    var h := files[i];
    StoreThenLoad(s, files, free, chains, i, bytes, 0, size, max);
    assert bytes[0 .. size] == bytes[..size];
  }

  // ---------------------------------------------------------------------------
  // The entity

  /** `ByteBuffer.get(dst, offset, length)` of all of `src` into `a` at `position`. */
  method CopyInto(a: array<Byte>, position: nat, src: seq<Byte>)
    requires position + |src| <= a.Length
    modifies a
    ensures a[..] == old(a[..])[..position] + src + old(a[..])[position + |src|..]
  {
    ghost var before := a[..];
    for i := 0 to |src|
      invariant a[..] == before[..position] + src[..i] + before[position + i..]
    {
      a[position + i] := src[i];
      assert src[..i + 1] == src[..i] + [src[i]];
    }
  }

  class VirtualFileEntity {
    const handle: Ref
    const backend: VirtualFileSystemBackend
    var content: array<Byte>
    var contentSize: nat
    var openCounter: int
    var isModified: bool

    /** The file's bytes are the first `contentSize` of the buffer; the rest of the buffer is zeros. */
    ghost predicate Valid()
      reads this, content
    {
      contentSize <= INT_MAX && ZeroTail(content[..], contentSize)
    }

    function CurrentStatus(): Status
      reads this
    {
      Status(openCounter, isModified)
    }

    /** The file as the entity currently holds it. */
    ghost function Content(): seq<Byte>
      reads this, content
      requires Valid()
    {
      content[..contentSize]
    }

    /** What `load()` would give now: `loadFile(handle)` on the backend. */
    ghost function Loaded(): Result<seq<Byte>>
      reads backend, backend.storage
      requires backend.Valid()
    {
      var s := backend.storage.blocks;
      LoadFileResult(s, handle, ChainOf(s, backend.files, backend.free, backend.chains, handle))
    }

    constructor (backend: VirtualFileSystemBackend, handle: Ref)
      ensures this.backend == backend && this.handle == handle
      ensures Valid() && CurrentStatus() == Status(0, false) && Content() == []
    {
      this.backend := backend;
      this.handle := handle;
      content := new Byte[0];
      contentSize := 0;
      openCounter := 0;
      isModified := false;
    }

    /** `isOpen()`: some channel holds the entity open. */
    predicate IsOpen()
      reads this
    {
      openCounter != 0
    }

    /**
     * `open()`: the first open loads the file from the backend into a new
     * buffer, which makes the entity well-formed; a failed load leaves the
     * entity as it was. Every successful open counts one more holder.
     */
    method Open() returns (outcome: Outcome)
      requires backend.Valid()
      modifies this
      ensures unchanged(backend, backend.storage)
      ensures old(Valid()) ==> Valid()
      ensures outcome.Pass? ==> CurrentStatus() == AfterOpen(old(CurrentStatus()))
      ensures outcome.Fail? ==> unchanged(this)
      ensures old(openCounter) != 0 ==> outcome == Pass && content == old(content) && contentSize == old(contentSize)
      ensures old(openCounter) == 0 ==>
                match Loaded()
                case Err(e) => outcome == Fail(e)
                case Ok(bytes) => outcome == Pass && fresh(content) && Valid() && Content() == bytes
    {
      var count := openCounter;
      if count == 0 {
        var loaded := backend.LoadFile(handle);
        if loaded.Err? {
          return Fail(loaded.error);
        }
        var bytes := loaded.value;
        content := new Byte[|bytes|](i requires 0 <= i < |bytes| => bytes[i]);
        assert content[..] == bytes;
        contentSize := |bytes|;
        isModified := false;
      }
      openCounter := count + 1;
      outcome := Pass;
    }

    /**
     * `close()`, with the decremented counter stored: the close that
     * releases the last holder of a modified buffer stores the file's
     * bytes through the backend, after which loading the file gives them
     * back. A failed store leaves the counter and the flag as they were.
     */
    method Close() returns (outcome: Outcome)
      requires Valid() && backend.Valid() && |backend.storage.blocks| + content.Length <= REF_LIMIT
      modifies this, backend, backend.storage
      ensures Valid() && backend.Valid() && content == old(content) && contentSize == old(contentSize)
      ensures outcome.Pass? ==> CurrentStatus() == AfterClose(old(CurrentStatus()))
      ensures outcome.Fail? ==> CurrentStatus() == old(CurrentStatus())
      ensures !StoresOnClose(old(CurrentStatus())) ==> outcome == Pass && unchanged(backend, backend.storage)
      ensures StoresOnClose(old(CurrentStatus())) ==>
                && backend.files == old(backend.files)
                && (handle in old(backend.files) ==> outcome == Pass && Loaded() == Ok(old(Content())))
    {
      var count := openCounter - 1;
      if isModified && count == 0 {
        var stored := Store();
        if stored.Fail? {
          return stored;
        }
        isModified := false;
      }
      openCounter := count;
      outcome := Pass;
    }

    /** `store()`: `storeFile(handle, content, 0, contentSize)`, after which the backend loads the file's bytes back. */
    method Store() returns (outcome: Outcome)
      requires Valid() && backend.Valid() && |backend.storage.blocks| + content.Length <= REF_LIMIT
      modifies backend, backend.storage
      ensures backend.Valid() && backend.files == old(backend.files)
      ensures handle in old(backend.files) ==> outcome == Pass && Loaded() == Ok(Content())
    {
      ghost var s, files, free, chains := backend.storage.blocks, backend.files, backend.free, backend.chains;
      outcome := backend.StoreFile(handle, content[..], 0, contentSize);
      if handle in files {
        StoredLoadsBack(s, files, free, chains, backend.storage.blocks, outcome, backend.chains,
                        IndexOf(files, handle), content[..], contentSize, backend.storage.maxBytesPerDataBlock);
      }
    }

    /**
     * The doubling of `ensureCapacity(demand)` stays within `Int`: every
     * capacity it passes through is at most the last, so this says no
     * `capacity * 2` wraps around.
     */
    predicate GrowthFits(demand: int)
      reads this
    {
      Grow(StartCapacity(content.Length), demand) <= INT_MAX
    }

    /** `ensureCapacity(demand)`: doubles the buffer's capacity, from at least 16, until it holds `demand` bytes. */
    method EnsureCapacity(demand: int)
      requires Valid() && GrowthFits(demand)
      modifies this
      ensures Valid() && contentSize == old(contentSize) && Content() == old(Content()) && CurrentStatus() == old(CurrentStatus())
      ensures demand <= content.Length <= INT_MAX
      ensures var target := Grow(StartCapacity(old(content.Length)), demand);
              if target > old(content.Length) then
                fresh(content) && content[..] == old(content[..]) + Zeros(target - old(content.Length))
              else content == old(content)
    {
      var capacity := StartCapacity(content.Length);
      ghost var start := capacity;
      while capacity < demand
        invariant capacity > 0 && Grow(capacity, demand) == Grow(start, demand)
        decreases demand - capacity
      {
        capacity := capacity * 2;
      }
      GrowDoubles(start, demand);
      if capacity > content.Length {
        var bytes := content[..];
        content := new Byte[capacity](i => if 0 <= i < |bytes| then bytes[i] else 0);
        assert content[..] == bytes + Zeros(capacity - |bytes|);
      }
    }

    /** `read(dst, position)`, with `remaining` the room in `dst`: the count and the bytes put into `dst`. */
    method Read(remaining: nat, position: int) returns (r: Result<int>, bytes: seq<Byte>)
      requires Valid()
      ensures (r, bytes) == ReadAt(Content(), remaining, position)
    {
      if position >= contentSize {
        return Ok(-1), [];
      }
      var bytesRead := if contentSize - position < remaining then contentSize - position else remaining;
      if position < 0 {
        // `dst.put(content, position, bytesRead)` rejects a negative offset
        return Err(IndexOutOfBounds), [];
      }
      bytes := content[position .. position + bytesRead];
      assert bytes == Content()[position .. position + bytesRead];
      r := Ok(bytesRead);
    }

    /**
     * `write(src, position)`: marks the buffer modified and copies all of
     * `src` to `position`, growing the buffer and the file when it runs
     * past the end; a negative position fails once the buffer has grown.
     */
    method Write(src: seq<Byte>, position: int) returns (r: Result<int>)
      requires Valid() && position + |src| <= INT_MAX
      requires position + |src| > contentSize ==> GrowthFits(position + |src|)
      modifies this, content
      ensures Valid() && openCounter == old(openCounter) && isModified
      ensures position < 0 ==> r == Err(IndexOutOfBounds) && Content() == old(Content())
      ensures position >= 0 ==> r == Ok(|src|) && Content() == WriteAt(old(Content()), src, position)
    {
      isModified := true;
      var bytesWrite := |src|;
      if position + bytesWrite > contentSize {
        EnsureCapacity(position + bytesWrite);
        if position < 0 {
          return Err(IndexOutOfBounds);
        }
        CopyIsWrite(content[..], contentSize, src, position);
        CopyInto(content, position, src);
        contentSize := position + bytesWrite;
      } else {
        if position < 0 {
          return Err(IndexOutOfBounds);
        }
        CopyIsWrite(content[..], contentSize, src, position);
        CopyInto(content, position, src);
      }
      r := Ok(bytesWrite);
    }
  }
}
