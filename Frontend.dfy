/**
 * `VirtualFileSystemFrontend`: the table from file names to entities over
 * the backend. It is built from the backend's listing; `createFile`
 * refuses a name already present, `deleteFile` refuses a missing name and
 * an open file, and the two `openFile...` operations open the named
 * entity behind a new channel (`openFileForWriting` creating the file
 * first when the name is absent).
 *
 * The table's invariant: every entity sits on this backend and has a
 * listed handle, and no two names share a handle.
 */
module Frontend {
  import opened Wrappers
  import opened Blocks
  import opened Lists
  import opened Allocation
  import opened Backend
  import opened Entity
  import opened Channel

  // ---------------------------------------------------------------------------
  // The table a listing gives

  /** The names of a listing. */
  function Names(index: seq<FileInfo>): set<Name> {
    set k | 0 <= k < |index| :: index[k].name
  }

  /** The name-to-handle table `buildFileIndex` makes of a listing: a later entry with the same name replaces an earlier one. */
  function Table(index: seq<FileInfo>): (t: map<Name, Ref>)
    ensures t.Keys == Names(index)
  {
    if index == [] then map[]
    else
      var last := index[|index| - 1];
      var t := Table(index[..|index| - 1])[last.name := last.handle];
      assert Names(index) == Names(index[..|index| - 1]) + {last.name} by {
        forall n | n in Names(index)
          ensures n in Names(index[..|index| - 1]) + {last.name}
        {
          var k :| 0 <= k < |index| && index[k].name == n;
          if k < |index| - 1 {
            assert index[..|index| - 1][k].name == n;
          }
        }
      }
      t
  }

  /** Each name maps to the handle of the last entry with that name. */
  lemma {:induction false} TableLast(index: seq<FileInfo>, k: int)
    requires 0 <= k < |index|
    requires forall j | k < j < |index| :: index[j].name != index[k].name
    ensures index[k].name in Table(index) && Table(index)[index[k].name] == index[k].handle
    decreases |index|
  {
    if k < |index| - 1 {
      var prefix := index[..|index| - 1];
      TableLast(prefix, k);
    }
  }

  /** Every handle in the table belongs to an entry with the same name. */
  lemma {:induction false} TableFrom(index: seq<FileInfo>, n: Name)
    requires n in Table(index)
    ensures exists k | 0 <= k < |index| :: index[k].name == n && index[k].handle == Table(index)[n]
    decreases |index|
  {
    var last := index[|index| - 1];
    var prefix := index[..|index| - 1];
    if n != last.name {
      TableFrom(prefix, n);
      var k :| 0 <= k < |prefix| && prefix[k].name == n && prefix[k].handle == Table(prefix)[n];
      assert index[k] == prefix[k];
    }
  }

  /** When the entries' handles are distinct, no two names share a handle. */
  lemma {:induction false} TableInjective(index: seq<FileInfo>)
    requires forall i, j | 0 <= i < j < |index| :: index[i].handle != index[j].handle
    ensures forall n, m | n in Table(index) && m in Table(index) && n != m :: Table(index)[n] != Table(index)[m]
    decreases |index|
  {
    if index != [] {
      var last := index[|index| - 1];
      var prefix := index[..|index| - 1];
      TableInjective(prefix);
      forall n | n in Table(prefix) && n != last.name
        ensures Table(prefix)[n] != last.handle
      {
        TableFrom(prefix, n);
      }
    }
  }

  /** A listing whose second entry repeats the first one's name keeps the second. */
  lemma TableScenario(a: Name, b: Name)
    requires a != b
    ensures Table([FileInfo(a, 0, 1), FileInfo(b, 0, 2), FileInfo(a, 5, 3)]) == map[a := 3, b := 2]
  {
    var index := [FileInfo(a, 0, 1), FileInfo(b, 0, 2), FileInfo(a, 5, 3)];
    assert index[..2] == [FileInfo(a, 0, 1), FileInfo(b, 0, 2)];
    assert index[..2][..1] == [FileInfo(a, 0, 1)];
    assert index[..2][..1][..0] == [];
  }

  lemma InRemoved(l: seq<Ref>, i: int, x: Ref)
    requires 0 <= i < |l| && x in l && x != l[i]
    ensures x in l[..i] + l[i + 1..]
  {
    var k :| 0 <= k < |l| && l[k] == x;
    if k < i {
      assert (l[..i] + l[i + 1..])[k] == x;
    } else {
      assert (l[..i] + l[i + 1..])[k - 1] == x;
    }
  }

  /**
   * `files` is the table `buildFileIndex()` makes of the listing `index`:
   * its names are the listing's, and each maps to a closed, well-formed
   * entity on `backend` for the handle the table gives that name.
   */
  ghost predicate Indexes(files: map<Name, VirtualFileEntity>, backend: VirtualFileSystemBackend, index: seq<FileInfo>)
    reads files.Values, set e | e in files.Values :: e.content
  {
    && files.Keys == Table(index).Keys
    && forall n | n in files ::
         && files[n].backend == backend && files[n].handle == Table(index)[n]
         && files[n].Valid() && files[n].CurrentStatus() == Status(0, false)
  }

  /** The loop of `buildFileIndex()` over a listing `index`: one new entity per name. */
  method NewEntities(backend: VirtualFileSystemBackend, index: seq<FileInfo>) returns (files: map<Name, VirtualFileEntity>)
    ensures Indexes(files, backend, index)
    ensures forall n | n in files :: fresh(files[n])
  {
    files := map[];
    for k := 0 to |index|
      invariant files.Keys == Table(index[..k]).Keys
      invariant forall n | n in files ::
                  && files[n].handle == Table(index[..k])[n]
                  && fresh(files[n]) && files[n].backend == backend
                  && files[n].Valid() && files[n].CurrentStatus() == Status(0, false)
    {
      var entity := new VirtualFileEntity(backend, index[k].handle);
      files := files[index[k].name := entity];
      assert index[..k + 1][..k] == index[..k];
    }
    assert index[..|index|] == index;
  }

  /** With the listing's handles listed and distinct, a table of it keeps the frontend's invariant. */
  lemma IndexesEntities(files: map<Name, VirtualFileEntity>, backend: VirtualFileSystemBackend,
                        index: seq<FileInfo>, listed: seq<Ref>)
    requires Indexes(files, backend, index)
    requires |index| == |listed| && forall k | 0 <= k < |index| :: index[k].handle == listed[k]
    requires forall i, j | 0 <= i < j < |listed| :: listed[i] != listed[j]
    ensures Entities(files, backend, listed)
  {
    TableInjective(index);
    forall n | n in files
      ensures files[n].handle in listed
    {
      TableFrom(index, n);
      var k :| 0 <= k < |index| && index[k].name == n && index[k].handle == Table(index)[n];
      assert listed[k] == files[n].handle;
    }
  }

  /** `buildFileIndex()`: the table of the backend's listing, of new entities. */
  method BuildFileIndex(backend: VirtualFileSystemBackend) returns (files: map<Name, VirtualFileEntity>)
    requires backend.Valid()
    ensures Entities(files, backend, backend.files)
    ensures Indexes(files, backend, Infos(backend.storage.blocks, backend.files))
    ensures forall n | n in files :: fresh(files[n])
  {
    var index := backend.BuildIndex();
    files := NewEntities(backend, index);
    IndexesEntities(files, backend, index, backend.files);
  }

  // ---------------------------------------------------------------------------
  // The frontend

  /**
   * The table's invariant, with `listed` the backend's entries: every
   * entity sits on `backend` and has a listed handle, and no two names
   * share a handle.
   */
  ghost predicate Entities(files: map<Name, VirtualFileEntity>, backend: VirtualFileSystemBackend, listed: seq<Ref>) {
    && (forall n | n in files :: files[n].backend == backend && files[n].handle in listed)
    && (forall n, m | n in files && m in files && n != m :: files[n].handle != files[m].handle)
  }

  /** Adding a name for a new entry's entity keeps the invariant. */
  lemma EntitiesAdd(files: map<Name, VirtualFileEntity>, backend: VirtualFileSystemBackend, listed: seq<Ref>,
                    name: Name, e: VirtualFileEntity)
    requires Entities(files, backend, listed) && name !in files
    requires e.backend == backend && e.handle !in listed
    ensures Entities(files[name := e], backend, listed + [e.handle])
  {
  }

  /** Removing a name together with its entry keeps the invariant. */
  lemma EntitiesRemove(files: map<Name, VirtualFileEntity>, backend: VirtualFileSystemBackend, listed: seq<Ref>,
                       name: Name, i: int)
    requires Entities(files, backend, listed) && name in files
    requires 0 <= i < |listed| && listed[i] == files[name].handle
    ensures Entities(files - {name}, backend, listed[..i] + listed[i + 1..])
  {
    var files' := files - {name};
    forall n | n in files'
      ensures files'[n].handle in listed[..i] + listed[i + 1..]
    {
      InRemoved(listed, i, files'[n].handle);
    }
  }

  /**
   * What opening `file`, whose status was `before`, behind a channel gives:
   * on failure the status is as it was; on success a channel at 0 on the
   * file and one more holder; and the first open returns the backend's
   * error or holds the bytes the backend loads.
   */
  ghost predicate OpenedAs(file: VirtualFileEntity, before: Status, isReadOnly: bool, r: Result<VirtualFileChannel>)
    requires file.backend.Valid()
    reads file, file.content, file.backend, file.backend.storage, if r.Ok? then {r.value} else {}
  {
    && (r.Err? ==> file.CurrentStatus() == before)
    && (r.Ok? ==>
          && r.value.file == file && r.value.isReadOnly == isReadOnly
          && r.value.position == 0 && r.value.Valid()
          && file.CurrentStatus() == AfterOpen(before))
    && (before.openCounter == 0 ==>
          match file.Loaded()
          case Err(e) => r == Err(e)
          case Ok(bytes) => r.Ok? && file.Valid() && file.Content() == bytes)
  }

  class VirtualFileSystemFrontend {
    const backend: VirtualFileSystemBackend
    var files: map<Name, VirtualFileEntity>

    ghost predicate Valid()
      reads this, backend, backend.storage
    {
      backend.Valid() && Entities(files, backend, backend.files)
    }

    /** The frontend over `backend`: its table is the one `buildFileIndex()` makes. */
    constructor (backend: VirtualFileSystemBackend)
      requires backend.Valid()
      ensures this.backend == backend && Valid()
      ensures Indexes(files, backend, Infos(backend.storage.blocks, backend.files))
      ensures forall n | n in files :: fresh(files[n])
    {
      var table := BuildFileIndex(backend);
      this.backend := backend;
      files := table;
    }

    /**
     * `createFile(fileName)`: fails when the name is present; otherwise the
     * backend creates the file and the name maps to a new, closed entity
     * for its handle, all other names keeping theirs.
     */
    method CreateFile(fileName: Name) returns (outcome: Outcome)
      requires Valid() && |backend.storage.blocks| < REF_LIMIT
      modifies this, backend, backend.storage
      ensures Valid()
      ensures fileName in old(files) ==>
                outcome == Fail(AlreadyExists) && files == old(files) && unchanged(backend, backend.storage)
      ensures fileName !in old(files) ==>
                && outcome == Pass && fileName in files
                && files == old(files)[fileName := files[fileName]]
                && fresh(files[fileName]) && files[fileName].Valid() && files[fileName].CurrentStatus() == Status(0, false)
                && backend.files == old(backend.files) + [files[fileName].handle]
                && Infos(backend.storage.blocks, backend.files)
                   == old(Infos(backend.storage.blocks, backend.files)) + [FileInfo(fileName, 0, files[fileName].handle)]
    {
      if fileName in files {
        return Fail(AlreadyExists);
      }
      var _ := AddEntity(fileName);
      outcome := Pass;
    }

    /**
     * `deleteFile(fileName)`: fails when the name is absent or its file is
     * open, without touching the backend; otherwise the backend deletes the
     * file and the name leaves the table.
     */
    method DeleteFile(fileName: Name) returns (outcome: Outcome)
      requires Valid()
      modifies this, backend, backend.storage
      ensures Valid()
      ensures fileName !in old(files) ==>
                outcome == Fail(NotFound) && files == old(files) && unchanged(backend, backend.storage)
      ensures fileName in old(files) && old(files[fileName].IsOpen()) ==>
                outcome == Fail(InUse) && files == old(files) && unchanged(backend, backend.storage)
      ensures fileName in old(files) && !old(files[fileName].IsOpen()) ==>
                && outcome == Pass && files == old(files) - {fileName}
                && var h := old(files[fileName].handle);
                   && h in old(backend.files)
                   && var i := IndexOf(old(backend.files), h);
                      backend.files == old(backend.files)[..i] + old(backend.files)[i + 1..]
    {
      if fileName !in files {
        return Fail(NotFound);
      }
      var file := files[fileName];
      if file.IsOpen() {
        return Fail(InUse);
      }
      ghost var listed := backend.files;
      ghost var i := IndexOf(listed, file.handle);
      outcome := backend.DeleteFile(file.handle);
      EntitiesRemove(files, backend, listed, fileName, i);
      files := files - {fileName};
    }

    /**
     * `openFileForReading(fileName)`: fails when the name is absent;
     * otherwise opens its entity and returns a new read-only channel on it
     * with the cursor at 0. A failed open returns its error.
     */
    method OpenFileForReading(fileName: Name) returns (r: Result<VirtualFileChannel>)
      requires Valid()
      modifies if fileName in files then {files[fileName]} else {}
      ensures Valid() && unchanged(backend, backend.storage)
      ensures r.Ok? ==> fresh(r.value)
      ensures fileName !in files ==> r == Err(NotFound)
      ensures fileName in files ==>
                && (old(files[fileName].Valid()) ==> files[fileName].Valid())
                && OpenedAs(files[fileName], old(files[fileName].CurrentStatus()), true, r)
    {
      if fileName !in files {
        return Err(NotFound);
      }
      var file := files[fileName];
      r := OpenChannel(file, true);
    }

    /**
     * `openFileForWriting(fileName)`: creates the file, as `createFile`
     * does, when the name is absent, then opens its entity and returns a
     * new writable channel on it with the cursor at 0.
     */
    method OpenFileForWriting(fileName: Name) returns (r: Result<VirtualFileChannel>)
      requires Valid() && |backend.storage.blocks| < REF_LIMIT
      modifies this, backend, backend.storage, if fileName in files then {files[fileName]} else {}
      ensures Valid() && fileName in files
      ensures r.Ok? ==> fresh(r.value)
      ensures fileName in old(files) ==>
                && files == old(files) && unchanged(backend, backend.storage)
                && (old(files[fileName].Valid()) ==> files[fileName].Valid())
                && OpenedAs(files[fileName], old(files[fileName].CurrentStatus()), false, r)
      ensures fileName !in old(files) ==>
                && files == old(files)[fileName := files[fileName]] && fresh(files[fileName])
                && backend.files == old(backend.files) + [files[fileName].handle]
                && files[fileName].Valid()
                && OpenedAs(files[fileName], Status(0, false), false, r)
    {
      if fileName in files {
        r := OpenChannel(files[fileName], false);
      } else {
        var file := AddEntity(fileName);
        r := OpenChannel(file, false);
      }
    }

    /** A new, closed entity for a file the backend creates, listed under `fileName`. */
    method AddEntity(fileName: Name) returns (file: VirtualFileEntity)
      requires Valid() && |backend.storage.blocks| < REF_LIMIT && fileName !in files
      modifies this, backend, backend.storage
      ensures Valid() && files == old(files)[fileName := file]
      ensures fresh(file) && file.backend == backend && file.Valid() && file.CurrentStatus() == Status(0, false)
      ensures backend.files == old(backend.files) + [file.handle]
      ensures Infos(backend.storage.blocks, backend.files)
              == old(Infos(backend.storage.blocks, backend.files)) + [FileInfo(fileName, 0, file.handle)]
    {
      ghost var listed := backend.files;
      var fileHandle := backend.CreateFile(fileName);
      file := new VirtualFileEntity(backend, fileHandle);
      EntitiesAdd(files, backend, listed, fileName, file);
      files := files[fileName := file];
    }

    /** `file.open()` behind a new channel: the open's error, or the channel. */
    method OpenChannel(file: VirtualFileEntity, isReadOnly: bool) returns (r: Result<VirtualFileChannel>)
      requires Valid() && file.backend == backend
      modifies file
      ensures unchanged(backend, backend.storage)
      ensures old(file.Valid()) ==> file.Valid()
      ensures r.Ok? ==> fresh(r.value)
      ensures OpenedAs(file, old(file.CurrentStatus()), isReadOnly, r)
    {
      var outcome := file.Open();
      if outcome.Fail? {
        return Err(outcome.error);
      }
      var channel := new VirtualFileChannel(file, isReadOnly);
      r := Ok(channel);
    }
  }
}
