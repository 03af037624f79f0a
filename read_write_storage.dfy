/**
 * ReadWriteStorage: reads below the read directory "data", writes below
 * the write directory "building...". Path resolution, directory creation,
 * uploading from and downloading to the local disk.
 */
module ReadWrite {
  import opened Results
  import opened Strings
  import opened Queries
  import opened Drive
  import opened Resolver
  import opened Transfer
  import opened LocalDisk

  /** READ_DIR and WRITE_DIR. */
  const ReadDir: string := "data"
  const WriteDir: string := "building..."

  // -------------------------------------------------------------- segments

  /** `array_merge(explode('/', READ_DIR), explode('/', $filespec))`: "data" and then the pieces of the path. */
  function LeafSegments(filespec: string): (r: seq<string>)
    ensures r == [ReadDir] + Split(filespec, '/')
  {
    SplitWithoutSeparator(ReadDir, '/');
    Split(ReadDir, '/') + Split(filespec, '/')
  }

  /** `array_merge(explode('/', WRITE_DIR), explode('/', $directories))`: "building..." and then the pieces. */
  function WriteSegments(directories: string): (r: seq<string>)
    ensures r == [WriteDir] + Split(directories, '/')
  {
    SplitWithoutSeparator(WriteDir, '/');
    Split(WriteDir, '/') + Split(directories, '/')
  }

  /** A resolved chain of one or more segments ends at an entry of the tree, whose id PHP reads as true. */
  lemma ResolvedExists(t: Tree, parent: Id, segments: seq<string>, kind: Option<Kind>, id: Id)
    requires WellFormed(t) && segments != [] && Resolve(t, parent, segments, kind) == Ok(Some(id))
    ensures id in Ids(t) && Truthy(id)
  {
    var q, e := ResolveLastStep(t, parent, segments, kind, id);
    FoundInTree(t, segments[|segments| - 1], q, kind, e);
    var i :| 0 <= i < |t| && t[i] == e;
  }

  /**
   * createDirectories(): on success the returned id is the directory the
   * chain "building.../<directories>" resolves to, and a second call
   * returns the same id and creates nothing.
   */
  lemma CreateDirectoriesResolves(t: Tree, refused: set<string>, directories: string)
    requires WellFormed(t) && Materialize(t, refused, Top, WriteSegments(directories)).0.Ok?
    ensures var m := Materialize(t, refused, Top, WriteSegments(directories));
      Resolve(m.1, Top, [WriteDir] + Split(directories, '/'), Some(Dir)) == Ok(Some(m.0.value))
    ensures var m := Materialize(t, refused, Top, WriteSegments(directories));
      Materialize(m.1, refused, Top, WriteSegments(directories)) == m
  {
    MaterializeResolves(t, refused, Top, WriteSegments(directories));
    MaterializeIdempotent(t, refused, Top, WriteSegments(directories));
  }

  // ---------------------------------------------------------------- upload

  /** `$iterator->isFile()`, for the pathnames a directory iterator yields: the path is a regular file. */
  function IsLocalFile(regular: set<string>): string -> bool { (p: string) => p in regular }

  /**
   * The local files upload() sends: the regular files a directory iterator
   * yields, in its order, when `fileSpec` is a directory, otherwise
   * `fileSpec` alone.
   */
  function LocalSelection(regular: set<string>, dirs: map<string, seq<string>>, fileSpec: string)
    : (r: seq<string>)
    ensures fileSpec !in dirs ==> r == [fileSpec]
    ensures fileSpec in dirs ==> forall i :: 0 <= i < |r| ==> r[i] in regular && r[i] in dirs[fileSpec]
    ensures fileSpec in dirs ==>
      forall i :: 0 <= i < |dirs[fileSpec]| && dirs[fileSpec][i] in regular ==> dirs[fileSpec][i] in r
  {
    if fileSpec in dirs then Where(dirs[fileSpec], IsLocalFile(regular)) else [fileSpec]
  }

  /**
   * upload($fileSpec, $parent): create the write directory chain for
   * `parent`, then put every selected local file into its leaf. A failed
   * directory creation is an error and keeps the directories made before it.
   */
  function UploadAll(t: Tree, contents: map<Id, Bytes>, refused: set<string>, files: map<string, Bytes>,
                     regular: set<string>, dirs: map<string, seq<string>>, fileSpec: string, parent: string)
    : (r: (Result<bool>, Tree, map<Id, Bytes>))
    ensures WellFormed(t) && Stored(t, contents) ==> WellFormed(r.1) && Stored(r.1, r.2)
  {
    var m := Materialize(t, refused, Top, WriteSegments(parent));
    assert WellFormed(t) && Stored(t, contents) ==> WellFormed(m.1) && Stored(m.1, contents) by {
      if WellFormed(t) && Stored(t, contents) { MaterializeWellFormed(t, refused, Top, WriteSegments(parent), contents); }
    }
    if m.0.Err? then (Err(m.0.error), m.1, contents)
    else
      PutAll(m.1, contents, refused, m.0.value, LocalSelection(regular, dirs, fileSpec), files)
  }

  /** Uploading a directory with no files creates the write directories and returns true. */
  lemma UploadNothing(t: Tree, contents: map<Id, Bytes>, refused: set<string>, files: map<string, Bytes>,
                      regular: set<string>, dirs: map<string, seq<string>>, fileSpec: string, parent: string)
    requires Materialize(t, refused, Top, WriteSegments(parent)).0.Ok?
    requires fileSpec in dirs && forall i :: 0 <= i < |dirs[fileSpec]| ==> dirs[fileSpec][i] !in regular
    ensures UploadAll(t, contents, refused, files, regular, dirs, fileSpec, parent)
         == (Ok(true), Materialize(t, refused, Top, WriteSegments(parent)).1, contents)
  {
    WhereNone(dirs[fileSpec], IsLocalFile(regular));
  }

  /**
   * After a successful upload, the k-th uploaded file, when no later file
   * shares its base name, is the one file of that name in the leaf of the
   * chain "building.../<parent>" and holds the local bytes.
   */
  lemma UploadLands(t: Tree, contents: map<Id, Bytes>, refused: set<string>, files: map<string, Bytes>,
                    regular: set<string>, dirs: map<string, seq<string>>, fileSpec: string, parent: string, k: nat)
    returns (directory: Id, e: Entry)
    requires WellFormed(t) && Stored(t, contents)
    requires UploadAll(t, contents, refused, files, regular, dirs, fileSpec, parent).0 == Ok(true)
    requires var s := LocalSelection(regular, dirs, fileSpec);
      k < |s| && forall i :: k < i < |s| ==> Basename(s[i]) != Basename(s[k])
    ensures var m := Materialize(t, refused, Top, WriteSegments(parent));
      m.0 == Ok(directory) && Resolve(m.1, Top, [WriteDir] + Split(parent, '/'), Some(Dir)) == Ok(Some(directory))
    ensures var s := LocalSelection(regular, dirs, fileSpec);
      var r := UploadAll(t, contents, refused, files, regular, dirs, fileSpec, parent);
      FindFile(r.1, Basename(s[k]), directory) == Ok(Some(e)) && e.id in r.2 && r.2[e.id] == files[s[k]]
  {
    var m := Materialize(t, refused, Top, WriteSegments(parent));
    directory := m.0.value;
    MaterializeResolves(t, refused, Top, WriteSegments(parent));
    MaterializeWellFormed(t, refused, Top, WriteSegments(parent), contents);
    e := PutAllStores(m.1, contents, refused, directory, LocalSelection(regular, dirs, fileSpec), files, k);
  }

  // -------------------------------------------------------------- download

  function IsFile(): Entry -> bool { (e: Entry) => e.kind == File }

  /**
   * The entries download() writes: the files directly inside a directory,
   * or the file itself; None when the id has no metadata.
   */
  function Selection(t: Tree, id: Id): (r: Option<seq<Entry>>)
    ensures r.None? <==> Lookup(t, id).None?
    ensures r.Some? ==> forall i :: 0 <= i < |r.value| ==> r.value[i] in t && r.value[i].kind == File
    ensures r.Some? && Lookup(t, id).value.kind == Dir ==>
      && (forall i :: 0 <= i < |r.value| ==> r.value[i].parent == id)
      && (forall i :: 0 <= i < |t| && t[i].parent == id && t[i].kind == File ==> t[i] in r.value)
    ensures r.Some? && Lookup(t, id).value.kind == File ==> r.value == [Lookup(t, id).value]
  {
    match Lookup(t, id)
    case None => None
    case Some(e) =>
      if e.kind == Dir then
        var children := Children(t, id);
        assert forall i :: 0 <= i < |t| && t[i].parent == id ==> t[i] in children;
        Some(Where(children, IsFile()))
      else
        assert Where([e], IsFile()) == Where([], IsFile()) + [e];
        Some(Where([e], IsFile()))
  }

  /** `$this->filesystem->read($v['path'])`; a missing blob reads as false, which file_put_contents writes as "". */
  function ReadBytes(contents: map<Id, Bytes>, id: Id): Bytes
  {
    if id in contents then contents[id] else []
  }

  /**
   * The source's test of a write: `(bool)file_put_contents(...)`, false for
   * a failed write and also for a write of zero bytes.
   */
  function CastToBool(written: Option<nat>): bool { written.Some? && written.value != 0 }

  /** Whether a write succeeded, as the documented result of download() means it. */
  function Written(written: Option<nat>): bool { written.Some? }

  /**
   * `->all(...)` over the selected entries: write each under its name on
   * the local disk, stopping at the first write `ok` rejects.
   */
  function WriteAll(files: map<string, Bytes>, unwritable: set<string>, contents: map<Id, Bytes>, es: seq<Entry>,
                    ok: Option<nat> -> bool)
    : (r: (bool, map<string, Bytes>))
    decreases |es|
  {
    if es == [] then (true, files)
    else
      var w := PutContents(files, unwritable, es[0].name, ReadBytes(contents, es[0].id));
      if !ok(w.0) then (false, w.1)
      else WriteAll(w.1, unwritable, contents, es[1..], ok)
  }

  /** With the intended test, the result is the AND of the writes: true iff every name is writable. */
  lemma {:induction false} WriteAllAnd(files: map<string, Bytes>, unwritable: set<string>, contents: map<Id, Bytes>,
                                       es: seq<Entry>)
    ensures WriteAll(files, unwritable, contents, es, Written).0 <==> forall i :: 0 <= i < |es| ==> es[i].name !in unwritable
    decreases |es|
  {
    if es != [] {
      var w := PutContents(files, unwritable, es[0].name, ReadBytes(contents, es[0].id));
      WriteAllAnd(w.1, unwritable, contents, es[1..]);
      assert forall i :: 1 <= i < |es| ==> es[i] == es[1..][i - 1];
    }
  }

  /**
   * With the source's `(bool)` cast, the result is true iff every name is
   * writable and every file read from the drive is non-empty.
   */
  lemma {:induction false} WriteAllCast(files: map<string, Bytes>, unwritable: set<string>, contents: map<Id, Bytes>,
                                        es: seq<Entry>)
    ensures WriteAll(files, unwritable, contents, es, CastToBool).0
        <==> forall i :: 0 <= i < |es| ==> es[i].name !in unwritable && ReadBytes(contents, es[i].id) != []
    decreases |es|
  {
    if es != [] {
      var w := PutContents(files, unwritable, es[0].name, ReadBytes(contents, es[0].id));
      WriteAllCast(w.1, unwritable, contents, es[1..]);
      assert forall i :: 1 <= i < |es| ==> es[i] == es[1..][i - 1];
    }
  }

  /** Local paths that are no entry's name are left as they were, whatever the outcome. */
  lemma {:induction false} WriteAllKeeps(files: map<string, Bytes>, unwritable: set<string>, contents: map<Id, Bytes>,
                                         es: seq<Entry>, ok: Option<nat> -> bool, p: string)
    requires forall i :: 0 <= i < |es| ==> es[i].name != p
    ensures var r := WriteAll(files, unwritable, contents, es, ok).1;
      (p in r <==> p in files) && (p in files ==> r[p] == files[p])
    decreases |es|
  {
    if es != [] {
      var w := PutContents(files, unwritable, es[0].name, ReadBytes(contents, es[0].id));
      assert forall i :: 0 <= i < |es[1..]| ==> es[1..][i] == es[i + 1];
      WriteAllKeeps(w.1, unwritable, contents, es[1..], ok, p);
    }
  }

  /**
   * After a download that reported true, each entry whose name no later
   * entry repeats is on the local disk with the bytes read from the drive.
   */
  lemma {:induction false} WriteAllStores(files: map<string, Bytes>, unwritable: set<string>, contents: map<Id, Bytes>,
                                          es: seq<Entry>, k: nat)
    requires WriteAll(files, unwritable, contents, es, Written).0
    requires k < |es| && forall i :: k < i < |es| ==> es[i].name != es[k].name
    ensures var r := WriteAll(files, unwritable, contents, es, Written).1;
      es[k].name in r && r[es[k].name] == ReadBytes(contents, es[k].id)
    decreases |es|
  {
    var w := PutContents(files, unwritable, es[0].name, ReadBytes(contents, es[0].id));
    var rest := es[1..];
    assert forall i :: 0 <= i < |rest| ==> rest[i] == es[i + 1];
    if k == 0 {
      WriteAllKeeps(w.1, unwritable, contents, rest, Written, es[0].name);
    } else {
      WriteAllStores(w.1, unwritable, contents, rest, k - 1);
    }
  }

  /**
   * The discrepancy of the source's `(bool)` cast: a writable empty file is
   * written (zero bytes), yet the download reports false.
   */
  lemma EmptyFileReportsFailure(files: map<string, Bytes>, unwritable: set<string>, contents: map<Id, Bytes>, e: Entry)
    requires e.name !in unwritable && ReadBytes(contents, e.id) == []
    ensures !WriteAll(files, unwritable, contents, [e], CastToBool).0
    ensures WriteAll(files, unwritable, contents, [e], Written).0
    ensures WriteAll(files, unwritable, contents, [e], Written).1 == files[e.name := []]
  {
  }

  /**
   * download($filespec): resolve "data/<filespec>", fail when it does not
   * resolve, otherwise write the selected files to the local disk, judging
   * each write by `ok`: CastToBool as the source is written, Written as
   * its documentation intends.
   */
  function DownloadAll(t: Tree, contents: map<Id, Bytes>, files: map<string, Bytes>, unwritable: set<string>,
                       filespec: string, ok: Option<nat> -> bool)
    : (r: (Result<bool>, map<string, Bytes>))
    ensures r.0.Err? ==> r.1 == files
  {
    match Resolve(t, Top, LeafSegments(filespec), None)
    case Err(e) => (Err(e), files)
    case Ok(found) =>
      if found.None? || !Truthy(found.value) then (Err(NotFound(filespec)), files)
      else
        match Selection(t, found.value)
        case None => (Err(NotFound(filespec)), files)
        case Some(es) =>
          var w := WriteAll(files, unwritable, contents, es, ok);
          (Ok(w.0), w.1)
  }

  /** A path that does not resolve below "data" is the "File not found in read directory" error. */
  lemma DownloadUnresolved(t: Tree, contents: map<Id, Bytes>, files: map<string, Bytes>, unwritable: set<string>,
                           filespec: string, ok: Option<nat> -> bool)
    requires Resolve(t, Top, LeafSegments(filespec), None) == Ok(None)
    ensures DownloadAll(t, contents, files, unwritable, filespec, ok) == (Err(NotFound(filespec)), files)
  {
  }

  /**
   * A path that resolves is downloaded: the selection of its files is
   * written in order, stopping at the first write `ok` rejects. As written,
   * the result is true iff every selected name is writable and every
   * selected file is non-empty; with the intended test, iff every selected
   * name is writable.
   */
  lemma DownloadResolved(t: Tree, contents: map<Id, Bytes>, files: map<string, Bytes>, unwritable: set<string>,
                         filespec: string, id: Id, ok: Option<nat> -> bool)
    returns (es: seq<Entry>)
    requires WellFormed(t) && Resolve(t, Top, LeafSegments(filespec), None) == Ok(Some(id))
    ensures Selection(t, id) == Some(es)
    ensures var w := WriteAll(files, unwritable, contents, es, ok);
      DownloadAll(t, contents, files, unwritable, filespec, ok) == (Ok(w.0), w.1)
    ensures DownloadAll(t, contents, files, unwritable, filespec, CastToBool).0 == Ok(true)
        <==> forall i :: 0 <= i < |es| ==> es[i].name !in unwritable && ReadBytes(contents, es[i].id) != []
    ensures DownloadAll(t, contents, files, unwritable, filespec, Written).0 == Ok(true)
        <==> forall i :: 0 <= i < |es| ==> es[i].name !in unwritable
  {
    ResolvedExists(t, Top, LeafSegments(filespec), None, id);
    es := Selection(t, id).value;
    WriteAllCast(files, unwritable, contents, es);
    WriteAllAnd(files, unwritable, contents, es);
  }

  // ----------------------------------------------------------------- class

  /** A ReadWriteStorage over one drive adapter. */
  class ReadWriteStorage {
    const fs: Adapter

    constructor (fs: Adapter)
      ensures this.fs == fs
    {
      this.fs := fs;
    }

    /**
     * findLeafObject(): the do-while walk over "data" and the pieces of
     * `filespec`, one find() per piece; the list is never empty, so the
     * loop test may come first.
     */
    method FindLeafObject(filespec: string) returns (r: Result<Option<Id>>)
      ensures r == Resolve(fs.entries, Top, LeafSegments(filespec), None)
    {
      var directories := LeafSegments(filespec);
      var parent := Top;
      while directories != []
        invariant Resolve(fs.entries, Top, LeafSegments(filespec), None)
               == Resolve(fs.entries, parent, directories, None)
        decreases |directories|
      {
        var directory := directories[0];
        directories := directories[1..];
        var response := Find(fs.entries, directory, parent, None);
        if response.Err? {
          return Err(response.error);
        }
        if response.value.None? {
          return Ok(None);
        }
        parent := response.value.value.id;
      }
      return Ok(Some(parent));
    }

    /** createDirectories(): the chain "building.../<directories>" below the top. */
    method CreateDirectories(directories: string) returns (r: Result<Id>)
      requires fs.Valid()
      modifies fs
      ensures fs.Valid() && fs.contents == old(fs.contents)
      ensures (r, fs.entries) == Materialize(old(fs.entries), fs.refused, Top, WriteSegments(directories))
    {
      r := MaterializeIn(fs, WriteSegments(directories));
    }

    /** upload(): create the destination, select the local files, put them one by one. */
    method Upload(disk: Disk, fileSpec: string, parent: string) returns (r: Result<bool>)
      requires fs.Valid()
      modifies fs
      ensures fs.Valid()
      ensures (r, fs.entries, fs.contents)
           == UploadAll(old(fs.entries), old(fs.contents), fs.refused, disk.files, disk.regular, disk.dirs, fileSpec,
                        parent)
    {
      var directory := CreateDirectories(parent);
      if directory.Err? {
        return Err(directory.error);
      }
      var selected := LocalSelection(disk.regular, disk.dirs, fileSpec);
      r := PutEach(fs, directory.value, selected, disk.files);
    }

    /** The `all()` loop of download(): write each entry, stop at the first failure. */
    method WriteEach(disk: Disk, es: seq<Entry>) returns (ok: bool)
      modifies disk
      ensures (ok, disk.files) == WriteAll(old(disk.files), disk.unwritable, fs.contents, es, Written)
    {
      var i := 0;
      while i < |es|
        invariant 0 <= i <= |es|
        invariant WriteAll(old(disk.files), disk.unwritable, fs.contents, es, Written)
               == WriteAll(disk.files, disk.unwritable, fs.contents, es[i..], Written)
      {
        assert es[i..][0] == es[i] && es[i..][1..] == es[i + 1..];
        var written := disk.FilePutContents(es[i].name, ReadBytes(fs.contents, es[i].id));
        if !Written(written) {
          return false;
        }
        i := i + 1;
      }
      return true;
    }

    /** download(). */
    method Download(disk: Disk, filespec: string) returns (r: Result<bool>)
      modifies disk
      ensures (r, disk.files) == DownloadAll(fs.entries, fs.contents, old(disk.files), disk.unwritable, filespec, Written)
    {
      var found := FindLeafObject(filespec);
      if found.Err? {
        return Err(found.error);
      }
      if found.value.None? || !Truthy(found.value.value) {
        return Err(NotFound(filespec));
      }
      var selected := Selection(fs.entries, found.value.value);
      if selected.None? {
        return Err(NotFound(filespec));
      }
      var ok := WriteEach(disk, selected.value);
      r := Ok(ok);
    }
  }
}
