/**
 * OnlineStorage: the older storage class. It creates directories from the
 * top of the drive, with no write-directory prefix, and uploads a single
 * file into a directory the caller names by id.
 */
module Online {
  import opened Results
  import opened Strings
  import opened Drive
  import opened Resolver
  import opened Transfer
  import opened LocalDisk

  /** ROOT_DIR. */
  const RootDir: string := "data"

  /** The pieces makeDirectoryRecursively() walks: `explode('/', $directories)`, never empty. */
  function DirectorySegments(directories: string): (r: seq<string>)
    ensures r != [] && Join(r, '/') == directories
  {
    JoinSplit(directories, '/');
    Split(directories, '/')
  }

  /**
   * On success makeDirectoryRecursively() returns the directory its path
   * resolves to from the top, and a second call with the same path
   * returns the same id and creates nothing.
   */
  lemma MakeDirectoryResolves(t: Tree, refused: set<string>, directories: string)
    requires WellFormed(t) && Materialize(t, refused, Top, DirectorySegments(directories)).0.Ok?
    ensures var m := Materialize(t, refused, Top, DirectorySegments(directories));
      Resolve(m.1, Top, DirectorySegments(directories), Some(Dir)) == Ok(Some(m.0.value))
    ensures var m := Materialize(t, refused, Top, DirectorySegments(directories));
      Materialize(m.1, refused, Top, DirectorySegments(directories)) == m
  {
    MaterializeResolves(t, refused, Top, DirectorySegments(directories));
    MaterializeIdempotent(t, refused, Top, DirectorySegments(directories));
  }

  /** An OnlineStorage over one drive adapter. */
  class OnlineStorage {
    const fs: Adapter

    constructor (fs: Adapter)
      ensures this.fs == fs
    {
      this.fs := fs;
    }

    /** makeDirectoryRecursively(): the chain of `directories` from the top, created where missing. */
    method MakeDirectoryRecursively(directories: string) returns (r: Result<Id>)
      requires fs.Valid()
      modifies fs
      ensures fs.Valid() && fs.contents == old(fs.contents)
      ensures (r, fs.entries) == Materialize(old(fs.entries), fs.refused, Top, DirectorySegments(directories))
    {
      r := MaterializeIn(fs, DirectorySegments(directories));
    }

    /**
     * upload(): put the local file over the same-named file in `parent`,
     * or as a new file "$parent/$filename" when there is none.
     */
    method Upload(disk: Disk, fileSpec: string, parent: Id) returns (r: Result<bool>)
      requires fs.Valid()
      modifies fs
      ensures fs.Valid()
      ensures (r, fs.entries, fs.contents)
           == PutOne(old(fs.entries), old(fs.contents), fs.refused, parent, fileSpec, disk.files)
    {
      var target := UploadTarget(fs.entries, parent, fileSpec);
      if target.Err? {
        return Err(target.error);
      }
      if fileSpec !in disk.files {
        return Err(LocalReadFailed(fileSpec));
      }
      var ok := fs.Put(target.value, disk.files[fileSpec]);
      r := Ok(ok);
    }
  }
}
