/**
 * The local file system the storage classes read uploads from and write
 * downloads to, reduced to what they observe: the bytes of readable files,
 * the paths that are regular files, the entries a directory iterator
 * yields, and the paths that cannot be written.
 */
module LocalDisk {
  import opened Results
  import opened Drive

  /**
   * file_put_contents($path, $data): the number of bytes written, or None
   * (false) when the path cannot be written, and the files afterwards.
   */
  function PutContents(files: map<string, Bytes>, unwritable: set<string>, path: string, data: Bytes)
    : (Option<nat>, map<string, Bytes>)
  {
    if path in unwritable then (None, files) else (Some(|data|), files[path := data])
  }

  class Disk {
    /** file_get_contents() of every readable file. */
    var files: map<string, Bytes>
    /** The paths `isFile()` is true of; a regular file need not be readable. */
    const regular: set<string>
    /** For every directory, the pathnames its DirectoryIterator yields, in order ('.', '..' and subdirectories included). */
    const dirs: map<string, seq<string>>
    const unwritable: set<string>

    constructor (files: map<string, Bytes>, regular: set<string>, dirs: map<string, seq<string>>,
                 unwritable: set<string>)
      ensures this.files == files && this.regular == regular && this.dirs == dirs && this.unwritable == unwritable
    {
      this.files := files;
      this.regular := regular;
      this.dirs := dirs;
      this.unwritable := unwritable;
    }

    method FilePutContents(path: string, data: Bytes) returns (written: Option<nat>)
      modifies this
      ensures (written, files) == PutContents(old(files), unwritable, path, data)
    {
      var r := PutContents(files, unwritable, path, data);
      written, files := r.0, r.1;
    }
  }
}
