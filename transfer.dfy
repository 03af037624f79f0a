/**
 * The upload step both storage classes share: find any existing file of
 * the same base name under the destination and put the local bytes either
 * over it or as a new file "$directory/$filename".
 */
module Transfer {
  import opened Results
  import opened Strings
  import opened Drive
  import opened Resolver

  /**
   * `$file['basename'] ?: "$directory/$filename"`: the existing same-named
   * file when findFile() reports one, a new file otherwise. An ambiguous
   * name is findFile()'s error.
   */
  function UploadTarget(t: Tree, directory: Id, path: string): (r: Result<Target>)
    ensures r.Err? <==> |Matches(t, Basename(path), directory, Some(File))| > 1
    ensures r.Ok? && r.value.Existing? ==>
      exists i :: 0 <= i < |t| && t[i].id == r.value.id && IsMatch(t[i], Basename(path), directory, Some(File))
    ensures r.Ok? && r.value.NewIn? ==> r.value == NewIn(directory, Basename(path))
    ensures r.Ok? && r.value.NewIn? && WellFormed(t) ==>
      forall i :: 0 <= i < |t| ==> !IsMatch(t[i], Basename(path), directory, Some(File))
  {
    var name := Basename(path);
    var file :- FindFile(t, name, directory);
    if file.Some? && Truthy(file.value.id) then Ok(Existing(file.value.id))
    else Ok(NewIn(directory, name))
  }

  /**
   * One upload: choose the target, read the local file, put it. A local
   * file that cannot be read is an error naming it.
   */
  function PutOne(t: Tree, contents: map<Id, Bytes>, refused: set<string>, directory: Id, path: string,
                  local: map<string, Bytes>): (r: (Result<bool>, Tree, map<Id, Bytes>))
    ensures WellFormed(t) && Stored(t, contents) ==> WellFormed(r.1) && Stored(r.1, r.2)
    ensures r.0 != Ok(true) ==> r.1 == t && r.2 == contents
    ensures r.0 == Ok(true) ==> path in local
  {
    match UploadTarget(t, directory, path)
    case Err(e) => (Err(e), t, contents)
    case Ok(target) =>
      if path !in local then (Err(LocalReadFailed(path)), t, contents)
      else
        var put := PutIn(t, contents, refused, target, local[path]);
        (Ok(put.0), put.1, put.2)
  }

  /**
   * `from($files)->all(...)`: upload each path in turn and stop at the
   * first put that fails (false) or throws; true when every put succeeded,
   * including for no paths at all.
   */
  function PutAll(t: Tree, contents: map<Id, Bytes>, refused: set<string>, directory: Id, paths: seq<string>,
                  local: map<string, Bytes>): (r: (Result<bool>, Tree, map<Id, Bytes>))
    ensures WellFormed(t) && Stored(t, contents) ==> WellFormed(r.1) && Stored(r.1, r.2)
    ensures r.0 == Ok(true) ==> forall i :: 0 <= i < |paths| ==> paths[i] in local
    decreases |paths|
  {
    if paths == [] then (Ok(true), t, contents)
    else
      var first := PutOne(t, contents, refused, directory, paths[0], local);
      if first.0 != Ok(true) then first
      else
        var rest := PutAll(first.1, first.2, refused, directory, paths[1..], local);
        assert rest.0 == Ok(true) ==> forall i :: 0 <= i < |paths| ==> paths[i] in local by {
          if rest.0 == Ok(true) {
            forall i | 0 < i < |paths| ensures paths[i] in local {
              assert paths[i] == paths[1..][i - 1];
            }
          }
        }
        rest
  }

  /** The loop of `all()` over the put callback. */
  method PutEach(fs: Adapter, directory: Id, paths: seq<string>, local: map<string, Bytes>) returns (r: Result<bool>)
    requires fs.Valid()
    modifies fs
    ensures fs.Valid()
    ensures (r, fs.entries, fs.contents) == PutAll(old(fs.entries), old(fs.contents), fs.refused, directory, paths, local)
  {
    var i := 0;
    while i < |paths|
      invariant 0 <= i <= |paths|
      invariant fs.Valid()
      invariant PutAll(old(fs.entries), old(fs.contents), fs.refused, directory, paths, local)
             == PutAll(fs.entries, fs.contents, fs.refused, directory, paths[i..], local)
    {
      var path := paths[i];
      assert paths[i..][0] == path && paths[i..][1..] == paths[i + 1..];
      var target := UploadTarget(fs.entries, directory, path);
      if target.Err? {
        return Err(target.error);
      }
      if path !in local {
        return Err(LocalReadFailed(path));
      }
      var ok := fs.Put(target.value, local[path]);
      if !ok {
        return Ok(false);
      }
      i := i + 1;
    }
    return Ok(true);
  }

  // ------------------------------------------------------------- properties

  /** Under the adapter's guarantees, a found entry never has an id PHP reads as false. */
  lemma FoundIsTruthy(t: Tree, name: string, parent: Id, kind: Option<Kind>)
    requires WellFormed(t)
    ensures var r := Find(t, name, parent, kind);
      r.Ok? && r.value.Some? ==> Truthy(r.value.value.id)
  {
    FindMeaning(t, name, parent, kind);
  }

  /**
   * A successful upload overwrote the file findFile() reported, adding no
   * entry, or added exactly one new file when there was none.
   */
  lemma PutOneShape(t: Tree, contents: map<Id, Bytes>, refused: set<string>, directory: Id, path: string,
                    local: map<string, Bytes>)
    returns (e: Entry)
    requires WellFormed(t) && Stored(t, contents)
    requires PutOne(t, contents, refused, directory, path, local).0 == Ok(true)
    ensures var r := PutOne(t, contents, refused, directory, path, local); var t', c' := r.1, r.2;
      && c' == contents[e.id := local[path]]
      && (FindFile(t, Basename(path), directory) == Ok(Some(e)) || FindFile(t, Basename(path), directory) == Ok(None))
      && (FindFile(t, Basename(path), directory) == Ok(Some(e)) ==> t' == t)
      && (FindFile(t, Basename(path), directory) == Ok(None) ==>
            t' == t + [e] && e == Entry(NewId(t), Basename(path), File, directory))
  {
    var name := Basename(path);
    var found := FindFile(t, name, directory);
    var target := UploadTarget(t, directory, path).value;
    var data := local[path];
    match target
    case Existing(id) =>
      e := found.value.value;
      assert e.id == id && id in Ids(t);
      assert PutOne(t, contents, refused, directory, path, local) == (Ok(true), t, contents[id := data]);
    case NewIn(_, _) =>
      e := Entry(NewId(t), name, File, directory);
      FoundIsTruthy(t, name, directory, Some(File));
      assert PutOne(t, contents, refused, directory, path, local) == (Ok(true), t + [e], contents[e.id := data]);
  }

  /**
   * A successful upload leaves exactly one file of that base name under the
   * destination, and it holds the local bytes.
   */
  lemma PutOneStores(t: Tree, contents: map<Id, Bytes>, refused: set<string>, directory: Id, path: string,
                     local: map<string, Bytes>)
    returns (e: Entry)
    requires WellFormed(t) && Stored(t, contents)
    requires PutOne(t, contents, refused, directory, path, local).0 == Ok(true)
    ensures var r := PutOne(t, contents, refused, directory, path, local); var t', c' := r.1, r.2;
      FindFile(t', Basename(path), directory) == Ok(Some(e)) && e.id in c' && c'[e.id] == local[path]
  {
    e := PutOneShape(t, contents, refused, directory, path, local);
    var t' := PutOne(t, contents, refused, directory, path, local).1;
    if FindFile(t, Basename(path), directory) == Ok(None) {
      MatchesAppend(t, e, Basename(path), directory, Some(File));
    } else {
      assert t' == t;
    }
  }

  /** With an existing target, an upload adds no entry, whatever the outcome. */
  lemma PutOneOverExisting(t: Tree, contents: map<Id, Bytes>, refused: set<string>, directory: Id, path: string,
                           local: map<string, Bytes>)
    requires UploadTarget(t, directory, path).Ok? && UploadTarget(t, directory, path).value.Existing?
    ensures PutOne(t, contents, refused, directory, path, local).1 == t
  {
  }

  /** The file findFile() reports is the target of the next upload. */
  lemma TargetOfFound(t: Tree, directory: Id, path: string, e: Entry)
    requires WellFormed(t) && FindFile(t, Basename(path), directory) == Ok(Some(e))
    ensures UploadTarget(t, directory, path) == Ok(Existing(e.id))
  {
    FoundInTree(t, Basename(path), directory, Some(File), e);
  }

  /** Uploading the same file again overwrites it in place: no entry is added. */
  lemma PutOneAgain(t: Tree, contents: map<Id, Bytes>, refused: set<string>, directory: Id, path: string,
                    local: map<string, Bytes>)
    requires WellFormed(t) && Stored(t, contents)
    requires PutOne(t, contents, refused, directory, path, local).0 == Ok(true)
    ensures var r := PutOne(t, contents, refused, directory, path, local); var t', c' := r.1, r.2;
      PutOne(t', c', refused, directory, path, local).1 == t'
  {
    var r := PutOne(t, contents, refused, directory, path, local);
    var e := PutOneStores(t, contents, refused, directory, path, local);
    TargetOfFound(r.1, directory, path, e);
    PutOneOverExisting(r.1, r.2, refused, directory, path, local);
  }

  /** Putting over one existing file leaves every other id's bytes alone. */
  lemma ExistingKeepsOthers(t: Tree, contents: map<Id, Bytes>, refused: set<string>, id: Id, data: Bytes, e: Entry)
    requires WellFormed(t) && e in t && e.id in contents
    requires exists i :: 0 <= i < |t| && t[i].id == id && t[i].name != e.name
    ensures var r := PutIn(t, contents, refused, Existing(id), data); var t', c' := r.1, r.2;
      t' == t && e.id in c' && c'[e.id] == contents[e.id]
  {
    var i :| 0 <= i < |t| && t[i].id == id && t[i].name != e.name;
    var j :| 0 <= j < |t| && t[j] == e;
    assert i != j;
  }

  /** Creating a file of another name changes neither the lookup of `name` nor its bytes. */
  lemma NewInKeepsOthers(t: Tree, contents: map<Id, Bytes>, refused: set<string>, directory: Id, other: string,
                         data: Bytes, name: string, e: Entry)
    requires WellFormed(t) && other != name
    requires FindFile(t, name, directory) == Ok(Some(e)) && e.id in contents
    ensures var r := PutIn(t, contents, refused, NewIn(directory, other), data); var t', c' := r.1, r.2;
      FindFile(t', name, directory) == Ok(Some(e)) && e.id in c' && c'[e.id] == contents[e.id]
  {
    var x := Entry(NewId(t), other, File, directory);
    MatchesAppend(t, x, name, directory, Some(File));
    FoundInTree(t, name, directory, Some(File), e);
    assert e.id in Ids(t);
  }

  /** An upload of one name changes neither the lookup of another name nor that file's bytes. */
  lemma PutOneKeepsOthers(t: Tree, contents: map<Id, Bytes>, refused: set<string>, directory: Id, path: string,
                          local: map<string, Bytes>, name: string, e: Entry)
    requires WellFormed(t) && Basename(path) != name
    requires FindFile(t, name, directory) == Ok(Some(e)) && e.id in contents
    ensures var r := PutOne(t, contents, refused, directory, path, local); var t', c' := r.1, r.2;
      FindFile(t', name, directory) == Ok(Some(e)) && e.id in c' && c'[e.id] == contents[e.id]
  {
    var target := UploadTarget(t, directory, path);
    FoundInTree(t, name, directory, Some(File), e);
    if target.Ok? && path in local {
      assert PutOne(t, contents, refused, directory, path, local)
          == var put := PutIn(t, contents, refused, target.value, local[path]); (Ok(put.0), put.1, put.2);
      match target.value
      case Existing(id) =>
        ExistingKeepsOthers(t, contents, refused, id, local[path], e);
      case NewIn(_, _) =>
        NewInKeepsOthers(t, contents, refused, directory, Basename(path), local[path], name, e);
    }
  }

  /** After a successful first upload, `all()` goes on with the rest. */
  lemma PutAllStep(t: Tree, contents: map<Id, Bytes>, refused: set<string>, directory: Id, paths: seq<string>,
                   local: map<string, Bytes>)
    requires paths != [] && PutOne(t, contents, refused, directory, paths[0], local).0 == Ok(true)
    ensures var r := PutOne(t, contents, refused, directory, paths[0], local);
      PutAll(t, contents, refused, directory, paths, local) == PutAll(r.1, r.2, refused, directory, paths[1..], local)
  {
  }

  /** A run of uploads none of which has base name `name` keeps that file as it was. */
  lemma {:induction false} PutAllKeeps(t: Tree, contents: map<Id, Bytes>, refused: set<string>, directory: Id,
                                       paths: seq<string>, local: map<string, Bytes>, name: string, e: Entry)
    requires WellFormed(t) && Stored(t, contents)
    requires forall i :: 0 <= i < |paths| ==> Basename(paths[i]) != name
    requires FindFile(t, name, directory) == Ok(Some(e)) && e.id in contents
    ensures var r := PutAll(t, contents, refused, directory, paths, local); var t', c' := r.1, r.2;
      FindFile(t', name, directory) == Ok(Some(e)) && e.id in c' && c'[e.id] == contents[e.id]
    decreases |paths|
  {
    if paths != [] {
      var r1 := PutOne(t, contents, refused, directory, paths[0], local);
      PutOneKeepsOthers(t, contents, refused, directory, paths[0], local, name, e);
      if r1.0 == Ok(true) {
        PutAllStep(t, contents, refused, directory, paths, local);
        PutAllKeeps(r1.1, r1.2, refused, directory, paths[1..], local, name, e);
      }
    }
  }

  /** The first of a run of successful uploads survives the rest when they carry other names. */
  lemma PutAllStoresFirst(t: Tree, contents: map<Id, Bytes>, refused: set<string>, directory: Id,
                          paths: seq<string>, local: map<string, Bytes>)
    returns (e: Entry)
    requires WellFormed(t) && Stored(t, contents)
    requires paths != [] && PutOne(t, contents, refused, directory, paths[0], local).0 == Ok(true)
    requires forall i :: 0 < i < |paths| ==> Basename(paths[i]) != Basename(paths[0])
    ensures var r := PutAll(t, contents, refused, directory, paths, local);
      FindFile(r.1, Basename(paths[0]), directory) == Ok(Some(e)) && e.id in r.2 && r.2[e.id] == local[paths[0]]
  {
    var r1 := PutOne(t, contents, refused, directory, paths[0], local);
    PutAllStep(t, contents, refused, directory, paths, local);
    e := PutOneStores(t, contents, refused, directory, paths[0], local);
    RestNames(paths, paths[1..]);
    PutAllKeeps(r1.1, r1.2, refused, directory, paths[1..], local, Basename(paths[0]), e);
  }

  /** The rest of the paths, after the first, avoid the first one's base name. */
  lemma RestNames(paths: seq<string>, rest: seq<string>)
    requires paths != [] && rest == paths[1..]
    requires forall i :: 0 < i < |paths| ==> Basename(paths[i]) != Basename(paths[0])
    ensures forall i :: 0 <= i < |rest| ==> Basename(rest[i]) != Basename(paths[0])
  {
    assert forall i :: 0 <= i < |rest| ==> rest[i] == paths[i + 1];
  }

  /** A run of uploads that succeeded as a whole began with a successful one. */
  lemma PutAllFirstSucceeded(t: Tree, contents: map<Id, Bytes>, refused: set<string>, directory: Id,
                             paths: seq<string>, local: map<string, Bytes>)
    requires paths != [] && PutAll(t, contents, refused, directory, paths, local).0 == Ok(true)
    ensures PutOne(t, contents, refused, directory, paths[0], local).0 == Ok(true)
  {
  }

  /**
   * When every put succeeded, each uploaded file whose base name no later
   * path repeats is the one file of that name under the destination and
   * holds its local bytes.
   */
  lemma {:induction false} PutAllStores(t: Tree, contents: map<Id, Bytes>, refused: set<string>, directory: Id,
                                        paths: seq<string>, local: map<string, Bytes>, k: nat)
    returns (e: Entry)
    requires WellFormed(t) && Stored(t, contents)
    requires PutAll(t, contents, refused, directory, paths, local).0 == Ok(true)
    requires k < |paths| && forall i :: k < i < |paths| ==> Basename(paths[i]) != Basename(paths[k])
    ensures var r := PutAll(t, contents, refused, directory, paths, local);
      FindFile(r.1, Basename(paths[k]), directory) == Ok(Some(e)) && e.id in r.2 && r.2[e.id] == local[paths[k]]
    decreases |paths|, 1
  {
    if k == 0 {
      PutAllFirstSucceeded(t, contents, refused, directory, paths, local);
      e := PutAllStoresFirst(t, contents, refused, directory, paths, local);
    } else {
      e := PutAllStoresLater(t, contents, refused, directory, paths, local, k);
    }
  }

  /** The step of PutAllStores past the first path: the rest of the run starts from the first upload's result. */
  lemma {:induction false} PutAllStoresLater(t: Tree, contents: map<Id, Bytes>, refused: set<string>, directory: Id,
                                             paths: seq<string>, local: map<string, Bytes>, k: nat)
    returns (e: Entry)
    requires WellFormed(t) && Stored(t, contents)
    requires PutAll(t, contents, refused, directory, paths, local).0 == Ok(true)
    requires 0 < k < |paths| && forall i :: k < i < |paths| ==> Basename(paths[i]) != Basename(paths[k])
    ensures var r := PutAll(t, contents, refused, directory, paths, local);
      FindFile(r.1, Basename(paths[k]), directory) == Ok(Some(e)) && e.id in r.2 && r.2[e.id] == local[paths[k]]
    decreases |paths|, 0
  {
    PutAllFirstSucceeded(t, contents, refused, directory, paths, local);
    var r1 := PutOne(t, contents, refused, directory, paths[0], local);
    PutAllStep(t, contents, refused, directory, paths, local);
    ShiftedNames(paths, k, paths[1..]);
    e := PutAllStores(r1.1, r1.2, refused, directory, paths[1..], local, k - 1);
  }

  /** Dropping the first path shifts position k to k - 1 and keeps the later names apart. */
  lemma ShiftedNames(paths: seq<string>, k: nat, rest: seq<string>)
    requires 0 < k < |paths| && rest == paths[1..]
    requires forall i :: k < i < |paths| ==> Basename(paths[i]) != Basename(paths[k])
    ensures rest[k - 1] == paths[k]
    ensures forall i :: k - 1 < i < |rest| ==> Basename(rest[i]) != Basename(rest[k - 1])
  {
    assert forall i :: k - 1 < i < |rest| ==> rest[i] == paths[i + 1];
  }
}
