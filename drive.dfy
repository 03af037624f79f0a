/**
 * The remote drive the storage classes talk to, as an in-memory tree.
 * Every entry has an opaque id, a name, a kind (file or directory) and the
 * id of its parent; entries at the top of the drive have the parent "".
 * The order of `entries` is the order in which listContents reports them.
 * File bytes are kept apart from the entries, keyed by id, so that
 * overwriting a file changes no listing.
 */
module Drive {
  import opened Results
  import opened Queries
  import Strings

  type Id = string

  /** The parent id of entries at the top of the drive (`$parent = ''`). */
  const Top: Id := ""

  datatype Kind = File | Dir

  newtype byte = x: int | 0 <= x < 256

  type Bytes = seq<byte>

  datatype Entry = Entry(id: Id, name: string, kind: Kind, parent: Id) {
    /** The adapter's `filename` metadata. */
    function FileName(): string { Strings.FileName(name) }
  }

  type Tree = seq<Entry>

  function Ids(t: Tree): set<Id> { set e | e in t :: e.id }

  /** `p` names the top of the drive or an entry of it. */
  predicate ValidParent(t: Tree, p: Id) { p == Top || p in Ids(t) }

  /**
   * What the adapter guarantees of its tree: ids are unique, never "" or
   * "0" (which PHP would read as false), and every parent exists.
   */
  ghost predicate WellFormed(t: Tree)
  {
    && (forall i, j :: 0 <= i < j < |t| ==> t[i].id != t[j].id)
    && (forall i :: 0 <= i < |t| ==> t[i].id != Top && t[i].id != "0")
    && (forall i :: 0 <= i < |t| ==> ValidParent(t, t[i].parent))
  }

  /** Every file has bytes. */
  ghost predicate Stored(t: Tree, contents: map<Id, Bytes>)
  {
    forall i :: 0 <= i < |t| && t[i].kind == File ==> t[i].id in contents
  }

  function ParentIs(p: Id): Entry -> bool { (e: Entry) => e.parent == p }

  /** listContents($p): the entries whose parent is `p`, in listing order. */
  function Children(t: Tree, p: Id): seq<Entry> { Where(t, ParentIs(p)) }

  /** Appending an entry extends exactly the listing of its parent. */
  lemma ChildrenAppend(t: Tree, x: Entry, p: Id)
    ensures Children(t + [x], p) == Children(t, p) + (if x.parent == p then [x] else [])
  {
    assert (t + [x])[..|t|] == t;
  }

  /** getMetadata($id): the entry with that id. */
  function Lookup(t: Tree, id: Id): (r: Option<Entry>)
    ensures r.Some? ==> r.value in t && r.value.id == id
    ensures r.None? ==> id !in Ids(t)
  {
    if t == [] then None
    else if t[|t| - 1].id == id then Some(t[|t| - 1])
    else
      assert t == t[..|t| - 1] + [t[|t| - 1]];
      Lookup(t[..|t| - 1], id)
  }

  function MaxIdLength(t: Tree): (n: nat)
    ensures forall i :: 0 <= i < |t| ==> |t[i].id| <= n
  {
    if t == [] then 0
    else
      var m := MaxIdLength(t[..|t| - 1]);
      assert forall i :: 0 <= i < |t| - 1 ==> t[..|t| - 1][i] == t[i];
      if |t[|t| - 1].id| > m then |t[|t| - 1].id| else m
  }

  /** The id the adapter gives a new entry: one no entry has, and not falsy. */
  function NewId(t: Tree): (id: Id)
    ensures id !in Ids(t) && id != Top && id != "0"
  {
    var id := seq(MaxIdLength(t) + 1, _ => '#');
    assert id[0] == '#';
    id
  }

  /** Every parent in the tree differs from a new id, so a new entry starts with no children. */
  lemma NewIdHasNoChildren(t: Tree)
    requires WellFormed(t)
    ensures Children(t, NewId(t)) == []
  {
    WhereNone(t, ParentIs(NewId(t)));
  }

  /** A new entry under an existing parent keeps the tree well formed. */
  lemma AppendNew(t: Tree, x: Entry)
    requires WellFormed(t) && x.id == NewId(t) && ValidParent(t, x.parent)
    ensures WellFormed(t + [x]) && Ids(t + [x]) == Ids(t) + {x.id}
  {
    var t' := t + [x];
    assert forall i :: 0 <= i < |t| ==> t'[i] == t[i];
    assert Ids(t') == Ids(t) + {x.id};
  }

  // ---------------------------------------------------------------- writes

  /** The path createDir receives: `"$parent/$name"`. */
  function PathIn(parent: Id, name: string): string { parent + "/" + name }

  /**
   * createDir("$parent/$name"): adds a directory under `parent`, unless the
   * adapter refuses that path or the parent does not exist.
   */
  function CreateDirIn(t: Tree, refused: set<string>, parent: Id, name: string): (r: (bool, Tree))
    ensures r.0 <==> PathIn(parent, name) !in refused && ValidParent(t, parent)
    ensures r.1 == if r.0 then t + [Entry(NewId(t), name, Dir, parent)] else t
    ensures WellFormed(t) ==> WellFormed(r.1)
  {
    if PathIn(parent, name) !in refused && ValidParent(t, parent) then
      var x := Entry(NewId(t), name, Dir, parent);
      assert WellFormed(t) ==> WellFormed(t + [x]) by {
        if WellFormed(t) { AppendNew(t, x); }
      }
      (true, t + [x])
    else (false, t)
  }

  /** Where `put` writes: an existing entry by id, or a new file `"$parent/$name"`. */
  datatype Target = Existing(id: Id) | NewIn(parent: Id, name: string) {
    function Path(): string
    {
      match this
      case Existing(id) => id
      case NewIn(parent, name) => PathIn(parent, name)
    }
  }

  /**
   * put($path, $data): replaces the bytes of an existing entry in place, or
   * creates a file; refused paths and missing parents leave everything as it was.
   */
  function PutIn(t: Tree, contents: map<Id, Bytes>, refused: set<string>, target: Target, data: Bytes)
    : (r: (bool, Tree, map<Id, Bytes>))
    ensures WellFormed(t) && Stored(t, contents) ==> WellFormed(r.1) && Stored(r.1, r.2)
    ensures !r.0 ==> r.1 == t && r.2 == contents
    ensures r.0 ==> target.Path() !in refused
  {
    if target.Path() in refused then (false, t, contents)
    else
      match target
      case Existing(id) =>
        if id in Ids(t) then (true, t, contents[id := data]) else (false, t, contents)
      case NewIn(parent, name) =>
        if ValidParent(t, parent) then
          var x := Entry(NewId(t), name, File, parent);
          assert WellFormed(t) && Stored(t, contents) ==> WellFormed(t + [x]) && Stored(t + [x], contents[x.id := data]) by {
            if WellFormed(t) && Stored(t, contents) {
              AppendNew(t, x);
              assert forall i :: 0 <= i < |t| ==> (t + [x])[i] == t[i];
            }
          }
          (true, t + [x], contents[x.id := data])
        else (false, t, contents)
  }

  /** The adapter object the storage classes hold (`$this->filesystem`). */
  class Adapter {
    var entries: Tree
    var contents: map<Id, Bytes>
    const refused: set<string>

    ghost predicate Valid()
      reads this
    {
      WellFormed(entries) && Stored(entries, contents)
    }

    constructor (entries: Tree, contents: map<Id, Bytes>, refused: set<string>)
      requires WellFormed(entries) && Stored(entries, contents)
      ensures Valid()
      ensures this.entries == entries && this.contents == contents && this.refused == refused
    {
      this.entries := entries;
      this.contents := contents;
      this.refused := refused;
    }

    /** createDir("$parent/$name"): true when the directory was created. */
    method CreateDir(parent: Id, name: string) returns (ok: bool)
      requires Valid()
      modifies this
      ensures Valid()
      ensures (ok, entries) == CreateDirIn(old(entries), refused, parent, name)
      ensures contents == old(contents)
    {
      var r := CreateDirIn(entries, refused, parent, name);
      ok, entries := r.0, r.1;
    }

    /** put($path, $data): true when the bytes were written. */
    method Put(target: Target, data: Bytes) returns (ok: bool)
      requires Valid()
      modifies this
      ensures Valid()
      ensures (ok, entries, contents) == PutIn(old(entries), old(contents), refused, target, data)
    {
      var r := PutIn(entries, contents, refused, target, data);
      ok, entries, contents := r.0, r.1, r.2;
    }
  }
}
