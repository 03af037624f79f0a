/**
 * Path resolution and directory materialisation over the drive tree: the
 * private find() of both storage classes, the segment-by-segment walk of
 * findLeafObject(), and the create-what-is-missing walk of
 * createDirectoriesArray() / makeDirectoryArrayRecursively().
 */
module Resolver {
  import opened Results
  import opened Queries
  import opened Drive

  /** The `where` callback of find(): the name is equal and, when a type is given, so is the type. */
  function Accepts(name: string, kind: Option<Kind>): Entry -> bool
  {
    (e: Entry) => (kind.None? || e.kind == kind.value) && e.name == name
  }

  /** `e` is a child of `parent` that find($name, $parent, $kind) accepts. */
  predicate IsMatch(e: Entry, name: string, parent: Id, kind: Option<Kind>)
  {
    e.parent == parent && e.name == name && (kind.None? || e.kind == kind.value)
  }

  /** The children of `parent` that find() accepts, in listing order. */
  function Matches(t: Tree, name: string, parent: Id, kind: Option<Kind>): seq<Entry>
  {
    Where(Children(t, parent), Accepts(name, kind))
  }

  /** The matches are exactly the entries of the tree that find() accepts. */
  lemma MatchesMeaning(t: Tree, name: string, parent: Id, kind: Option<Kind>)
    ensures var r := Matches(t, name, parent, kind);
      forall i :: 0 <= i < |r| ==> r[i] in t && IsMatch(r[i], name, parent, kind)
    ensures var r := Matches(t, name, parent, kind);
      forall i :: 0 <= i < |t| && IsMatch(t[i], name, parent, kind) ==> t[i] in r
  {
  }

  lemma MatchesAppend(t: Tree, x: Entry, name: string, parent: Id, kind: Option<Kind>)
    ensures Matches(t + [x], name, parent, kind)
         == Matches(t, name, parent, kind) + (if IsMatch(x, name, parent, kind) then [x] else [])
  {
    var tail := if x.parent == parent then [x] else [];
    ChildrenAppend(t, x, parent);
    WhereAppend(Children(t, parent), tail, Accepts(name, kind));
    assert tail != [] ==> tail[..0] == [];
  }

  /**
   * find($filename, $parent, $type): the one child of `parent` with that
   * name (and type, when one is given); None when there is none; an error
   * when there are several (singleOrDefault).
   */
  function Find(t: Tree, name: string, parent: Id, kind: Option<Kind>): (r: Result<Option<Entry>>)
    ensures r == Ok(None) <==> Matches(t, name, parent, kind) == []
    ensures r.Ok? && r.value.Some? ==> Matches(t, name, parent, kind) == [r.value.value]
    ensures r.Err? <==> |Matches(t, name, parent, kind)| > 1
    ensures r.Err? ==> r.error == MoreThanOne
  {
    SingleOrDefault(Matches(t, name, parent, kind))
  }

  /**
   * What find() reports, in terms of the tree: None exactly when no child
   * matches; otherwise a matching entry of the tree, and the only one.
   */
  lemma FindMeaning(t: Tree, name: string, parent: Id, kind: Option<Kind>)
    ensures Find(t, name, parent, kind) == Ok(None) <==>
      forall i :: 0 <= i < |t| ==> !IsMatch(t[i], name, parent, kind)
    ensures var r := Find(t, name, parent, kind);
      r.Ok? && r.value.Some? ==>
        && r.value.value in t
        && IsMatch(r.value.value, name, parent, kind)
        && forall i :: 0 <= i < |t| && IsMatch(t[i], name, parent, kind) ==> t[i] == r.value.value
  {
    MatchesMeaning(t, name, parent, kind);
    var m := Matches(t, name, parent, kind);
    if m != [] {
      assert m[0] in t && IsMatch(m[0], name, parent, kind);
    }
  }

  /** The entry find() reports is an entry of the tree. */
  lemma FoundInTree(t: Tree, name: string, parent: Id, kind: Option<Kind>, e: Entry)
    requires Find(t, name, parent, kind) == Ok(Some(e))
    ensures e in t && IsMatch(e, name, parent, kind)
  {
    MatchesMeaning(t, name, parent, kind);
    assert Matches(t, name, parent, kind)[0] == e;
  }

  /** findFile(). */
  function FindFile(t: Tree, name: string, parent: Id): Result<Option<Entry>>
  {
    Find(t, name, parent, Some(File))
  }

  /** findDirectory(). */
  function FindDirectory(t: Tree, name: string, parent: Id): Result<Option<Entry>>
  {
    Find(t, name, parent, Some(Dir))
  }

  // ------------------------------------------------------------ resolution

  /**
   * The walk of findLeafObject(): starting at `parent`, one find() per
   * segment; None as soon as a segment has no match, otherwise the id
   * reached after the last segment.
   */
  function Resolve(t: Tree, parent: Id, segments: seq<string>, kind: Option<Kind>): Result<Option<Id>>
    decreases |segments|
  {
    if segments == [] then Ok(Some(parent))
    else
      var found :- Find(t, segments[0], parent, kind);
      match found
      case None => Ok(None)
      case Some(e) => Resolve(t, e.id, segments[1..], kind)
  }

  /** Resolving `a + b` resolves `a`, then `b` from where `a` ended. */
  lemma {:induction false} ResolveAppend(t: Tree, parent: Id, a: seq<string>, b: seq<string>, kind: Option<Kind>)
    ensures Resolve(t, parent, a + b, kind) ==
      match Resolve(t, parent, a, kind)
      case Ok(Some(q)) => Resolve(t, q, b, kind)
      case other => other
    decreases |a|
  {
    if a == [] {
      assert a + b == b;
    } else {
      assert (a + b)[0] == a[0] && (a + b)[1..] == a[1..] + b;
      match Find(t, a[0], parent, kind)
      case Err(_) =>
      case Ok(None) =>
      case Ok(Some(e)) => ResolveAppend(t, e.id, a[1..], b, kind);
    }
  }

  /**
   * A resolved path ends at the one entry that carries its last segment as
   * name under the id its other segments resolve to.
   */
  lemma ResolveLastStep(t: Tree, parent: Id, segments: seq<string>, kind: Option<Kind>, id: Id)
    returns (q: Id, e: Entry)
    requires segments != [] && Resolve(t, parent, segments, kind) == Ok(Some(id))
    ensures Resolve(t, parent, segments[..|segments| - 1], kind) == Ok(Some(q))
    ensures Find(t, segments[|segments| - 1], q, kind) == Ok(Some(e)) && e.id == id
  {
    var prefix, last := segments[..|segments| - 1], segments[|segments| - 1];
    assert Resolve(t, parent, segments, kind) == Resolve(t, parent, prefix + [last], kind) by {
      assert segments == prefix + [last];
    }
    ResolveAppend(t, parent, prefix, [last], kind);
    match Resolve(t, parent, prefix, kind)
    case Ok(Some(p)) =>
      q := p;
      ResolveOne(t, q, last, kind);
      e := Find(t, last, q, kind).value.value;
  }

  /** Resolving one segment is one find(). */
  lemma ResolveOne(t: Tree, parent: Id, name: string, kind: Option<Kind>)
    ensures Resolve(t, parent, [name], kind) ==
      match Find(t, name, parent, kind)
      case Err(x) => Err(x)
      case Ok(None) => Ok(None)
      case Ok(Some(e)) => Ok(Some(e.id))
  {
    assert [name][1..] == [];
  }

  /** A path that does not resolve has a first segment without a match. */
  lemma {:induction false} ResolveMissing(t: Tree, parent: Id, segments: seq<string>, kind: Option<Kind>)
    returns (i: nat, q: Id)
    requires Resolve(t, parent, segments, kind) == Ok(None)
    ensures i < |segments|
    ensures Resolve(t, parent, segments[..i], kind) == Ok(Some(q))
    ensures Find(t, segments[i], q, kind) == Ok(None)
    decreases |segments|
  {
    match Find(t, segments[0], parent, kind)
    case Ok(None) =>
      i, q := 0, parent;
    case Ok(Some(e)) =>
      var j, p := ResolveMissing(t, e.id, segments[1..], kind);
      i, q := j + 1, p;
      assert segments[..i][0] == segments[0] && segments[..i][1..] == segments[1..][..j];
  }

  // --------------------------------------------------------- materialising

  /**
   * createDirectoriesArray(): walk `segments` from `parent`; reuse the
   * directory find() reports, otherwise createDir("$parent/$directory") and
   * continue in the new directory. A refused creation stops with the error
   * naming that path; directories created before it remain.
   */
  function Materialize(t: Tree, refused: set<string>, parent: Id, segments: seq<string>): (Result<Id>, Tree)
    decreases |segments|
  {
    if segments == [] then (Ok(parent), t)
    else
      match Find(t, segments[0], parent, Some(Dir))
      case Err(e) => (Err(e), t)
      case Ok(Some(d)) => Materialize(t, refused, d.id, segments[1..])
      case Ok(None) =>
        var created := CreateDirIn(t, refused, parent, segments[0]);
        if !created.0 then (Err(CreateFailed(PathIn(parent, segments[0]))), t)
        else Materialize(created.1, refused, NewId(t), segments[1..])
  }

  /** After creating a missing directory, find() reports exactly the new one. */
  lemma FindAfterCreate(t: Tree, refused: set<string>, parent: Id, name: string)
    requires Find(t, name, parent, Some(Dir)) == Ok(None)
    requires CreateDirIn(t, refused, parent, name).0
    ensures Find(CreateDirIn(t, refused, parent, name).1, name, parent, Some(Dir))
         == Ok(Some(Entry(NewId(t), name, Dir, parent)))
  {
    var x := Entry(NewId(t), name, Dir, parent);
    MatchesAppend(t, x, name, parent, Some(Dir));
  }

  /**
   * `t'` is `t` followed by directories each of which had, when it was
   * added, no directory of the same name under the same parent.
   */
  ghost predicate GrowsByNewDirs(t: Tree, t': Tree)
    decreases |t'|
  {
    if |t'| <= |t| then t' == t
    else
      var before, x := t'[..|t'| - 1], t'[|t'| - 1];
      && GrowsByNewDirs(t, before)
      && x.kind == Dir
      && Matches(before, x.name, x.parent, Some(Dir)) == []
  }

  /** Growth keeps the old tree as a prefix and adds only directories. */
  lemma {:induction false} GrowsExtends(t: Tree, t': Tree)
    requires GrowsByNewDirs(t, t')
    ensures t <= t'
    ensures forall k :: |t| <= k < |t'| ==> t'[k].kind == Dir
    decreases |t'|
  {
    if |t'| > |t| {
      var before := t'[..|t'| - 1];
      GrowsExtends(t, before);
      assert forall k :: 0 <= k < |before| ==> before[k] == t'[k];
    }
  }

  /** Adding a directory with no namesake in front of a growth is still a growth. */
  lemma {:induction false} GrowsFront(t: Tree, n: Entry, t': Tree)
    requires n.kind == Dir && Matches(t, n.name, n.parent, Some(Dir)) == []
    requires GrowsByNewDirs(t + [n], t')
    ensures GrowsByNewDirs(t, t')
    decreases |t'|
  {
    if |t'| <= |t| + 1 {
      assert t' == t + [n];
      assert t'[..|t'| - 1] == t;
    } else {
      GrowsFront(t, n, t'[..|t'| - 1]);
    }
  }

  /** Materialising only appends new directories, also when it fails part-way. */
  lemma {:induction false} MaterializeGrows(t: Tree, refused: set<string>, parent: Id, segments: seq<string>)
    ensures GrowsByNewDirs(t, Materialize(t, refused, parent, segments).1)
    decreases |segments|
  {
    if segments != [] {
      match Find(t, segments[0], parent, Some(Dir))
      case Err(_) =>
      case Ok(Some(d)) =>
        MaterializeGrows(t, refused, d.id, segments[1..]);
      case Ok(None) =>
        var created := CreateDirIn(t, refused, parent, segments[0]);
        if created.0 {
          MaterializeGrows(created.1, refused, NewId(t), segments[1..]);
          GrowsFront(t, Entry(NewId(t), segments[0], Dir, parent),
                     Materialize(created.1, refused, NewId(t), segments[1..]).1);
        }
    }
  }

  /** Materialising keeps the adapter's guarantees: the new entries are directories under existing parents. */
  lemma {:induction false} MaterializeWellFormed(t: Tree, refused: set<string>, parent: Id, segments: seq<string>,
                                                 contents: map<Id, Bytes>)
    requires WellFormed(t) && Stored(t, contents)
    ensures var t' := Materialize(t, refused, parent, segments).1; WellFormed(t') && Stored(t', contents)
    decreases |segments|
  {
    if segments != [] {
      match Find(t, segments[0], parent, Some(Dir))
      case Err(_) =>
      case Ok(Some(d)) =>
        MaterializeWellFormed(t, refused, d.id, segments[1..], contents);
      case Ok(None) =>
        var created := CreateDirIn(t, refused, parent, segments[0]);
        if created.0 {
          assert Stored(created.1, contents) by {
            assert forall i :: 0 <= i < |t| ==> created.1[i] == t[i];
          }
          MaterializeWellFormed(created.1, refused, NewId(t), segments[1..], contents);
        }
    }
  }

  lemma {:induction false} MatchesStable(t: Tree, t': Tree, name: string, parent: Id, d: Entry)
    requires GrowsByNewDirs(t, t') && Matches(t, name, parent, Some(Dir)) == [d]
    ensures Matches(t', name, parent, Some(Dir)) == [d]
    decreases |t'|
  {
    if |t'| > |t| {
      var before, x := t'[..|t'| - 1], t'[|t'| - 1];
      assert t' == before + [x];
      assert GrowsByNewDirs(t, before) && x.kind == Dir && Matches(before, x.name, x.parent, Some(Dir)) == [];
      assert Matches(before, name, parent, Some(Dir)) == [d] by {
        MatchesStable(t, before, name, parent, d);
      }
      AppendUnmatched(before, x, name, parent, d);
    }
  }

  /** A directory without a namesake among its siblings leaves every unique match unique. */
  lemma AppendUnmatched(t: Tree, x: Entry, name: string, parent: Id, d: Entry)
    requires x.kind == Dir && Matches(t, x.name, x.parent, Some(Dir)) == []
    requires Matches(t, name, parent, Some(Dir)) == [d]
    ensures Matches(t + [x], name, parent, Some(Dir)) == [d]
  {
    MatchesAppend(t, x, name, parent, Some(Dir));
  }

  /** Directories added by materialising never make an earlier directory lookup ambiguous. */
  lemma FindStable(t: Tree, t': Tree, name: string, parent: Id, d: Entry)
    requires GrowsByNewDirs(t, t') && Find(t, name, parent, Some(Dir)) == Ok(Some(d))
    ensures Find(t', name, parent, Some(Dir)) == Ok(Some(d))
  {
    MatchesStable(t, t', name, parent, d);
  }

  /**
   * createDirectories(): on success the whole chain resolves, directory by
   * directory, to the id returned.
   */
  lemma {:induction false} MaterializeResolves(t: Tree, refused: set<string>, parent: Id, segments: seq<string>)
    requires WellFormed(t) && ValidParent(t, parent)
    requires Materialize(t, refused, parent, segments).0.Ok?
    ensures Resolve(Materialize(t, refused, parent, segments).1, parent, segments, Some(Dir))
         == Ok(Some(Materialize(t, refused, parent, segments).0.value))
    decreases |segments|
  {
    if segments != [] {
      var t' := Materialize(t, refused, parent, segments).1;
      match Find(t, segments[0], parent, Some(Dir))
      case Ok(Some(d)) =>
        MaterializeResolves(t, refused, d.id, segments[1..]);
        MaterializeGrows(t, refused, d.id, segments[1..]);
        FindStable(t, t', segments[0], parent, d);
      case Ok(None) =>
        var t1 := CreateDirIn(t, refused, parent, segments[0]).1;
        FindAfterCreate(t, refused, parent, segments[0]);
        MaterializeResolves(t1, refused, NewId(t), segments[1..]);
        MaterializeGrows(t1, refused, NewId(t), segments[1..]);
        FindStable(t1, t', segments[0], parent, Entry(NewId(t), segments[0], Dir, parent));
    }
  }

  /** A chain that already resolves is reused as it is: nothing is created. */
  lemma {:induction false} MaterializeExisting(t: Tree, refused: set<string>, parent: Id, segments: seq<string>, id: Id)
    requires Resolve(t, parent, segments, Some(Dir)) == Ok(Some(id))
    ensures Materialize(t, refused, parent, segments) == (Ok(id), t)
    decreases |segments|
  {
    if segments != [] {
      match Find(t, segments[0], parent, Some(Dir))
      case Ok(Some(d)) =>
        MaterializeExisting(t, refused, d.id, segments[1..], id);
    }
  }

  /** A second createDirectories() with the same argument returns the same id and creates nothing. */
  lemma MaterializeIdempotent(t: Tree, refused: set<string>, parent: Id, segments: seq<string>)
    requires WellFormed(t) && ValidParent(t, parent)
    requires Materialize(t, refused, parent, segments).0.Ok?
    ensures Materialize(Materialize(t, refused, parent, segments).1, refused, parent, segments)
         == Materialize(t, refused, parent, segments)
  {
    var m := Materialize(t, refused, parent, segments);
    MaterializeResolves(t, refused, parent, segments);
    MaterializeExisting(m.1, refused, parent, segments, m.0.value);
  }

  /** How many leading segments already name existing directories. */
  function ExistingDepth(t: Tree, parent: Id, segments: seq<string>): (n: nat)
    ensures n <= |segments|
    decreases |segments|
  {
    if segments == [] then 0
    else
      match Find(t, segments[0], parent, Some(Dir))
      case Ok(Some(d)) => 1 + ExistingDepth(t, d.id, segments[1..])
      case _ => 0
  }

  function Names(s: seq<Entry>): (r: seq<string>)
    ensures |r| == |s| && forall i :: 0 <= i < |s| ==> r[i] == s[i].name
  {
    seq(|s|, i requires 0 <= i < |s| => s[i].name)
  }

  lemma NamesCons(s: seq<Entry>)
    requires s != []
    ensures Names(s) == [s[0].name] + Names(s[1..])
  {
  }

  /** Under a directory with no children, every segment is created, in order. */
  lemma {:induction false} MaterializeFresh(t: Tree, refused: set<string>, parent: Id, segments: seq<string>)
    requires WellFormed(t) && ValidParent(t, parent) && Children(t, parent) == []
    requires Materialize(t, refused, parent, segments).0.Ok?
    ensures t <= Materialize(t, refused, parent, segments).1
    ensures Names(Materialize(t, refused, parent, segments).1[|t|..]) == segments
    decreases |segments|, 1
  {
    if segments != [] {
      WhereNone(Children(t, parent), Accepts(segments[0], Some(Dir)));
      MaterializeFreshAfterMissing(t, refused, parent, segments);
    }
  }

  lemma GrowsExtendsAfter(t: Tree, refused: set<string>, parent: Id, segments: seq<string>)
    ensures var t' := Materialize(t, refused, parent, segments).1;
      t <= t' && forall k :: |t| <= k < |t'| ==> t'[k].kind == Dir
  {
    MaterializeGrows(t, refused, parent, segments);
    GrowsExtends(t, Materialize(t, refused, parent, segments).1);
  }

  /** The first missing directory and all below it are new. */
  lemma {:induction false} MaterializeFreshAfterMissing(t: Tree, refused: set<string>, parent: Id, segments: seq<string>)
    requires WellFormed(t) && ValidParent(t, parent) && segments != []
    requires Find(t, segments[0], parent, Some(Dir)) == Ok(None)
    requires Materialize(t, refused, parent, segments).0.Ok?
    ensures t <= Materialize(t, refused, parent, segments).1
    ensures Names(Materialize(t, refused, parent, segments).1[|t|..]) == segments
    decreases |segments|, 0
  {
    var n := Entry(NewId(t), segments[0], Dir, parent);
    var t1, rest := t + [n], segments[1..];
    MaterializeCreateStep(t, refused, parent, segments);
    assert WellFormed(t1) && ValidParent(t1, NewId(t)) && Children(t1, NewId(t)) == [] by {
      AppendNew(t, n);
      NewIdHasNoChildren(t);
      ChildrenAppend(t, n, NewId(t));
    }
    MaterializeFresh(t1, refused, NewId(t), rest);
    AddedNames(t, n, Materialize(t1, refused, NewId(t), rest).1, rest);
    HeadTail(segments);
  }

  lemma DropSlice(s: seq<string>, k: nat)
    requires k < |s|
    ensures s[1..][k..] == s[k + 1..]
  {
  }

  lemma HeadTail(s: seq<string>)
    requires s != []
    ensures [s[0]] + s[1..] == s
  {
  }

  /** The step of createDirectoriesArray() that creates a missing directory and descends into it. */
  lemma MaterializeCreateStep(t: Tree, refused: set<string>, parent: Id, segments: seq<string>)
    requires segments != [] && Find(t, segments[0], parent, Some(Dir)) == Ok(None)
    requires Materialize(t, refused, parent, segments).0.Ok?
    ensures ValidParent(t, parent)
    ensures Materialize(t, refused, parent, segments)
         == Materialize(t + [Entry(NewId(t), segments[0], Dir, parent)], refused, NewId(t), segments[1..])
  {
  }

  /** The names added after a new entry `n` are `n`'s name followed by the rest. */
  lemma AddedNames(t: Tree, n: Entry, t': Tree, rest: seq<string>)
    requires t + [n] <= t' && Names(t'[|t| + 1..]) == rest
    ensures t <= t' && Names(t'[|t|..]) == [n.name] + rest
  {
    assert t'[..|t|] == (t + [n])[..|t|] == t;
    var added := t'[|t|..];
    assert added[0] == n && added[1..] == t'[|t| + 1..];
    NamesCons(added);
  }

  /**
   * Only the missing suffix of the chain is created: one new directory per
   * segment after those that already exist, named by those segments.
   */
  lemma {:induction false} MaterializeCreatesMissing(t: Tree, refused: set<string>, parent: Id, segments: seq<string>)
    requires WellFormed(t) && ValidParent(t, parent)
    requires Materialize(t, refused, parent, segments).0.Ok?
    ensures var t' := Materialize(t, refused, parent, segments).1;
      && t <= t'
      && |t'| == |t| + |segments| - ExistingDepth(t, parent, segments)
      && Names(t'[|t|..]) == segments[ExistingDepth(t, parent, segments)..]
      && forall k :: |t| <= k < |t'| ==> t'[k].kind == Dir
    decreases |segments|, 1
  {
    GrowsExtendsAfter(t, refused, parent, segments);
    if segments != [] {
      match Find(t, segments[0], parent, Some(Dir))
      case Ok(Some(d)) =>
        MaterializeCreatesBelow(t, refused, parent, segments, d);
      case Ok(None) =>
        assert ExistingDepth(t, parent, segments) == 0;
        MaterializeFreshAfterMissing(t, refused, parent, segments);
    }
  }

  /** MaterializeCreatesMissing when the first directory exists: the count and names come from below it. */
  lemma {:induction false} MaterializeCreatesBelow(t: Tree, refused: set<string>, parent: Id, segments: seq<string>,
                                                   d: Entry)
    requires WellFormed(t) && segments != [] && Find(t, segments[0], parent, Some(Dir)) == Ok(Some(d))
    requires Materialize(t, refused, parent, segments).0.Ok?
    ensures var t' := Materialize(t, refused, parent, segments).1;
      && |t'| == |t| + |segments| - ExistingDepth(t, parent, segments)
      && Names(t'[|t|..]) == segments[ExistingDepth(t, parent, segments)..]
    decreases |segments|, 0
  {
    var k := ExistingDepth(t, d.id, segments[1..]);
    assert Materialize(t, refused, parent, segments) == Materialize(t, refused, d.id, segments[1..]);
    assert ExistingDepth(t, parent, segments) == 1 + k;
    FoundInTree(t, segments[0], parent, Some(Dir), d);
    MaterializeCreatesMissing(t, refused, d.id, segments[1..]);
    DropSlice(segments, k);
  }

  /**
   * createDirectories() fails only on an ambiguous directory name or on a
   * createDir the adapter refused, and then it names the refused path.
   */
  lemma {:induction false} MaterializeFailure(t: Tree, refused: set<string>, parent: Id, segments: seq<string>)
    requires WellFormed(t) && ValidParent(t, parent)
    ensures var r := Materialize(t, refused, parent, segments).0;
      r.Err? ==> r.error == MoreThanOne || (r.error.CreateFailed? && r.error.path in refused)
    decreases |segments|
  {
    if segments != [] {
      match Find(t, segments[0], parent, Some(Dir))
      case Err(_) =>
      case Ok(Some(d)) =>
        MaterializeFailure(t, refused, d.id, segments[1..]);
      case Ok(None) =>
        var created := CreateDirIn(t, refused, parent, segments[0]);
        if created.0 {
          MaterializeFailure(created.1, refused, NewId(t), segments[1..]);
        }
    }
  }

  /** A missing directory whose creation the adapter refuses stops the walk with the error naming "$parent/$directory". */
  lemma CreateRefused(t: Tree, refused: set<string>, parent: Id, segments: seq<string>)
    requires segments != [] && Find(t, segments[0], parent, Some(Dir)) == Ok(None)
    requires PathIn(parent, segments[0]) in refused
    ensures Materialize(t, refused, parent, segments) == (Err(CreateFailed(parent + "/" + segments[0])), t)
  {
  }

  /**
   * The do-while loop of createDirectoriesArray() and
   * makeDirectoryArrayRecursively(): shift a segment, reuse the directory
   * findDirectory() reports or create it and look it up again. Callers
   * always pass a non-empty list, so the loop test may come first.
   */
  method MaterializeIn(fs: Adapter, segments: seq<string>) returns (r: Result<Id>)
    requires fs.Valid()
    modifies fs
    ensures fs.Valid() && fs.contents == old(fs.contents)
    ensures (r, fs.entries) == Materialize(old(fs.entries), fs.refused, Top, segments)
  {
    var directories := segments;
    var parent := Top;
    while directories != []
      invariant fs.Valid() && fs.contents == old(fs.contents)
      invariant ValidParent(fs.entries, parent)
      invariant Materialize(old(fs.entries), fs.refused, Top, segments)
             == Materialize(fs.entries, fs.refused, parent, directories)
      decreases |directories|
    {
      var directory := directories[0];
      directories := directories[1..];
      var response := FindDirectory(fs.entries, directory, parent);
      if response.Err? {
        return Err(response.error);
      }
      if response.value.Some? {
        parent := response.value.value.id;
        continue;
      }
      ghost var before := fs.entries;
      var created := fs.CreateDir(parent, directory);
      if !created {
        return Err(CreateFailed(PathIn(parent, directory)));
      }
      FindAfterCreate(before, fs.refused, parent, directory);
      var again := FindDirectory(fs.entries, directory, parent);
      parent := again.value.value.id;
    }
    return Ok(parent);
  }
}
