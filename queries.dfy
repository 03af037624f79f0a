/**
 * The LINQ-style query operators (`from(...)->where(...)->...`) the storage
 * classes are written with, as functions on sequences.
 */
module Queries {
  import opened Results
  import opened Strings

  /** where($f): the elements satisfying `f`, in their original order. */
  function Where<T>(s: seq<T>, f: T -> bool): (r: seq<T>)
    ensures |r| <= |s|
    ensures forall i :: 0 <= i < |r| ==> r[i] in s && f(r[i])
    ensures forall i :: 0 <= i < |s| && f(s[i]) ==> s[i] in r
  {
    if s == [] then []
    else
      var last := s[|s| - 1];
      assert s == s[..|s| - 1] + [last];
      Where(s[..|s| - 1], f) + (if f(last) then [last] else [])
  }

  /** Filtering distributes over concatenation. */
  lemma {:induction false} WhereAppend<T>(a: seq<T>, b: seq<T>, f: T -> bool)
    ensures Where(a + b, f) == Where(a, f) + Where(b, f)
  {
    if b != [] {
      var b' := b[..|b| - 1];
      assert (a + b)[..|a + b| - 1] == a + b';
      WhereAppend(a, b', f);
    } else {
      assert a + b == a;
    }
  }

  /** A single element is kept exactly when it passes the filter. */
  lemma WhereSingleton<T>(x: T, f: T -> bool)
    ensures Where([x], f) == if f(x) then [x] else []
  {
    assert [x][..0] == [];
  }

  /**
   * Filtering from the front: the first element is kept or dropped, then
   * the rest is filtered. With WhereSingleton this determines the result as
   * the subsequence of the passing elements, in order and with repetitions.
   */
  lemma WhereCons<T>(x: T, s: seq<T>, f: T -> bool)
    ensures Where([x] + s, f) == (if f(x) then [x] else []) + Where(s, f)
  {
    WhereAppend([x], s, f);
    WhereSingleton(x, f);
  }

  /** Every element passing the filter is kept as often as it occurs, every other element never. */
  lemma {:induction false} WhereMultiset<T>(s: seq<T>, f: T -> bool)
    ensures forall x :: x in multiset(s) ==> multiset(Where(s, f))[x] == if f(x) then multiset(s)[x] else 0
    ensures multiset(Where(s, f)) <= multiset(s)
  {
    if s != [] {
      var init, last := s[..|s| - 1], s[|s| - 1];
      assert s == init + [last];
      WhereMultiset(init, f);
    }
  }

  /** Nothing passes a filter that rejects every element. */
  lemma {:induction false} WhereNone<T>(s: seq<T>, f: T -> bool)
    requires forall i :: 0 <= i < |s| ==> !f(s[i])
    ensures Where(s, f) == []
  {
    if s != [] {
      WhereNone(s[..|s| - 1], f);
    }
  }

  /** first(): the first element; an error on an empty sequence. */
  function First<T>(s: seq<T>): (r: Result<T>)
    ensures r.Ok? <==> s != []
    ensures r.Ok? ==> r.value == s[0]
    ensures r.Err? ==> r.error == NoElements
  {
    if s == [] then Err(NoElements) else Ok(s[0])
  }

  /** single(): the only element; an error on none or on several. */
  function Single<T>(s: seq<T>): (r: Result<T>)
    ensures r.Ok? <==> |s| == 1
    ensures r.Ok? ==> s == [r.value]
    ensures s == [] ==> r == Err(NoElements)
    ensures |s| > 1 ==> r == Err(MoreThanOne)
  {
    if |s| == 1 then Ok(s[0])
    else if s == [] then Err(NoElements)
    else Err(MoreThanOne)
  }

  /** singleOrDefault(): null on none, the element on one, an error on several. */
  function SingleOrDefault<T>(s: seq<T>): (r: Result<Option<T>>)
    ensures r == Ok(None) <==> s == []
    ensures r.Ok? && r.value.Some? <==> |s| == 1
    ensures r.Ok? && r.value.Some? ==> s == [r.value.value]
    ensures r.Err? <==> |s| > 1
    ensures r.Err? ==> r.error == MoreThanOne
  {
    if s == [] then Ok(None)
    else if |s| == 1 then Ok(Some(s[0]))
    else Err(MoreThanOne)
  }

  /**
   * orderByDescending($key)->first() without the error: the position of the
   * first element whose key is byte-wise greatest.
   */
  function GreatestIndex<T>(s: seq<T>, key: T -> string): (i: nat)
    requires s != []
    ensures i < |s|
    ensures forall j :: 0 <= j < |s| ==> LexLe(key(s[j]), key(s[i]))
    ensures forall j :: 0 <= j < i ==> key(s[j]) != key(s[i])
  {
    if |s| == 1 then
      LexLeReflexive(key(s[0]));
      0
    else
      var k := GreatestIndex(s[..|s| - 1], key);
      var last := |s| - 1;
      assert forall j :: 0 <= j < last ==> s[..last][j] == s[j];
      if LexLe(key(s[last]), key(s[k])) then k
      else
        LexLeTotal(key(s[last]), key(s[k]));
        assert forall j :: 0 <= j < |s| ==> LexLe(key(s[j]), key(s[last])) by {
          forall j | 0 <= j < |s| ensures LexLe(key(s[j]), key(s[last])) {
            if j < last {
              LexLeTransitive(key(s[j]), key(s[k]), key(s[last]));
            } else {
              LexLeReflexive(key(s[j]));
            }
          }
        }
        last
  }

  /** orderByDescending($key)->first(): an element with the greatest key; an error on none. */
  function Greatest<T>(s: seq<T>, key: T -> string): (r: Result<T>)
    ensures r.Ok? <==> s != []
    ensures r.Err? ==> r.error == NoElements
    ensures r.Ok? ==> r.value in s
    ensures r.Ok? ==> forall j :: 0 <= j < |s| ==> LexLe(key(s[j]), key(r.value))
    ensures r.Ok? ==> exists i :: 0 <= i < |s| && s[i] == r.value && forall j :: 0 <= j < i ==> key(s[j]) != key(s[i])
  {
    if s == [] then Err(NoElements)
    else
      var i := GreatestIndex(s, key);
      Ok(s[i])
  }

  /** all($f): every element satisfies `f` (true on an empty sequence). */
  predicate All<T>(s: seq<T>, f: T -> bool)
  {
    forall i :: 0 <= i < |s| ==> f(s[i])
  }
}
