/**
 * The PHP string primitives the core relies on: explode, basename, the
 * adapter's `filename` (a name without its extension), prefix tests,
 * byte-wise ordering, decimal digits and str_replace.
 */
module Strings {
  import opened Results

  // ---------------------------------------------------------------- explode

  /** PHP explode($sep, $s): the pieces of `s` between occurrences of `sep`. */
  function Split(s: string, sep: char): (r: seq<string>)
    ensures |r| >= 1
    ensures forall i :: 0 <= i < |r| ==> sep !in r[i]
  {
    if s == [] then [""]
    else
      var rest := Split(s[1..], sep);
      if s[0] == sep then [""] + rest
      else [[s[0]] + rest[0]] + rest[1..]
  }

  /** PHP implode($sep, $parts). */
  function Join(parts: seq<string>, sep: char): string
    requires |parts| >= 1
  {
    if |parts| == 1 then parts[0] else parts[0] + [sep] + Join(parts[1..], sep)
  }

  /** explode loses nothing: joining the pieces gives back the string. */
  lemma {:induction false} JoinSplit(s: string, sep: char)
    ensures Join(Split(s, sep), sep) == s
  {
    if s != [] {
      var rest := Split(s[1..], sep);
      JoinSplit(s[1..], sep);
      if s[0] == sep {
        assert ([""] + rest)[1..] == rest;
      } else {
        var parts := [[s[0]] + rest[0]] + rest[1..];
        if |rest| > 1 {
          assert parts[1..] == rest[1..];
        }
      }
      assert s == [s[0]] + s[1..];
    }
  }

  /** A string without the separator explodes into itself alone. */
  lemma {:induction false} SplitWithoutSeparator(s: string, sep: char)
    requires sep !in s
    ensures Split(s, sep) == [s]
  {
    if s != [] {
      assert sep !in s[1..] by {
        forall i | 0 <= i < |s[1..]| ensures s[1..][i] != sep {
          assert s[1..][i] == s[i + 1];
        }
      }
      SplitWithoutSeparator(s[1..], sep);
      assert s == [s[0]] + s[1..];
    }
  }

  // ------------------------------------------------------ basename, filename

  /** The position of the last `c` in `s`, if any. */
  function LastIndexOf(s: string, c: char): (r: Option<nat>)
    ensures r.None? <==> c !in s
    ensures r.Some? ==> r.value < |s| && s[r.value] == c && c !in s[r.value + 1..]
  {
    if s == [] then None
    else if s[|s| - 1] == c then Some(|s| - 1)
    else
      var prefix := s[..|s| - 1];
      assert s == prefix + [s[|s| - 1]];
      var r := LastIndexOf(prefix, c);
      assert r.Some? ==> s[r.value + 1..] == prefix[r.value + 1..] + [s[|s| - 1]];
      r
  }

  /** `s` without any trailing `c` characters. */
  function TrimTrailing(s: string, c: char): (r: string)
    ensures r <= s
    ensures r == [] || r[|r| - 1] != c
    ensures forall i :: |r| <= i < |s| ==> s[i] == c
  {
    if s == [] || s[|s| - 1] != c then s
    else TrimTrailing(s[..|s| - 1], c)
  }

  /** PHP basename($path): the last '/'-separated component, trailing slashes ignored. */
  function Basename(path: string): (r: string)
    ensures '/' !in r
    ensures '/' !in path ==> r == path
  {
    var trimmed := TrimTrailing(path, '/');
    assert '/' !in path ==> trimmed == path;
    match LastIndexOf(trimmed, '/')
    case None => trimmed
    case Some(i) => trimmed[i + 1..]
  }

  /**
   * The base name is the last component: with trailing slashes dropped,
   * the path ends with it, and it is the whole rest or follows a '/'.
   */
  lemma BasenameIsLastComponent(path: string)
    ensures var trimmed, r := TrimTrailing(path, '/'), Basename(path);
      |r| <= |trimmed| && trimmed[|trimmed| - |r|..] == r
    ensures var trimmed, r := TrimTrailing(path, '/'), Basename(path);
      |r| < |trimmed| ==> trimmed[|trimmed| - |r| - 1] == '/'
  {
    var trimmed := TrimTrailing(path, '/');
    match LastIndexOf(trimmed, '/')
    case None =>
      assert Basename(path) == trimmed;
    case Some(i) =>
      assert Basename(path) == trimmed[i + 1..];
      assert |trimmed| - |trimmed[i + 1..]| == i + 1;
  }

  /**
   * The `filename` metadata the drive adapter reports: the name cut at its
   * last dot ("steam.sqlite" gives "steam"); a name without a dot is its own
   * filename.
   */
  function FileName(name: string): (r: string)
    ensures r <= name
    ensures '.' !in name ==> r == name
    ensures '.' in name ==> |r| < |name| && name[|r|] == '.' && '.' !in name[|r| + 1..]
  {
    match LastIndexOf(name, '.')
    case None => name
    case Some(i) => name[..i]
  }

  /** StringType::startsWith($s, $prefix). */
  /** PHP reads "" and "0" as false. */
  predicate Truthy(s: string)
  {
    s != "" && s != "0"
  }

  predicate StartsWith(s: string, prefix: string)
  {
    |prefix| <= |s| && s[..|prefix|] == prefix
  }

  // ------------------------------------------------------ byte-wise ordering

  /** `a` sorts before or equal to `b` when compared character by character (strcmp). */
  predicate LexLe(a: string, b: string)
  {
    a == [] || (b != [] && (a[0] < b[0] || (a[0] == b[0] && LexLe(a[1..], b[1..]))))
  }

  lemma {:induction false} LexLeReflexive(a: string)
    ensures LexLe(a, a)
  {
    if a != [] {
      LexLeReflexive(a[1..]);
    }
  }

  lemma {:induction false} LexLeTotal(a: string, b: string)
    ensures LexLe(a, b) || LexLe(b, a)
  {
    if a != [] && b != [] && a[0] == b[0] {
      LexLeTotal(a[1..], b[1..]);
    }
  }

  lemma {:induction false} LexLeAntisymmetric(a: string, b: string)
    requires LexLe(a, b) && LexLe(b, a)
    ensures a == b
  {
    if a != [] && b != [] {
      LexLeAntisymmetric(a[1..], b[1..]);
      assert a == [a[0]] + a[1..];
      assert b == [b[0]] + b[1..];
    }
  }

  lemma {:induction false} LexLeTransitive(a: string, b: string, c: string)
    requires LexLe(a, b) && LexLe(b, c)
    ensures LexLe(a, c)
  {
    if a != [] && b != [] && c != [] && a[0] == b[0] && b[0] == c[0] {
      LexLeTransitive(a[1..], b[1..], c[1..]);
    }
  }

  /** Comparing two equal-length strings that differ only in their last characters. */
  lemma {:induction false} LexLeSnoc(a: string, x: char, b: string, y: char)
    requires |a| == |b|
    ensures LexLe(a + [x], b + [y]) <==> (a != b && LexLe(a, b)) || (a == b && x <= y)
  {
    if a == [] {
      assert b == [];
      assert ([x])[1..] == [] && ([y])[1..] == [];
    } else {
      assert (a + [x])[1..] == a[1..] + [x];
      assert (b + [y])[1..] == b[1..] + [y];
      LexLeSnoc(a[1..], x, b[1..], y);
      assert a == [a[0]] + a[1..];
      assert b == [b[0]] + b[1..];
    }
  }

  // ---------------------------------------------------------- decimal digits

  predicate IsDigit(c: char) { '0' <= c <= '9' }

  predicate IsDigits(s: string) { forall i :: 0 <= i < |s| ==> IsDigit(s[i]) }

  function DigitValue(c: char): (d: nat)
    requires IsDigit(c)
    ensures d < 10
  {
    (c as int) - ('0' as int)
  }

  function Digit(d: nat): (c: char)
    requires d < 10
    ensures IsDigit(c) && DigitValue(c) == d
  {
    ('0' as int + d) as char
  }

  /** The number a string of decimal digits denotes. */
  function Value(s: string): nat
    requires IsDigits(s)
  {
    if s == [] then 0 else Value(s[..|s| - 1]) * 10 + DigitValue(s[|s| - 1])
  }

  function Pow10(n: nat): (p: nat)
    ensures p >= 1
  {
    if n == 0 then 1 else 10 * Pow10(n - 1)
  }

  /** Two digit strings of one width with one value are the same string. */
  lemma {:induction false} ValueInjective(a: string, b: string)
    requires IsDigits(a) && IsDigits(b) && |a| == |b| && Value(a) == Value(b)
    ensures a == b
  {
    if a != [] {
      var a', b' := a[..|a| - 1], b[..|b| - 1];
      ValueInjective(a', b');
      assert a == a' + [a[|a| - 1]];
      assert b == b' + [b[|b| - 1]];
    }
  }

  /**
   * On zero-padded digit tokens of one width, byte-wise order is numeric
   * order, so PHP's numeric comparison of such names agrees with strcmp.
   */
  lemma {:induction false} LexLeIsNumeric(a: string, b: string)
    requires IsDigits(a) && IsDigits(b) && |a| == |b|
    ensures LexLe(a, b) <==> Value(a) <= Value(b)
  {
    if a != [] {
      var a', b' := a[..|a| - 1], b[..|b| - 1];
      var x, y := a[|a| - 1], b[|b| - 1];
      assert a == a' + [x];
      assert b == b' + [y];
      LexLeSnoc(a', x, b', y);
      LexLeIsNumeric(a', b');
      if a' != b' {
        if Value(a') == Value(b') {
          ValueInjective(a', b');
        }
      }
    }
  }

  /** PHP sprintf('%0{width}d', n) for a non-negative n below 10^width. */
  function Pad(n: nat, width: nat): (r: string)
    ensures |r| == width && IsDigits(r)
    ensures n < Pow10(width) ==> Value(r) == n
  {
    if width == 0 then ""
    else
      var r := Pad(n / 10, width - 1) + [Digit(n % 10)];
      assert r[..|r| - 1] == Pad(n / 10, width - 1);
      r
  }

  /** Reading a zero-padded token and padding its value again gives the token back. */
  lemma {:induction false} PadValue(s: string)
    requires IsDigits(s)
    ensures Value(s) < Pow10(|s|)
    ensures Pad(Value(s), |s|) == s
  {
    if s != [] {
      var s' := s[..|s| - 1];
      PadValue(s');
      assert Value(s) / 10 == Value(s') && Value(s) % 10 == DigitValue(s[|s| - 1]);
      assert Digit(DigitValue(s[|s| - 1])) == s[|s| - 1];
      assert s == s' + [s[|s| - 1]];
    }
  }

  /** The decimal representation of a natural number, without leading zeros. */
  function NatToString(n: nat): (r: string)
    ensures r != [] && IsDigits(r) && Value(r) == n
    ensures r[0] == '0' ==> n == 0 && r == "0"
  {
    if n < 10 then [Digit(n)]
    else
      var r := NatToString(n / 10) + [Digit(n % 10)];
      assert r[..|r| - 1] == NatToString(n / 10);
      r
  }

  /** PHP's conversion of an integer to a string. */
  function IntToString(i: int): string
  {
    if i < 0 then "-" + NatToString(-i) else NatToString(i)
  }

  // ------------------------------------------------------------ str_replace

  /** `pat` occurs in `s` starting at position `i`. */
  predicate OccursAt(pat: string, s: string, i: int)
  {
    0 <= i && i + |pat| <= |s| && s[i..i + |pat|] == pat
  }

  /** `pat` occurs somewhere in `s`. */
  predicate Occurs(pat: string, s: string)
  {
    exists i :: 0 <= i <= |s| && OccursAt(pat, s, i)
  }

  /**
   * PHP str_replace($pat, $rep, $s): scanning left to right, every
   * occurrence of `pat` is replaced by `rep`; the scan resumes after it.
   */
  function Replace(s: string, pat: string, rep: string): string
    requires pat != []
    decreases |s|
  {
    if |s| < |pat| then s
    else if s[..|pat|] == pat then rep + Replace(s[|pat|..], pat, rep)
    else [s[0]] + Replace(s[1..], pat, rep)
  }

  /** A string in which `pat` does not occur is left as it is. */
  lemma {:induction false} ReplaceAbsent(s: string, pat: string, rep: string)
    requires pat != [] && !Occurs(pat, s)
    ensures Replace(s, pat, rep) == s
  {
    if |s| >= |pat| {
      assert !OccursAt(pat, s, 0);
      ReplaceStep(s, pat, rep);
      AbsentInTail(pat, s);
      ReplaceAbsent(s[1..], pat, rep);
      assert s == [s[0]] + s[1..];
    }
  }

  /** Away from an occurrence, the scan copies one character and goes on. */
  lemma ReplaceStep(s: string, pat: string, rep: string)
    requires pat != [] && |s| >= |pat| && !OccursAt(pat, s, 0)
    ensures Replace(s, pat, rep) == [s[0]] + Replace(s[1..], pat, rep)
  {
    assert s[0..|pat|] == s[..|pat|];
  }

  /** A pattern absent from a string is absent from its tail. */
  lemma AbsentInTail(pat: string, s: string)
    requires s != [] && !Occurs(pat, s)
    ensures !Occurs(pat, s[1..])
  {
    forall i | 0 <= i <= |s[1..]|
      ensures !OccursAt(pat, s[1..], i)
    {
      assert !OccursAt(pat, s, i + 1);
      if i + |pat| <= |s[1..]| {
        SliceOfTail(s, i, i + |pat|);
      }
    }
  }

  /**
   * The scan copies everything before the first occurrence of `pat`,
   * replaces that occurrence and goes on after it.
   */
  lemma ReplaceFirst(a: string, pat: string, b: string, rep: string)
    requires pat != []
    requires forall i :: 0 <= i < |a| ==> !OccursAt(pat, a + pat + b, i)
    ensures Replace(a + pat + b, pat, rep) == a + rep + Replace(b, pat, rep)
  {
    var s := a + pat + b;
    assert OccursAt(pat, s, |a|) by { assert s[|a|..|a| + |pat|] == pat; }
    ReplaceFirstAt(s, pat, rep, |a|);
    assert s[..|a|] == a && s[|a| + |pat|..] == b;
  }

  /** ReplaceFirst() for an occurrence at position k with none before it. */
  lemma ReplaceFirstAt(s: string, pat: string, rep: string, k: nat)
    requires pat != [] && OccursAt(pat, s, k)
    requires forall i :: 0 <= i < k ==> !OccursAt(pat, s, i)
    ensures Replace(s, pat, rep) == s[..k] + rep + Replace(s[k + |pat|..], pat, rep)
  {
    var before, t, rest := s[..k], s[k..], s[k + |pat|..];
    var tail := Replace(rest, pat, rep);
    assert Replace(s, pat, rep) == before + Replace(t, pat, rep) by {
      CopyPrefix(s, pat, rep, k);
    }
    assert Replace(t, pat, rep) == rep + tail by {
      assert OccursAt(pat, t, 0) by {
        assert t[0..|pat|] == s[k..k + |pat|];
      }
      ReplaceAtStart(t, pat, rep);
      assert t[|pat|..] == rest;
    }
    ConcatAssoc(before, rep, tail);
  }

  /** Concatenation is associative (stated for the step above). */
  lemma ConcatAssoc(a: string, b: string, c: string)
    ensures a + (b + c) == a + b + c
  {
  }

  /** Before the first occurrence, the scan copies the text unchanged. */
  lemma CopyPrefix(s: string, pat: string, rep: string, k: nat)
    requires pat != [] && k + |pat| <= |s|
    requires forall i :: 0 <= i < k ==> !OccursAt(pat, s, i)
    ensures Replace(s, pat, rep) == s[..k] + Replace(s[k..], pat, rep)
  {
    var j := 0;
    assert s[..0] + Replace(s[0..], pat, rep) == Replace(s, pat, rep) by {
      assert s[0..] == s && s[..0] + Replace(s, pat, rep) == Replace(s, pat, rep);
    }
    while j < k
      invariant 0 <= j <= k
      invariant Replace(s, pat, rep) == s[..j] + Replace(s[j..], pat, rep)
    {
      CopyOne(s, pat, rep, j);
      j := j + 1;
    }
  }

  /** One step of the scan away from an occurrence: the character at j is copied. */
  lemma CopyOne(s: string, pat: string, rep: string, j: nat)
    requires pat != [] && j + |pat| <= |s| && !OccursAt(pat, s, j)
    ensures s[..j] + Replace(s[j..], pat, rep) == s[..j + 1] + Replace(s[j + 1..], pat, rep)
  {
    var t := s[j..];
    assert !OccursAt(pat, t, 0) by {
      assert t[0..|pat|] == s[j..j + |pat|];
    }
    ReplaceStep(t, pat, rep);
    assert t[0] == s[j] && t[1..] == s[j + 1..];
    assert s[..j + 1] == s[..j] + [s[j]];
  }

  /** At an occurrence at the start, the scan puts the replacement and goes on after it. */
  lemma ReplaceAtStart(s: string, pat: string, rep: string)
    requires pat != [] && OccursAt(pat, s, 0)
    ensures Replace(s, pat, rep) == rep + Replace(s[|pat|..], pat, rep)
  {
    var n := |pat|;
    assert s[..n] == pat by { assert s[..n] == s[0..0 + n]; }
  }

  /** A slice of the tail is the slice of the string one position further. */
  lemma SliceOfTail(s: string, i: nat, j: nat)
    requires i <= j < |s|
    ensures s[1..][i..j] == s[i + 1..j + 1]
  {
  }

  /** Replacing a pattern by itself changes nothing. */
  lemma {:induction false} ReplaceByItself(s: string, pat: string)
    requires pat != []
    ensures Replace(s, pat, pat) == s
  {
    if |s| >= |pat| {
      if s[..|pat|] == pat {
        ReplaceByItself(s[|pat|..], pat);
        assert s == s[..|pat|] + s[|pat|..];
      } else {
        ReplaceByItself(s[1..], pat);
        assert s == [s[0]] + s[1..];
      }
    }
  }
}
