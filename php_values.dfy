/**
 * The PHP values the mapping callbacks and the log processor see, and the
 * conversions of them they rely on: truthiness, reading a missing array
 * key, integer conversion and string interpolation.
 */
module PhpValues {
  import opened Results
  import Strings

  /** A PHP value: decoded JSON scalars and arrays, and the two kinds of object the callbacks expect. */
  datatype Datum =
    | Null
    | Bool(b: bool)
    | Int(i: int)
    | Str(s: string)
    | List(items: seq<Datum>)
    | Assoc(fields: map<string, Datum>)
    | Time(timestamp: int)   // a DateTimeImmutable
    | Deck(id: int)          // a Steam Deck compatibility enumeration member

  /** An associative PHP array with string keys. */
  type Data = map<string, Datum>

  /** PHP_INT_MIN and PHP_INT_MAX on a 64-bit build. */
  const IntMin: int := -0x8000_0000_0000_0000
  const IntMax: int := 0x7fff_ffff_ffff_ffff

  predicate InIntRange(i: int) { IntMin <= i <= IntMax }

  /** PHP's conversion to bool: null, false, 0, "", "0" and the empty array are false; objects are true. */
  predicate IsTruthy(d: Datum)
  {
    match d
    case Null => false
    case Bool(b) => b
    case Int(i) => i != 0
    case Str(s) => Strings.Truthy(s)
    case List(items) => items != []
    case Assoc(fields) => fields != map[]
    case Time(_) => true
    case Deck(_) => true
  }

  /** `$data[$key]`: a missing key reads as null. */
  function Get(data: Data, key: string): (r: Datum)
    ensures key !in data ==> r == Null
    ensures key in data ==> r == data[key]
  {
    if key in data then data[key] else Null
  }

  // ---------------------------------------------------- integer conversion

  /** The whitespace PHP skips in front of a numeric string. */
  predicate IsSpace(c: char)
  {
    c == ' ' || c == '\t' || c == '\n' || c == '\r' || c as int == 11 || c as int == 12
  }

  function SkipSpace(s: string): (r: string)
    ensures |r| <= |s| && r == s[|s| - |r|..]
    ensures r != [] ==> !IsSpace(r[0])
  {
    if s != [] && IsSpace(s[0]) then SkipSpace(s[1..]) else s
  }

  /** The longest run of decimal digits at the start of `s`. */
  function DigitPrefix(s: string): (r: string)
    ensures Strings.IsDigits(r) && r <= s
    ensures |r| < |s| ==> !Strings.IsDigit(s[|r|])
  {
    if s != [] && Strings.IsDigit(s[0]) then [s[0]] + DigitPrefix(s[1..]) else []
  }

  /** A string of digits is its own digit prefix. */
  lemma {:induction false} DigitPrefixOfDigits(s: string)
    requires Strings.IsDigits(s)
    ensures DigitPrefix(s) == s
  {
    if s != [] {
      assert Strings.IsDigits(s[1..]) by {
        forall i | 0 <= i < |s[1..]| ensures Strings.IsDigit(s[1..][i]) { assert s[1..][i] == s[i + 1]; }
      }
      DigitPrefixOfDigits(s[1..]);
      assert s == [s[0]] + s[1..];
    }
  }

  /** Out-of-range results saturate at the 64-bit bounds. */
  function Clamp(i: int): (r: int)
    ensures InIntRange(r)
    ensures InIntRange(i) ==> r == i
    ensures i < IntMin ==> r == IntMin
    ensures i > IntMax ==> r == IntMax
  {
    if i < IntMin then IntMin else if i > IntMax then IntMax else i
  }

  /**
   * `(int)$string`: leading whitespace, an optional sign and the digits
   * that follow; no digits read as 0.
   */
  function StringToInt(s: string): (r: int)
    ensures InIntRange(r)
  {
    var t := SkipSpace(s);
    if t != [] && (t[0] == '-' || t[0] == '+') then
      var v: int := Strings.Value(DigitPrefix(t[1..]));
      Clamp(if t[0] == '-' then -v else v)
    else
      Clamp(Strings.Value(DigitPrefix(t)))
  }

  /** Converting an integer to a string and back gives the integer. */
  lemma IntStringRoundTrip(i: int)
    requires InIntRange(i)
    ensures StringToInt(Strings.IntToString(i)) == i
  {
    if i < 0 {
      var digits := Strings.NatToString(-i);
      DigitPrefixOfDigits(digits);
      var s := "-" + digits;
      assert SkipSpace(s) == s;
      assert s[0] == '-' && s[1..] == digits;
      assert StringToInt(s) == Clamp(0 - Strings.Value(digits));
    } else {
      NatStringRoundTrip(i);
    }
  }

  /** The non-negative half of IntStringRoundTrip(). */
  lemma NatStringRoundTrip(n: nat)
    requires n <= IntMax
    ensures StringToInt(Strings.NatToString(n)) == n
  {
    DigitsToInt(Strings.NatToString(n));
  }

  /** A non-empty string of digits converts to the number it denotes, when that is in range. */
  lemma DigitsToInt(digits: string)
    requires digits != [] && Strings.IsDigits(digits) && Strings.Value(digits) <= IntMax
    ensures StringToInt(digits) == Strings.Value(digits)
  {
    assert Strings.IsDigit(digits[0]);
    UnsignedToInt(digits);
    DigitPrefixOfDigits(digits);
  }

  /** Without leading space or sign, the conversion reads the digit prefix. */
  lemma UnsignedToInt(s: string)
    requires s != [] && '0' <= s[0] <= '9'
    ensures StringToInt(s) == Clamp(Strings.Value(DigitPrefix(s)))
  {
    assert !IsSpace(s[0]);
    assert SkipSpace(s) == s;
    assert s[0] != '-' && s[0] != '+';
  }

  /** Leading whitespace does not change the integer a string reads as. */
  lemma LeadingSpaceIgnored(c: char, s: string)
    requires IsSpace(c)
    ensures StringToInt([c] + s) == StringToInt(s)
  {
    assert ([c] + s)[1..] == s;
  }

  /** The digit prefix stops at the first character that is not a digit. */
  lemma {:induction false} DigitPrefixOfText(digits: string, rest: string)
    requires Strings.IsDigits(digits) && (rest == [] || !Strings.IsDigit(rest[0]))
    ensures DigitPrefix(digits + rest) == digits
  {
    if digits != [] {
      assert Strings.IsDigits(digits[1..]) by {
        forall i | 0 <= i < |digits[1..]| ensures Strings.IsDigit(digits[1..][i]) { assert digits[1..][i] == digits[i + 1]; }
      }
      assert Strings.IsDigit(digits[0]);
      DigitPrefixOfText(digits[1..], rest);
      assert (digits + rest)[1..] == digits[1..] + rest;
    }
  }

  /** Digits followed by other text read as the number the digits denote ("12abc" is 12), saturated. */
  lemma UnsignedDigitsToInt(digits: string, rest: string)
    requires digits != [] && Strings.IsDigits(digits) && (rest == [] || !Strings.IsDigit(rest[0]))
    ensures StringToInt(digits + rest) == Clamp(Strings.Value(digits))
  {
    assert Strings.IsDigit((digits + rest)[0]);
    UnsignedToInt(digits + rest);
    DigitPrefixOfText(digits, rest);
  }

  /**
   * With a sign in front, the conversion reads the digits after the sign
   * and applies the sign ("-5x" is -5); a sign with no digits after it
   * reads as 0.
   */
  lemma SignedToInt(s: string)
    requires s != [] && (s[0] == '-' || s[0] == '+')
    ensures var v: int := Strings.Value(DigitPrefix(s[1..]));
      StringToInt(s) == Clamp(if s[0] == '-' then 0 - v else v)
  {
    assert !IsSpace(s[0]);
    assert SkipSpace(s) == s;
  }

  /** Text that starts with neither whitespace, a sign nor a digit reads as 0. */
  lemma NoNumberIsZero(s: string)
    requires s == [] || (!IsSpace(s[0]) && s[0] != '-' && s[0] != '+' && !Strings.IsDigit(s[0]))
    ensures StringToInt(s) == 0
  {
  }

  /** PHP's integer conversion, as settype($value, 'integer') performs it. */
  function ToInt(d: Datum): int
  {
    match d
    case Null => 0
    case Bool(b) => if b then 1 else 0
    case Int(i) => i
    case Str(s) => StringToInt(s)
    case List(items) => if items == [] then 0 else 1
    case Assoc(fields) => if fields == map[] then 0 else 1
    case Time(_) => 1
    case Deck(_) => 1
  }

  // --------------------------------------------------------- interpolation

  /**
   * The text a value contributes to a double-quoted string: null and
   * false give "", true gives "1", arrays give "Array"; the objects here
   * have no string form, an error.
   */
  function Interpolate(d: Datum): (r: Option<string>)
    ensures r.None? <==> d.Time? || d.Deck?
    ensures d.Int? ==> r == Some(Strings.IntToString(d.i))
    ensures d.Str? ==> r == Some(d.s)
  {
    match d
    case Null => Some("")
    case Bool(b) => Some(if b then "1" else "")
    case Int(i) => Some(Strings.IntToString(i))
    case Str(s) => Some(s)
    case List(_) => Some("Array")
    case Assoc(_) => Some("Array")
    case Time(_) => None
    case Deck(_) => None
  }

  /**
   * `$value[key]` inside a string: an array gives its entry (null when
   * absent), a scalar gives null; a string or an object cannot be read
   * that way, an error.
   */
  function Offset(d: Datum, key: string): (r: Option<Datum>)
    ensures d.Assoc? ==> r == Some(Get(d.fields, key))
    ensures r.None? <==> d.Str? || d.Time? || d.Deck?
  {
    match d
    case Assoc(fields) => Some(Get(fields, key))
    case List(_) => Some(Null)
    case Null => Some(Null)
    case Bool(_) => Some(Null)
    case Int(_) => Some(Null)
    case Str(_) => None
    case Time(_) => None
    case Deck(_) => None
  }
}
