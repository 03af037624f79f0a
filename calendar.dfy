/**
 * The proleptic Gregorian calendar arithmetic behind "$ym$day -1day" and
 * format('Ym') / format('d') in the yesterday-snapshot fetchers.
 */
module Calendar {
  import opened Results
  import opened Strings

  datatype Date = Date(year: int, month: int, day: int)

  predicate Leap(y: int)
  {
    (y % 4 == 0 && y % 100 != 0) || y % 400 == 0
  }

  function DaysIn(y: int, m: int): (n: int)
    requires 1 <= m <= 12
    ensures 28 <= n <= 31
    ensures m == 2 ==> (n == 29 <==> Leap(y))
  {
    if m == 2 then (if Leap(y) then 29 else 28)
    else if m == 4 || m == 6 || m == 9 || m == 11 then 30
    else 31
  }

  predicate Valid(d: Date)
  {
    1 <= d.month <= 12 && 1 <= d.day <= DaysIn(d.year, d.month)
  }

  /** Chronological order of dates. */
  predicate Before(a: Date, b: Date)
  {
    || a.year < b.year
    || (a.year == b.year && a.month < b.month)
    || (a.year == b.year && a.month == b.month && a.day < b.day)
  }

  /**
   * "-1day": the day before. The first of a month rolls back to the last
   * day of the previous month, and 1 January to 31 December of the previous
   * year. No valid date lies strictly between the result and `d`.
   */
  function Pred(d: Date): (r: Date)
    requires Valid(d)
    ensures Valid(r) && Before(r, d) && d.year - 1 <= r.year
    ensures forall e :: Valid(e) && Before(e, d) ==> e == r || Before(e, r)
  {
    if d.day > 1 then Date(d.year, d.month, d.day - 1)
    else if d.month > 1 then Date(d.year, d.month - 1, DaysIn(d.year, d.month - 1))
    else Date(d.year - 1, 12, 31)
  }

  /** The day after; the inverse of Pred. */
  function Succ(d: Date): (r: Date)
    requires Valid(d)
    ensures Valid(r) && Before(d, r)
  {
    if d.day < DaysIn(d.year, d.month) then Date(d.year, d.month, d.day + 1)
    else if d.month < 12 then Date(d.year, d.month + 1, 1)
    else Date(d.year + 1, 1, 1)
  }

  lemma SuccOfPred(d: Date)
    requires Valid(d)
    ensures Succ(Pred(d)) == d
  {
    if d.day == 1 && d.month > 1 {
      assert Pred(d) == Date(d.year, d.month - 1, DaysIn(d.year, d.month - 1));
    }
  }

  lemma PredOfSucc(d: Date)
    requires Valid(d)
    ensures Pred(Succ(d)) == d
  {
    if d.day == DaysIn(d.year, d.month) && d.month < 12 {
      assert Succ(d) == Date(d.year, d.month + 1, 1);
    }
  }

  /** format('Y'): at least four digits, a minus sign before years before year 0. */
  function FormatYear(y: int): (r: string)
    ensures 0 <= y < 10000 ==> IsDigits(r) && |r| == 4 && Value(r) == y
  {
    if y < 0 then "-" + Pad(-y, 4) else Pad(y, 4)
  }

  /** format('Ym'). */
  function FormatYearMonth(d: Date): (r: string)
    requires Valid(d)
    ensures 0 <= d.year < 10000 ==>
      |r| == 6 && IsDigits(r) && Value(r[..4]) == d.year && Value(r[4..]) == d.month
  {
    assert Pow10(2) == 100;
    var y, m := FormatYear(d.year), Pad(d.month, 2);
    assert (y + m)[..|y|] == y && (y + m)[|y|..] == m;
    y + m
  }

  /** format('d'): two digits, zero padded. */
  function FormatDay(d: Date): (r: string)
    requires Valid(d)
    ensures |r| == 2 && IsDigits(r) && Value(r) == d.day
  {
    assert Pow10(2) == 100;
    Pad(d.day, 2)
  }

  /**
   * The "YYYYmm" + "dd" string given to the date parser. Only six digits
   * followed by two digits that name an existing day are accepted; anything
   * else is an error naming the string.
   */
  function ParseDate(yearMonth: string, day: string): (r: Result<Date>)
    ensures r.Ok? ==> Valid(r.value) && 0 <= r.value.year < 10000
    ensures r.Err? ==> r.error == BadDate(yearMonth + day)
  {
    if |yearMonth| == 6 && |day| == 2 && IsDigits(yearMonth) && IsDigits(day) then
      var year := yearMonth[..4];
      assert IsDigits(year);
      PadValue(year);
      assert Pow10(4) == 10000;
      var d := Date(Value(year), Value(yearMonth[4..]), Value(day));
      if Valid(d) then Ok(d) else Err(BadDate(yearMonth + day))
    else Err(BadDate(yearMonth + day))
  }

  /** Formatting a parsed date gives back the strings it was parsed from. */
  lemma FormatParse(yearMonth: string, day: string)
    requires ParseDate(yearMonth, day).Ok?
    ensures FormatYearMonth(ParseDate(yearMonth, day).value) == yearMonth
    ensures FormatDay(ParseDate(yearMonth, day).value) == day
  {
    var d := ParseDate(yearMonth, day).value;
    var year, month := yearMonth[..4], yearMonth[4..];
    assert IsDigits(year) && IsDigits(month);
    PadValue(year);
    PadValue(month);
    PadValue(day);
    assert yearMonth == year + month;
  }

  /** Parsing the formatted strings of a date of years 0 to 9999 gives the date back. */
  lemma ParseFormat(d: Date)
    requires Valid(d) && 0 <= d.year < 10000
    ensures ParseDate(FormatYearMonth(d), FormatDay(d)) == Ok(d)
  {
  }
}
