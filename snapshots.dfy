/**
 * Locating database snapshots under the read directory: the
 * fetchLatestDatabaseSnapshot(), fetchYesterdaysLastDatabaseSnapshot() and
 * findLatestBuildDatabaseSnapshot() queries, which both storage classes
 * implement identically. The layout they expect is
 * data/<yyyymm>/<dd>/<build>/steam.sqlite.
 */
module Snapshots {
  import opened Results
  import opened Queries
  import opened Strings
  import opened Drive
  import opened Resolver
  import Calendar

  /** READ_DIR of ReadWriteStorage, ROOT_DIR of OnlineStorage. */
  const DataDir: string := "data"
  const SnapshotName: string := "steam.sqlite"

  /** The metadata of the snapshot file plus the 'vdir' key the fetchers add. */
  datatype Snapshot = Snapshot(file: Entry, vdir: string)

  function FileNameOf(): Entry -> string { (e: Entry) => e.FileName() }
  function FileNameStartsWith(prefix: string): Entry -> bool { (e: Entry) => StartsWith(e.FileName(), prefix) }
  function FileNameIs(n: string): Entry -> bool { (e: Entry) => e.FileName() == n }
  function NameIs(n: string): Entry -> bool { (e: Entry) => e.name == n }

  /** findRootDir(): the one directory named "data" at the top. */
  function RootDir(t: Tree): (r: Result<Id>)
    ensures r.Ok? ==> exists i :: 0 <= i < |t| && t[i].id == r.value && IsMatch(t[i], DataDir, Top, Some(Dir))
    ensures r == Err(NotFound(DataDir)) <==> forall i :: 0 <= i < |t| ==> !IsMatch(t[i], DataDir, Top, Some(Dir))
    ensures r.Err? ==> r.error in {NotFound(DataDir), MoreThanOne}
  {
    FindMeaning(t, DataDir, Top, Some(Dir));
    var found :- FindDirectory(t, DataDir, Top);
    if found.None? then Err(NotFound(DataDir)) else Ok(found.value.id)
  }

  /**
   * orderByDescending(filename)->first() over the listing of `dir`: a child
   * whose filename no other child's exceeds, the first such in listing
   * order since the sort is stable; an error when `dir` is empty.
   */
  function LatestChild(t: Tree, dir: Id): (r: Result<Entry>)
    ensures r.Ok? <==> Children(t, dir) != []
    ensures r.Err? ==> r.error == NoElements
    ensures r.Ok? ==> r.value in t && r.value.parent == dir
    ensures r.Ok? ==> forall j :: 0 <= j < |Children(t, dir)| ==>
      LexLe(Children(t, dir)[j].FileName(), r.value.FileName())
  {
    Greatest(Children(t, dir), FileNameOf())
  }

  /**
   * The stable sort's tie-break: the latest child is the first child in
   * listing order carrying its filename.
   */
  lemma LatestChildIsFirst(t: Tree, dir: Id) returns (i: nat)
    requires LatestChild(t, dir).Ok?
    ensures i < |Children(t, dir)| && Children(t, dir)[i] == LatestChild(t, dir).value
    ensures forall j :: 0 <= j < i ==> Children(t, dir)[j].FileName() != LatestChild(t, dir).value.FileName()
  {
    i := GreatestIndex(Children(t, dir), FileNameOf());
  }

  /** The children of the root whose filename starts with "20". */
  function YearMonths(t: Tree, data: Id): seq<Entry>
  {
    Where(Children(t, data), FileNameStartsWith("20"))
  }

  /** The latest "20"-prefixed child of the root, by filename; the first in listing order among equals. */
  function LatestYearMonth(t: Tree, data: Id): (r: Result<Entry>)
    ensures r.Ok? <==> YearMonths(t, data) != []
    ensures r.Err? ==> r.error == NoElements
    ensures r.Ok? ==> r.value in t && r.value.parent == data && StartsWith(r.value.FileName(), "20")
    ensures r.Ok? ==> forall j :: 0 <= j < |YearMonths(t, data)| ==>
      LexLe(YearMonths(t, data)[j].FileName(), r.value.FileName())
  {
    var r := Greatest(YearMonths(t, data), FileNameOf());
    assert r.Ok? ==> r.value in Children(t, data);
    r
  }

  /** The same tie-break among the "20"-prefixed children of the root. */
  lemma LatestYearMonthIsFirst(t: Tree, data: Id) returns (i: nat)
    requires LatestYearMonth(t, data).Ok?
    ensures i < |YearMonths(t, data)| && YearMonths(t, data)[i] == LatestYearMonth(t, data).value
    ensures forall j :: 0 <= j < i ==> YearMonths(t, data)[j].FileName() != LatestYearMonth(t, data).value.FileName()
  {
    i := GreatestIndex(YearMonths(t, data), FileNameOf());
  }

  /** The entries named steam.sqlite directly under `dir`. */
  function SnapshotFiles(t: Tree, dir: Id): seq<Entry>
  {
    Where(Children(t, dir), NameIs(SnapshotName))
  }

  /**
   * findLatestBuildDatabaseSnapshot(): the latest build directory of the
   * day must hold exactly one steam.sqlite; its metadata is returned with
   * the build's filename as vdir.
   */
  function LatestBuild(t: Tree, dayDir: Id): (r: Result<Snapshot>)
    ensures r.Ok? <==> LatestChild(t, dayDir).Ok? && |SnapshotFiles(t, LatestChild(t, dayDir).value.id)| == 1
    ensures r.Ok? ==>
      && r.value.file in t
      && r.value.file.name == SnapshotName
      && r.value.file.parent == LatestChild(t, dayDir).value.id
      && r.value.vdir == LatestChild(t, dayDir).value.FileName()
    ensures r.Err? ==> r.error in {NoElements, MoreThanOne}
  {
    var build :- LatestChild(t, dayDir);
    var files := SnapshotFiles(t, build.id);
    var file :- Single(files);
    assert file in Children(t, build.id);
    Ok(Snapshot(file, build.FileName()))
  }

  /** fetchLatestDatabaseSnapshot(). */
  function FetchLatest(t: Tree): Result<Snapshot>
  {
    var data :- RootDir(t);
    var yearMonth :- LatestYearMonth(t, data);
    var day :- LatestChild(t, yearMonth.id);
    var build :- LatestBuild(t, day.id);
    Ok(Snapshot(build.file, "data/" + yearMonth.FileName() + "/" + day.FileName() + "/" + build.vdir))
  }

  /**
   * The latest snapshot is the one steam.sqlite of the latest build of the
   * latest day of the latest "20"-prefixed year-month under "data", and its
   * vdir spells that chain of filenames. Each of the three is the first in
   * its listing among the entries sharing its filename.
   */
  lemma FetchLatestChain(t: Tree) returns (data: Id, yearMonth: Entry, day: Entry, build: Entry)
    requires FetchLatest(t).Ok?
    ensures RootDir(t) == Ok(data)
    ensures yearMonth in t && yearMonth.parent == data && StartsWith(yearMonth.FileName(), "20")
    ensures forall j :: 0 <= j < |YearMonths(t, data)| ==> LexLe(YearMonths(t, data)[j].FileName(), yearMonth.FileName())
    ensures exists i ::
      && 0 <= i < |YearMonths(t, data)|
      && YearMonths(t, data)[i] == yearMonth
      && forall j :: 0 <= j < i ==> YearMonths(t, data)[j].FileName() != yearMonth.FileName()
    ensures day in t && day.parent == yearMonth.id
    ensures forall j :: 0 <= j < |Children(t, yearMonth.id)| ==>
      LexLe(Children(t, yearMonth.id)[j].FileName(), day.FileName())
    ensures exists i ::
      && 0 <= i < |Children(t, yearMonth.id)|
      && Children(t, yearMonth.id)[i] == day
      && forall j :: 0 <= j < i ==> Children(t, yearMonth.id)[j].FileName() != day.FileName()
    ensures build in t && build.parent == day.id
    ensures forall j :: 0 <= j < |Children(t, day.id)| ==> LexLe(Children(t, day.id)[j].FileName(), build.FileName())
    ensures exists i ::
      && 0 <= i < |Children(t, day.id)|
      && Children(t, day.id)[i] == build
      && forall j :: 0 <= j < i ==> Children(t, day.id)[j].FileName() != build.FileName()
    ensures SnapshotFiles(t, build.id) == [FetchLatest(t).value.file]
    ensures FetchLatest(t).value.vdir
         == "data/" + yearMonth.FileName() + "/" + day.FileName() + "/" + build.FileName()
  {
    data := RootDir(t).value;
    yearMonth := LatestYearMonth(t, data).value;
    day := LatestChild(t, yearMonth.id).value;
    var b := LatestBuild(t, day.id);
    assert b.Ok?;
    build := LatestChild(t, day.id).value;
    assert FetchLatest(t).value == Snapshot(b.value.file,
      "data/" + yearMonth.FileName() + "/" + day.FileName() + "/" + b.value.vdir);
    assert SnapshotFiles(t, build.id) == [b.value.file];
    var iy := LatestYearMonthIsFirst(t, data);
    var id := LatestChildIsFirst(t, yearMonth.id);
    var ib := LatestChildIsFirst(t, day.id);
  }

  /**
   * Taking the maximum by filename is taking the numeric maximum when all
   * the filenames compared are digit strings of one width, as the
   * zero-padded yyyymm, dd and build names are.
   */
  lemma LatestChildIsNumericMax(t: Tree, dir: Id, width: nat)
    requires Children(t, dir) != []
    requires forall j :: 0 <= j < |Children(t, dir)| ==>
      IsDigits(Children(t, dir)[j].FileName()) && |Children(t, dir)[j].FileName()| == width
    ensures IsDigits(LatestChild(t, dir).value.FileName())
    ensures forall j :: 0 <= j < |Children(t, dir)| ==>
      Value(Children(t, dir)[j].FileName()) <= Value(LatestChild(t, dir).value.FileName())
  {
    var c, m := Children(t, dir), LatestChild(t, dir).value;
    assert m in c;
    forall j | 0 <= j < |c|
      ensures Value(c[j].FileName()) <= Value(m.FileName())
    {
      LexLeIsNumeric(c[j].FileName(), m.FileName());
    }
  }

  /** The latest "20"-prefixed year-month directory under "data" and the latest day directory in it. */
  function LatestDay(t: Tree): (r: Result<(Entry, Entry)>)
    ensures r.Ok? ==> RootDir(t).Ok? && LatestYearMonth(t, RootDir(t).value) == Ok(r.value.0)
    ensures r.Ok? ==> LatestChild(t, r.value.0.id) == Ok(r.value.1)
    ensures r.Err? ==> r.error in {NotFound(DataDir), MoreThanOne, NoElements}
  {
    var data :- RootDir(t);
    var yearMonth :- LatestYearMonth(t, data);
    var day :- LatestChild(t, yearMonth.id);
    Ok((yearMonth, day))
  }

  /**
   * The first half of fetchYesterdaysLastDatabaseSnapshot(): the day before
   * the date spelt by the latest year-month and its latest day, that is the
   * valid date whose next day that is.
   */
  function Yesterday(t: Tree): (r: Result<Calendar.Date>)
    ensures r.Ok? ==> Calendar.Valid(r.value) && -1 <= r.value.year < 10000
    ensures r.Ok? ==> LatestDay(t).Ok?
    ensures r.Ok? ==> var days := LatestDay(t).value;
      Calendar.ParseDate(days.0.FileName(), days.1.FileName()) == Ok(Calendar.Succ(r.value))
  {
    var days :- LatestDay(t);
    var today :- Calendar.ParseDate(days.0.FileName(), days.1.FileName());
    assert Calendar.Succ(Calendar.Pred(today)) == today by { Calendar.SuccOfPred(today); }
    Ok(Calendar.Pred(today))
  }

  /**
   * The exact-name lookups of fetchYesterdaysLastDatabaseSnapshot(): the
   * only child of the root whose filename is yesterday's year-month, then
   * the first child of that whose filename is yesterday's day.
   */
  function DayDirOf(t: Tree, data: Id, yesterday: Calendar.Date): (r: Result<Entry>)
    requires Calendar.Valid(yesterday)
    ensures r.Ok? ==> r.value in t && r.value.FileName() == Calendar.FormatDay(yesterday)
    ensures r.Ok? ==>
      exists i :: 0 <= i < |t| && t[i].id == r.value.parent
        && Where(Children(t, data), FileNameIs(Calendar.FormatYearMonth(yesterday))) == [t[i]]
    ensures r.Err? ==> r.error in {NoElements, MoreThanOne}
  {
    var yearMonthDir :- Single(Where(Children(t, data), FileNameIs(Calendar.FormatYearMonth(yesterday))));
    assert yearMonthDir in Children(t, data);
    var days := Where(Children(t, yearMonthDir.id), FileNameIs(Calendar.FormatDay(yesterday)));
    var dayDir :- First(days);
    assert dayDir in Children(t, yearMonthDir.id);
    Ok(dayDir)
  }

  /**
   * DayDirOf() succeeds exactly when yesterday's year-month names one child
   * of the root and yesterday's day names at least one child of that, and
   * then returns the first of those in listing order.
   */
  lemma DayDirIsFirstMatch(t: Tree, data: Id, yesterday: Calendar.Date)
    requires Calendar.Valid(yesterday)
    ensures var months := Where(Children(t, data), FileNameIs(Calendar.FormatYearMonth(yesterday)));
      DayDirOf(t, data, yesterday).Ok?
      <==> |months| == 1 && Where(Children(t, months[0].id), FileNameIs(Calendar.FormatDay(yesterday))) != []
    ensures var months := Where(Children(t, data), FileNameIs(Calendar.FormatYearMonth(yesterday)));
      DayDirOf(t, data, yesterday).Ok? ==>
        DayDirOf(t, data, yesterday).value == Where(Children(t, months[0].id), FileNameIs(Calendar.FormatDay(yesterday)))[0]
  {
  }

  /** fetchYesterdaysLastDatabaseSnapshot(). */
  function FetchYesterdays(t: Tree): Result<Snapshot>
  {
    var yesterday :- Yesterday(t);
    SnapshotOfDay(t, RootDir(t).value, yesterday)
  }

  /** The second half of fetchYesterdaysLastDatabaseSnapshot(): the latest build of the given day. */
  function SnapshotOfDay(t: Tree, data: Id, yesterday: Calendar.Date): Result<Snapshot>
    requires Calendar.Valid(yesterday)
  {
    var dayDir :- DayDirOf(t, data, yesterday);
    var build :- LatestBuild(t, dayDir.id);
    Ok(Snapshot(build.file, DataDir + "/" + Calendar.FormatYearMonth(yesterday) + "/"
                            + Calendar.FormatDay(yesterday) + "/" + build.vdir))
  }

  /**
   * Yesterday's snapshot lies under the only year-month directory and the
   * first day directory whose filenames are the formatted day before the
   * latest date, and its vdir spells them under "data".
   */
  lemma FetchYesterdaysChain(t: Tree) returns (yearMonth: Entry, day: Entry, today: Calendar.Date, dayDir: Entry,
                                                build: Entry)
    requires FetchYesterdays(t).Ok?
    ensures RootDir(t).Ok? && LatestYearMonth(t, RootDir(t).value) == Ok(yearMonth)
    ensures LatestChild(t, yearMonth.id) == Ok(day)
    ensures Calendar.ParseDate(yearMonth.FileName(), day.FileName()) == Ok(today)
    ensures Calendar.Valid(today) && Yesterday(t) == Ok(Calendar.Pred(today))
    ensures RootDir(t).Ok? && DayDirOf(t, RootDir(t).value, Calendar.Pred(today)) == Ok(dayDir)
    ensures build in t && build.parent == dayDir.id
    ensures forall j :: 0 <= j < |Children(t, dayDir.id)| ==> LexLe(Children(t, dayDir.id)[j].FileName(), build.FileName())
    ensures exists i ::
      && 0 <= i < |Children(t, dayDir.id)|
      && Children(t, dayDir.id)[i] == build
      && forall j :: 0 <= j < i ==> Children(t, dayDir.id)[j].FileName() != build.FileName()
    ensures SnapshotFiles(t, build.id) == [FetchYesterdays(t).value.file]
    ensures FetchYesterdays(t).value.vdir
         == DataDir + "/" + Calendar.FormatYearMonth(Calendar.Pred(today)) + "/"
            + Calendar.FormatDay(Calendar.Pred(today)) + "/" + build.FileName()
  {
    var data := RootDir(t).value;
    yearMonth, day := LatestDay(t).value.0, LatestDay(t).value.1;
    today := Calendar.ParseDate(yearMonth.FileName(), day.FileName()).value;
    var yesterday := Calendar.Pred(today);
    assert Yesterday(t) == Ok(yesterday);
    dayDir := DayDirOf(t, data, yesterday).value;
    var b := LatestBuild(t, dayDir.id);
    assert b.Ok?;
    build := LatestChild(t, dayDir.id).value;
    assert FetchYesterdays(t).value == Snapshot(b.value.file, DataDir + "/" + Calendar.FormatYearMonth(yesterday)
      + "/" + Calendar.FormatDay(yesterday) + "/" + b.value.vdir);
    assert SnapshotFiles(t, build.id) == [b.value.file];
    var ib := LatestChildIsFirst(t, dayDir.id);
  }

  /** No year-month directory carrying yesterday's name is an error, not a fallback. */
  lemma YesterdayMonthMissing(t: Tree, yesterday: Calendar.Date)
    requires Yesterday(t) == Ok(yesterday)
    requires var c := Children(t, RootDir(t).value);
      forall i :: 0 <= i < |c| ==> c[i].FileName() != Calendar.FormatYearMonth(yesterday)
    ensures FetchYesterdays(t) == Err(NoElements)
  {
    var data := RootDir(t).value;
    assert Where(Children(t, data), FileNameIs(Calendar.FormatYearMonth(yesterday))) == [] by {
      WhereNone(Children(t, data), FileNameIs(Calendar.FormatYearMonth(yesterday)));
    }
    assert SnapshotOfDay(t, data, yesterday) == Err(NoElements);
    assert FetchYesterdays(t) == SnapshotOfDay(t, data, yesterday);
  }

  /** No day directory carrying yesterday's day is an error too. */
  lemma YesterdayDayMissing(t: Tree, yesterday: Calendar.Date, yearMonthDir: Entry)
    requires Yesterday(t) == Ok(yesterday)
    requires Where(Children(t, RootDir(t).value), FileNameIs(Calendar.FormatYearMonth(yesterday))) == [yearMonthDir]
    requires var c := Children(t, yearMonthDir.id);
      forall i :: 0 <= i < |c| ==> c[i].FileName() != Calendar.FormatDay(yesterday)
    ensures FetchYesterdays(t) == Err(NoElements)
  {
    var data := RootDir(t).value;
    assert DayDirOf(t, data, yesterday) == Err(NoElements) by {
      WhereNone(Children(t, yearMonthDir.id), FileNameIs(Calendar.FormatDay(yesterday)));
      DayDirMissing(t, data, yesterday, yearMonthDir);
    }
  }

  /** The day lookup of DayDirOf() finding nothing under the one year-month directory. */
  lemma DayDirMissing(t: Tree, data: Id, yesterday: Calendar.Date, yearMonthDir: Entry)
    requires Calendar.Valid(yesterday)
    requires Where(Children(t, data), FileNameIs(Calendar.FormatYearMonth(yesterday))) == [yearMonthDir]
    requires Where(Children(t, yearMonthDir.id), FileNameIs(Calendar.FormatDay(yesterday))) == []
    ensures DayDirOf(t, data, yesterday) == Err(NoElements)
  {
  }
}
