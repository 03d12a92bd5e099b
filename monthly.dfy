/** The monthly extractor (`load_compressed_monthly_data`) and the collector
    that runs it over several archives, newest first, so that a member already
    listed by a newer archive is not read again from an older one
    (`get_raw_appointments_gp_daily_df`). */
module MonthlyLoading {
  import opened Wrappers
  import opened PyStr
  import opened Frames
  import opened Archives
  import opened Periods

  /** The column every extracted row is tagged with. */
  const DateColumn := "date"

  /** The member filter of the extractor. An empty prefix or suffix matches
      every name; the skip list is matched by exact name. */
  predicate Selected(name: string, prefix: string, suffix: string, skip: seq<string>)
  {
    StartsWith(name, prefix) && EndsWith(name, suffix) && name !in skip
  }

  /** A member's period token: `name.split(".")[0][-6:]`, cut at the first dot. */
  function PeriodToken(name: string): string
  {
    var head := SplitHead(name, '.');
    Slice(head, -6, |head|)
  }

  /** The names that pass the filter, in listing order. */
  function SelectedNames(names: seq<string>, prefix: string, suffix: string, skip: seq<string>): seq<string>
  {
    if names == [] then []
    else
      var n := names[|names| - 1];
      SelectedNames(names[..|names| - 1], prefix, suffix, skip) + if Selected(n, prefix, suffix, skip) then [n] else []
  }

  /** `df["date"] = date` for a converted period: the timestamp on every row,
      or a missing value on every row when the period reads as `NaT`. */
  function Tagged(t: Table, date: Converted): Table
    requires !date.Unparsable?
  {
    if date.Parsed? then SetColumn(t, DateColumn, date.date) else ClearColumn(t, DateColumn)
  }

  /** The table extracted from one selected member: its rows, each with the
      `date` column set to the member's converted period. */
  function TaggedMember(a: Archive, n: string): Table
    requires !ToDatetime(PeriodToken(n)).Unparsable?
  {
    Tagged(Open(a, n), ToDatetime(PeriodToken(n)))
  }

  /** The tables the extractor's loop collects after reading `names` in order:
      one tagged table per selected member, or the failure of the first selected
      member whose period token pandas rejects. */
  function TaggedTables(a: Archive, names: seq<string>, prefix: string, suffix: string, skip: seq<string>): Result<seq<Table>, Error>
  {
    if names == [] then Ok([])
    else
      var n := names[|names| - 1];
      var init := TaggedTables(a, names[..|names| - 1], prefix, suffix, skip);
      if init.Err? || !Selected(n, prefix, suffix, skip) then init
      else if ToDatetime(PeriodToken(n)).Unparsable? then Err(PeriodParseError(n))
      else Ok(init.value + [TaggedMember(a, n)])
  }

  /** What `load_compressed_monthly_data(path, prefix, suffix, skip)` returns:
      the tagged tables concatenated, and the archive's whole name list. */
  function MonthlyExtract(fs: FileSystem, path: string, prefix: string, suffix: string, skip: seq<string>): Result<(Table, seq<string>), Error>
  {
    if path !in fs then Err(ArchiveNotFound(path))
    else
      var names := Namelist(fs[path]);
      match TaggedTables(fs[path], names, prefix, suffix, skip)
      case Err(e) => Err(e)
      case Ok(ts) => if ts == [] then Err(NoMatchingMembers(path)) else Ok((Concat(ts), names))
  }

  /** A failure while reading a prefix of the listing is the failure of the
      whole extraction: the loop stops at the first bad member. */
  lemma {:induction false} TaggedTablesErrorPersists(a: Archive, names: seq<string>, i: nat, prefix: string, suffix: string, skip: seq<string>)
    requires i <= |names|
    requires TaggedTables(a, names[..i], prefix, suffix, skip).Err?
    ensures TaggedTables(a, names, prefix, suffix, skip) == TaggedTables(a, names[..i], prefix, suffix, skip)
    decreases |names| - i
  {
    if i < |names| {
      assert names[..i + 1][..i] == names[..i];
      TaggedTablesErrorPersists(a, names, i + 1, prefix, suffix, skip);
    } else {
      assert names[..i] == names;
    }
  }

  /** One more name read by the extractor's loop. */
  lemma TaggedTablesLast(a: Archive, names: seq<string>, i: nat, prefix: string, suffix: string, skip: seq<string>)
    requires i < |names|
    ensures var init := TaggedTables(a, names[..i], prefix, suffix, skip);
      TaggedTables(a, names[..i + 1], prefix, suffix, skip) ==
        if init.Err? || !Selected(names[i], prefix, suffix, skip) then init
        else if ToDatetime(PeriodToken(names[i])).Unparsable? then Err(PeriodParseError(names[i]))
        else Ok(init.value + [TaggedMember(a, names[i])])
  {
    assert names[..i + 1][..i] == names[..i];
  }

  method LoadCompressedMonthlyData(fs: FileSystem, filePath: string, prefix: string, suffix: string, skipFilesNames: seq<string>)
    returns (r: Result<(Table, seq<string>), Error>)
    ensures r == MonthlyExtract(fs, filePath, prefix, suffix, skipFilesNames)
  {
    if filePath !in fs {
      return Err(ArchiveNotFound(filePath));
    }
    var z := fs[filePath];
    var fileNameList := Namelist(z);
    var dfList: seq<Table> := [];
    for i := 0 to |fileNameList|
      invariant TaggedTables(z, fileNameList[..i], prefix, suffix, skipFilesNames) == Ok(dfList)
    {
      var fileName := fileNameList[i];
      TaggedTablesLast(z, fileNameList, i, prefix, suffix, skipFilesNames);
      if StartsWith(fileName, prefix) && EndsWith(fileName, suffix) && fileName !in skipFilesNames {
        var fileDf := Open(z, fileName);
        var monthYearStr := PeriodToken(fileName);
        var date := ToDatetime(monthYearStr);
        if date.Unparsable? {
          TaggedTablesErrorPersists(z, fileNameList, i + 1, prefix, suffix, skipFilesNames);
          return Err(PeriodParseError(fileName));
        }
        fileDf := Tagged(fileDf, date);
        dfList := dfList + [fileDf];
      }
    }
    assert fileNameList[..|fileNameList|] == fileNameList;
    if dfList == [] {
      return Err(NoMatchingMembers(filePath));
    }
    var result := Concat(dfList);
    return Ok((result, fileNameList));
  }

  /** A name is extracted exactly when it is listed and passes the filter;
      with an empty prefix and suffix only the skip list excludes anything. */
  lemma {:induction false} SelectedNamesIff(names: seq<string>, prefix: string, suffix: string, skip: seq<string>, n: string)
    ensures n in SelectedNames(names, prefix, suffix, skip) <==> n in names && Selected(n, prefix, suffix, skip)
    ensures prefix == [] && suffix == [] ==> (Selected(n, prefix, suffix, skip) <==> n !in skip)
  {
    if names != [] {
      var init := names[..|names| - 1];
      SelectedNamesIff(init, prefix, suffix, skip, n);
      assert names == init + [names[|names| - 1]];
    }
  }

  /** No period token of `sel` is rejected: each is a month or reads as `NaT`. */
  predicate AllPeriodsConvert(sel: seq<string>)
  {
    forall j :: 0 <= j < |sel| ==> !ToDatetime(PeriodToken(sel[j])).Unparsable?
  }

  /** The loop succeeds exactly when no selected member's period is rejected,
      and then it has collected one tagged table per selected member, in
      listing order. When it fails, it names the first selected member whose
      period is rejected. */
  lemma {:induction false} TaggedTablesSpec(a: Archive, names: seq<string>, prefix: string, suffix: string, skip: seq<string>)
    ensures var sel := SelectedNames(names, prefix, suffix, skip);
      TaggedTables(a, names, prefix, suffix, skip).Ok? <==> AllPeriodsConvert(sel)
    ensures var sel := SelectedNames(names, prefix, suffix, skip);
      TaggedTables(a, names, prefix, suffix, skip).Ok? ==>
        var ts := TaggedTables(a, names, prefix, suffix, skip).value;
        |ts| == |sel| && forall j :: 0 <= j < |sel| ==> ts[j] == TaggedMember(a, sel[j])
    ensures var sel := SelectedNames(names, prefix, suffix, skip);
      TaggedTables(a, names, prefix, suffix, skip).Err? ==>
        exists j :: 0 <= j < |sel| && AllPeriodsConvert(sel[..j]) && ToDatetime(PeriodToken(sel[j])).Unparsable? &&
          TaggedTables(a, names, prefix, suffix, skip).error == PeriodParseError(sel[j])
  {
    if names != [] {
      var init := names[..|names| - 1];
      var n := names[|names| - 1];
      TaggedTablesSpec(a, init, prefix, suffix, skip);
      var sel0 := SelectedNames(init, prefix, suffix, skip);
      var sel := SelectedNames(names, prefix, suffix, skip);
      if Selected(n, prefix, suffix, skip) {
        assert sel == sel0 + [n];
        assert sel[..|sel0|] == sel0;
        if TaggedTables(a, init, prefix, suffix, skip).Err? {
          var j :| 0 <= j < |sel0| && AllPeriodsConvert(sel0[..j]) && ToDatetime(PeriodToken(sel0[j])).Unparsable? &&
            TaggedTables(a, init, prefix, suffix, skip).error == PeriodParseError(sel0[j]);
          assert sel[..j] == sel0[..j];
        } else if ToDatetime(PeriodToken(n)).Unparsable? {
          var j := |sel0|;
          assert AllPeriodsConvert(sel[..j]) && sel[j] == n;
        }
      } else {
        assert sel == sel0;
      }
    }
  }

  /** What one extraction promises: it fails on a missing archive; otherwise it
      returns the archive's complete name list whatever the filter, and a table
      made of one tagged table per selected member in listing order, with as
      many rows as those members hold together. */
  lemma MonthlyExtractOk(fs: FileSystem, path: string, prefix: string, suffix: string, skip: seq<string>)
    ensures MonthlyExtract(fs, path, prefix, suffix, skip) == Err(ArchiveNotFound(path)) <==> path !in fs
    ensures MonthlyExtract(fs, path, prefix, suffix, skip).Ok? ==>
      var a := fs[path];
      var sel := SelectedNames(Namelist(a), prefix, suffix, skip);
      var (t, names) := MonthlyExtract(fs, path, prefix, suffix, skip).value;
      && names == Namelist(a)
      && sel != [] && AllPeriodsConvert(sel)
      && t == Concat(seq(|sel|, j requires 0 <= j < |sel| => TaggedMember(a, sel[j])))
      && |t| == TotalRows(seq(|sel|, j requires 0 <= j < |sel| => Open(a, sel[j])))
  {
    if path in fs {
      var a := fs[path];
      var names := Namelist(a);
      TaggedTablesErrorKind(a, names, prefix, suffix, skip);
      if TaggedTables(a, names, prefix, suffix, skip).Ok? {
        var sel := SelectedNames(names, prefix, suffix, skip);
        var ts := TaggedTables(a, names, prefix, suffix, skip).value;
        TaggedTablesSpec(a, names, prefix, suffix, skip);
        var tagged := seq(|sel|, j requires 0 <= j < |sel| => TaggedMember(a, sel[j]));
        assert ts == tagged;
        ConcatLength(ts);
        TotalRowsSameSizes(ts, seq(|sel|, j requires 0 <= j < |sel| => Open(a, sel[j])));
      }
    }
  }

  /** The loop only ever fails on a period that `to_datetime` rejects. */
  lemma {:induction false} TaggedTablesErrorKind(a: Archive, names: seq<string>, prefix: string, suffix: string, skip: seq<string>)
    ensures TaggedTables(a, names, prefix, suffix, skip).Err? ==>
      TaggedTables(a, names, prefix, suffix, skip).error.PeriodParseError?
  {
    if names != [] {
      TaggedTablesErrorKind(a, names[..|names| - 1], prefix, suffix, skip);
    }
  }

  lemma {:induction false} TotalRowsSameSizes(xs: seq<Table>, ys: seq<Table>)
    requires |xs| == |ys|
    requires forall j :: 0 <= j < |xs| ==> |xs[j]| == |ys[j]|
    ensures TotalRows(xs) == TotalRows(ys)
  {
    if xs != [] {
      TotalRowsSameSizes(xs[..|xs| - 1], ys[..|ys| - 1]);
    }
  }

  /** An archive with no selected member makes the extraction fail instead of
      returning an empty table, and that is the only way it reports no match. */
  lemma MonthlyExtractNoMatch(fs: FileSystem, path: string, prefix: string, suffix: string, skip: seq<string>)
    ensures MonthlyExtract(fs, path, prefix, suffix, skip) == Err(NoMatchingMembers(path)) <==>
      path in fs && SelectedNames(Namelist(fs[path]), prefix, suffix, skip) == []
  {
    if path in fs {
      TaggedTablesErrorKind(fs[path], Namelist(fs[path]), prefix, suffix, skip);
      TaggedTablesSpec(fs[path], Namelist(fs[path]), prefix, suffix, skip);
    }
  }

  /** Every row extracted from one member carries that member's period in
      `date` (or, when the period reads as `NaT`, a missing `date`), whatever
      columns the member's table had, and keeps every other column's value. */
  lemma MemberRowsShareTag(a: Archive, n: string)
    requires !ToDatetime(PeriodToken(n)).Unparsable?
    ensures |TaggedMember(a, n)| == |Open(a, n)|
    ensures ToDatetime(PeriodToken(n)).Parsed? ==> forall i :: 0 <= i < |Open(a, n)| ==>
      TaggedMember(a, n)[i][DateColumn] == ParseMonthYear(PeriodToken(n)).value &&
      TaggedMember(a, n)[i].Keys == Open(a, n)[i].Keys + {DateColumn}
    ensures ToDatetime(PeriodToken(n)).NotATime? ==> forall i :: 0 <= i < |Open(a, n)| ==>
      TaggedMember(a, n)[i].Keys == Open(a, n)[i].Keys - {DateColumn}
    ensures forall i, c :: 0 <= i < |Open(a, n)| && c in Open(a, n)[i] && c != DateColumn ==>
      TaggedMember(a, n)[i][c] == Open(a, n)[i][c]
  {
    ToDatetimeCases(PeriodToken(n));
  }

  /** A member whose period token reads as `NaT` is extracted, not rejected:
      an archive holding only `nan.csv` yields that member's rows with a
      missing `date`. */
  lemma NotATimeMemberExtracted(t: Table)
    ensures MonthlyExtract(map["a.zip" := [Member("nan.csv", t)]], "a.zip", "", ".csv", []) ==
      Ok((ClearColumn(t, DateColumn), ["nan.csv"]))
  {
    var a := [Member("nan.csv", t)];
    var n := "nan.csv";
    assert Namelist(a) == [n];
    assert n[..3] == "nan" && n[3] == '.';
    SplitHeadAt(n, '.', 3);
    SliceLast("nan", 6);
    assert PeriodToken(n) == "nan";
    assert ToDatetime("nan") == NotATime;
    assert n[|n| - 4..] == ".csv";
    assert Selected(n, "", ".csv", []);
    assert Open(a, n) == t;
    assert ToDatetime(PeriodToken(n)) == NotATime;
    assert TaggedMember(a, n) == ClearColumn(t, DateColumn);
    assert [n][..0] == [] && [n][..1] == [n];
    TaggedTablesLast(a, [n], 0, "", ".csv", []);
    assert TaggedTables(a, [], "", ".csv", []) == Ok([]);
    assert [n][0] == n;
    assert Selected([n][0], "", ".csv", []);
    assert TaggedTables(a, [n][..1], "", ".csv", []) == Ok([] + [TaggedMember(a, n)]);
    assert [] + [TaggedMember(a, n)] == [ClearColumn(t, DateColumn)];
    assert TaggedTables(a, [n], "", ".csv", []) == Ok([ClearColumn(t, DateColumn)]);
    assert Concat([ClearColumn(t, DateColumn)]) == ClearColumn(t, DateColumn);
  }

  /** The period token is cut at the first dot: an archive member named
      prefix + period + `.csv` is tagged by its period, so is a member with
      further dotted parts after the period, and a name with a dot early on is
      tagged by the text before that dot. */
  lemma PeriodTokenExamples(month: string, rest: string)
    requires |month| == 6 && '.' !in month
    ensures PeriodToken(MonthlyPrefix + month + MonthlySuffix) == month
    ensures PeriodToken(month + "." + rest) == month
    ensures PeriodToken("v1." + rest) == "v1"
  {
    var n1 := MonthlyPrefix + month + MonthlySuffix;
    var i1 := |MonthlyPrefix| + 6;
    assert n1[..i1] == MonthlyPrefix + month;
    assert n1[i1] == '.';
    forall j | 0 <= j < i1 ensures n1[j] != '.' {
      assert n1[j] == n1[..i1][j];
    }
    SplitHeadAt(n1, '.', i1);
    SliceLast(n1[..i1], 6);
    assert n1[..i1][i1 - 6..] == month;
    var n2 := month + "." + rest;
    assert n2[..6] == month;
    SplitHeadAt(n2, '.', 6);
    SliceLast(month, 6);
    var n3 := "v1." + rest;
    assert n3[..2] == "v1";
    SplitHeadAt(n3, '.', 2);
    SliceLast("v1", 6);
  }

  // The collector.

  const MonthlyPrefix := "SUB_ICB_LOCATION_CSV_"
  const MonthlySuffix := ".csv"

  /** The archives the collector reads, newest first. */
  const MonthYearList: seq<string> := ["Mar_23", "Sep_22"]

  function MonthlyArchivePath(monthYear: string): string
  {
    "data/raw/Appointments_GP_Daily_CSV_" + monthYear + ".zip"
  }

  /** The collector's loop state: the tables gathered so far and the skip list
      for the next archive. */
  datatype Collected = Collected(tables: seq<Table>, skip: seq<string>)

  /** The collector's state after the archives of `months`, in order. */
  function CollectSteps(fs: FileSystem, months: seq<string>, prefix: string, suffix: string): Result<Collected, Error>
  {
    if months == [] then Ok(Collected([], []))
    else
      match CollectSteps(fs, months[..|months| - 1], prefix, suffix)
      case Err(e) => Err(e)
      case Ok(c) =>
        match MonthlyExtract(fs, MonthlyArchivePath(months[|months| - 1]), prefix, suffix, c.skip)
        case Err(e) => Err(e)
        case Ok((t, names)) => Ok(Collected(c.tables + [t], names))
  }

  /** What the collector returns for the archives of `months`. */
  function CollectMonthly(fs: FileSystem, months: seq<string>, prefix: string, suffix: string): Result<Table, Error>
  {
    match CollectSteps(fs, months, prefix, suffix)
    case Err(e) => Err(e)
    case Ok(c) => if c.tables == [] then Err(NothingToConcatenate) else Ok(Concat(c.tables))
  }

  method GetRawAppointmentsGpDailyDf(fs: FileSystem) returns (r: Result<Table, Error>)
    ensures r == CollectMonthly(fs, MonthYearList, MonthlyPrefix, MonthlySuffix)
  {
    var monthYearList := MonthYearList;
    var skipFilesNames: seq<string> := [];
    var compressedMonthlyDataList: seq<Table> := [];
    for i := 0 to |monthYearList|
      invariant CollectSteps(fs, monthYearList[..i], MonthlyPrefix, MonthlySuffix) ==
        Ok(Collected(compressedMonthlyDataList, skipFilesNames))
    {
      var filePath := MonthlyArchivePath(monthYearList[i]);
      assert monthYearList[..i + 1][..i] == monthYearList[..i];
      var loaded := LoadCompressedMonthlyData(fs, filePath, MonthlyPrefix, MonthlySuffix, skipFilesNames);
      if loaded.Err? {
        CollectErrorPersists(fs, monthYearList, i + 1, MonthlyPrefix, MonthlySuffix);
        return Err(loaded.error);
      }
      var compressedMonthlyDataDf;
      compressedMonthlyDataDf, skipFilesNames := loaded.value.0, loaded.value.1;
      compressedMonthlyDataList := compressedMonthlyDataList + [compressedMonthlyDataDf];
    }
    assert monthYearList[..|monthYearList|] == monthYearList;
    if compressedMonthlyDataList == [] {
      return Err(NothingToConcatenate);
    }
    return Ok(Concat(compressedMonthlyDataList));
  }

  lemma {:induction false} CollectErrorPersists(fs: FileSystem, months: seq<string>, i: nat, prefix: string, suffix: string)
    requires i <= |months|
    requires CollectSteps(fs, months[..i], prefix, suffix).Err?
    ensures CollectSteps(fs, months, prefix, suffix) == CollectSteps(fs, months[..i], prefix, suffix)
    decreases |months| - i
  {
    if i < |months| {
      assert months[..i + 1][..i] == months[..i];
      CollectErrorPersists(fs, months, i + 1, prefix, suffix);
    } else {
      assert months[..i] == months;
    }
  }

  /** The skip list archive `k` is read with: nothing for the first archive,
      and for every later one the complete name list of the archive read just
      before it (consulted only once that archive has been read). */
  function SkipBefore(fs: FileSystem, months: seq<string>, k: nat): seq<string>
    requires k <= |months|
  {
    if k == 0 || MonthlyArchivePath(months[k - 1]) !in fs then []
    else Namelist(fs[MonthlyArchivePath(months[k - 1])])
  }

  /** A successful extraction reads an existing archive and hands back its
      whole name list. */
  lemma MonthlyExtractNames(fs: FileSystem, path: string, prefix: string, suffix: string, skip: seq<string>)
    requires MonthlyExtract(fs, path, prefix, suffix, skip).Ok?
    ensures path in fs && MonthlyExtract(fs, path, prefix, suffix, skip).value.1 == Namelist(fs[path])
  {
  }

  /** One step of the collector: the state after the last archive extends the
      state before it by that archive's extraction. */
  lemma CollectStepsLast(fs: FileSystem, months: seq<string>, prefix: string, suffix: string)
    requires months != [] && CollectSteps(fs, months, prefix, suffix).Ok?
    ensures var init := months[..|months| - 1];
      var path := MonthlyArchivePath(months[|months| - 1]);
      && CollectSteps(fs, init, prefix, suffix).Ok?
      && var c0 := CollectSteps(fs, init, prefix, suffix).value;
      && var c := CollectSteps(fs, months, prefix, suffix).value;
      && MonthlyExtract(fs, path, prefix, suffix, c0.skip).Ok?
      && c.tables == c0.tables + [MonthlyExtract(fs, path, prefix, suffix, c0.skip).value.0]
      && c.skip == MonthlyExtract(fs, path, prefix, suffix, c0.skip).value.1
  {
  }

  /** The collector's state has one table per archive read, and its skip list
      is the name list of the last archive read. */
  lemma {:induction false} CollectStepsShape(fs: FileSystem, months: seq<string>, prefix: string, suffix: string)
    requires CollectSteps(fs, months, prefix, suffix).Ok?
    ensures var c := CollectSteps(fs, months, prefix, suffix).value;
      && |c.tables| == |months|
      && c.skip == SkipBefore(fs, months, |months|)
  {
    if months != [] {
      var n := |months| - 1;
      var init := months[..n];
      CollectStepsLast(fs, months, prefix, suffix);
      CollectStepsShape(fs, init, prefix, suffix);
      var c0 := CollectSteps(fs, init, prefix, suffix).value;
      MonthlyExtractNames(fs, MonthlyArchivePath(months[n]), prefix, suffix, c0.skip);
    }
  }

  /** The k-th table the collector holds is the extraction of the k-th
      archive, read with the name list of the archive before it as skip list. */
  lemma {:induction false} CollectStepAt(fs: FileSystem, months: seq<string>, prefix: string, suffix: string, k: nat)
    requires CollectSteps(fs, months, prefix, suffix).Ok?
    requires k < |months|
    ensures var c := CollectSteps(fs, months, prefix, suffix).value;
      var e := MonthlyExtract(fs, MonthlyArchivePath(months[k]), prefix, suffix, SkipBefore(fs, months, k));
      k < |c.tables| && e.Ok? && e.value.0 == c.tables[k]
  {
    var n := |months| - 1;
    var init := months[..n];
    CollectStepsLast(fs, months, prefix, suffix);
    CollectStepsShape(fs, init, prefix, suffix);
    var c0 := CollectSteps(fs, init, prefix, suffix).value;
    if k < n {
      CollectStepAt(fs, init, prefix, suffix, k);
      assert months[k] == init[k];
      assert SkipBefore(fs, months, k) == SkipBefore(fs, init, k);
    } else {
      assert SkipBefore(fs, months, n) == c0.skip;
    }
  }

  /** The collector's output: the per-archive extractions, each with the
      previous archive's name list as skip list, concatenated newest first. */
  lemma CollectMonthlyOk(fs: FileSystem, months: seq<string>, prefix: string, suffix: string)
    requires CollectMonthly(fs, months, prefix, suffix).Ok?
    ensures months != []
    ensures forall k :: 0 <= k < |months| ==>
      MonthlyExtract(fs, MonthlyArchivePath(months[k]), prefix, suffix, SkipBefore(fs, months, k)).Ok?
    ensures CollectMonthly(fs, months, prefix, suffix).value ==
      Concat(seq(|months|, k requires 0 <= k < |months| =>
        MonthlyExtract(fs, MonthlyArchivePath(months[k]), prefix, suffix, SkipBefore(fs, months, k)).value.0))
  {
    CollectStepsShape(fs, months, prefix, suffix);
    var c := CollectSteps(fs, months, prefix, suffix).value;
    forall k | 0 <= k < |months|
      ensures MonthlyExtract(fs, MonthlyArchivePath(months[k]), prefix, suffix, SkipBefore(fs, months, k)).Ok?
      ensures MonthlyExtract(fs, MonthlyArchivePath(months[k]), prefix, suffix, SkipBefore(fs, months, k)).value.0 == c.tables[k]
    {
      CollectStepAt(fs, months, prefix, suffix, k);
    }
    assert c.tables == seq(|months|, k requires 0 <= k < |months| =>
        MonthlyExtract(fs, MonthlyArchivePath(months[k]), prefix, suffix, SkipBefore(fs, months, k)).value.0);
  }

  /** Overlap resolution: a name listed by archive k-1 is never extracted from
      archive k, even when archive k has a member of that exact name. */
  lemma NotExtractedAgain(fs: FileSystem, months: seq<string>, prefix: string, suffix: string, k: nat, n: string)
    requires 0 < k < |months|
    requires MonthlyArchivePath(months[k - 1]) in fs && MonthlyArchivePath(months[k]) in fs
    requires n in Namelist(fs[MonthlyArchivePath(months[k - 1])])
    ensures n !in SelectedNames(Namelist(fs[MonthlyArchivePath(months[k])]), prefix, suffix, SkipBefore(fs, months, k))
  {
    SelectedNamesIff(Namelist(fs[MonthlyArchivePath(months[k])]), prefix, suffix, SkipBefore(fs, months, k), n);
  }

  /** The skip list is replaced, not accumulated: a name that archive k-2
      listed but archive k-1 did not is extracted again from archive k. */
  lemma SkipListIsReplaced(fs: FileSystem, months: seq<string>, prefix: string, suffix: string, k: nat, n: string)
    requires 2 <= k < |months|
    requires MonthlyArchivePath(months[k - 1]) in fs && MonthlyArchivePath(months[k]) in fs
    requires n !in Namelist(fs[MonthlyArchivePath(months[k - 1])])
    requires n in Namelist(fs[MonthlyArchivePath(months[k])])
    requires StartsWith(n, prefix) && EndsWith(n, suffix)
    ensures n in SelectedNames(Namelist(fs[MonthlyArchivePath(months[k])]), prefix, suffix, SkipBefore(fs, months, k))
  {
    SelectedNamesIff(Namelist(fs[MonthlyArchivePath(months[k])]), prefix, suffix, SkipBefore(fs, months, k), n);
  }
}
