/** The QOF loaders. `load_compressed_qof_data` reads one yearly archive into a
    dictionary of tables keyed by the part of each member's name before the
    year-range token; `get_qof_datasets` reads one archive per range into a
    dictionary keyed by range, after reversing the range list in place. */
module QofLoading {
  import opened Wrappers
  import opened PyStr
  import opened PyDict
  import opened Frames
  import opened Archives

  /** The column every QOF row is tagged with. */
  const DateRangeColumn := "DATE_RANGE"

  /** The default member suffix of the QOF extractor. */
  const QofSuffix := ".csv"

  /** The ranges the collector reads when called without an argument. */
  const DefaultQofRanges: seq<string> := ["1920", "2021", "2122"]

  /** The archive of one range. */
  function QofPath(range: string): string
  {
    "data/raw/QOF_" + range + ".zip"
  }

  /** The range token of an archive path: `file_path[-8:-4]`. */
  function RangeToken(path: string): string
  {
    Slice(path, -8, -4)
  }

  /** The dictionary key of a member: the name up to the first occurrence of
      the range token, less the separator before it, and the empty string when
      the token does not occur (`file_name[:index][:-1]`, or `""[:-1]`). */
  function QofKey(name: string, token: string): string
  {
    var index := Find(name, token);
    var dfKey := if index != -1 then Slice(name, 0, index) else "";
    Slice(dfKey, 0, -1)
  }

  /** A member's table with every row tagged with the range token. */
  function QofTagged(a: Archive, name: string, token: string): Table
  {
    SetColumn(Open(a, name), DateRangeColumn, Cell(token))
  }

  /** The extractor's dictionary after reading `names` in order: one entry per
      distinct key of a member ending in `suffix`; a later member with the same
      key overwrites the earlier one's table in place. */
  function QofTables(a: Archive, names: seq<string>, token: string, suffix: string): Dict<Table>
  {
    if names == [] then []
    else
      var d := QofTables(a, names[..|names| - 1], token, suffix);
      var n := names[|names| - 1];
      if EndsWith(n, suffix) then Put(d, QofKey(n, token), QofTagged(a, n, token)) else d
  }

  /** What `load_compressed_qof_data(path, suffix)` returns. */
  function QofExtract(fs: FileSystem, path: string, suffix: string): Result<Dict<Table>, Error>
  {
    if path !in fs then Err(ArchiveNotFound(path))
    else Ok(QofTables(fs[path], Namelist(fs[path]), RangeToken(path), suffix))
  }

  method LoadCompressedQofData(fs: FileSystem, filePath: string, suffix: string) returns (r: Result<Dict<Table>, Error>)
    ensures r == QofExtract(fs, filePath, suffix)
  {
    var dfDict: Dict<Table> := [];
    var qofRangeStr := RangeToken(filePath);
    if filePath !in fs {
      return Err(ArchiveNotFound(filePath));
    }
    var z := fs[filePath];
    var fileNameList := Namelist(z);
    for i := 0 to |fileNameList|
      invariant dfDict == QofTables(z, fileNameList[..i], qofRangeStr, suffix)
    {
      var fileName := fileNameList[i];
      assert fileNameList[..i + 1][..i] == fileNameList[..i];
      if EndsWith(fileName, suffix) {
        var fileDf := Open(z, fileName);
        fileDf := SetColumn(fileDf, DateRangeColumn, Cell(qofRangeStr));
        dfDict := Put(dfDict, QofKey(fileName, qofRangeStr), fileDf);
      }
    }
    assert fileNameList[..|fileNameList|] == fileNameList;
    return Ok(dfDict);
  }

  /** The range token of a range's archive is the range itself, for the
      four-digit ranges the collector uses. */
  lemma QofPathToken(range: string)
    requires |range| == 4
    ensures RangeToken(QofPath(range)) == range
  {
    var p := QofPath(range);
    assert |p| == 21;
    assert p[13..17] == range;
  }

  /** The key is the name before the first occurrence of the token, less one
      character; it is empty when the token is missing or starts the name. */
  lemma QofKeyCases(name: string, token: string)
    ensures var i := Find(name, token);
      QofKey(name, token) == if i >= 1 then name[..i - 1] else ""
  {
    var i := Find(name, token);
    if i >= 1 {
      SlicePrefix(name, i);
      SliceDropLast(name[..i]);
      assert name[..i][..i - 1] == name[..i - 1];
    }
  }

  /** A name built as key, separator, token and the rest gives back the key,
      whatever the separator is, provided the token does not occur earlier in
      the name. */
  lemma QofKeyOfMember(key: string, sep: char, token: string, rest: string)
    requires token != []
    requires forall j :: 0 <= j <= |key| ==> !OccursAt(key + [sep] + token + rest, token, j)
    ensures QofKey(key + [sep] + token + rest, token) == key
  {
    var name := key + [sep] + token + rest;
    var i := |key| + 1;
    assert name[i..i + |token|] == token;
    assert OccursAt(name, token, i);
    assert Find(name, token) == i;
    QofKeyCases(name, token);
    assert name[..i - 1] == key;
  }

  /** The token cannot occur before its place when its first character
      appears in neither the key nor the separator. */
  lemma NoEarlierToken(key: string, sep: char, token: string, rest: string)
    requires token != [] && token[0] !in key && token[0] != sep
    ensures forall j :: 0 <= j <= |key| ==> !OccursAt(key + [sep] + token + rest, token, j)
  {
    var name := key + [sep] + token + rest;
    forall j | 0 <= j <= |key| ensures !OccursAt(name, token, j) {
      if j < |key| {
        assert name[j] == key[j];
      }
      assert name[j] != token[0];
      if j + |token| <= |name| {
        assert name[j..j + |token|][0] == name[j];
      }
    }
  }

  /** The degenerate keys: a name without the token, or one that starts with
      it, is stored under the empty key; so is every name when the archive path
      is too short to hold a token. */
  lemma QofKeyDegenerate(name: string, token: string)
    ensures Find(name, token) <= 0 ==> QofKey(name, token) == ""
    ensures QofKey(name, "") == ""
  {
    QofKeyCases(name, token);
    QofKeyCases(name, "");
  }

  /** The shape of the archive's table names: upper-case letters and `_`. */
  predicate IsTableName(key: string)
  {
    forall j :: 0 <= j < |key| ==> 'A' <= key[j] <= 'Z' || key[j] == '_'
  }

  /** Whatever the range, a member named after its table is keyed by that
      table's name: `ACHIEVEMENT_2122.csv` by `ACHIEVEMENT`, and the two
      tables the prevalence reconciler reads by `PREVALENCE` and
      `MAPPING_NHS_GEOGRAPHIES`. */
  lemma TableNameKey(key: string, range: string)
    requires IsTableName(key) && range != [] && '0' <= range[0] <= '9'
    ensures QofKey(key + "_" + range + ".csv", range) == key
  {
    assert range[0] !in key by {
      forall j | 0 <= j < |key| ensures key[j] != range[0] {
      }
    }
    assert key + "_" + range + ".csv" == key + ['_'] + range + ".csv";
    NoEarlierToken(key, '_', range, ".csv");
    QofKeyOfMember(key, '_', range, ".csv");
  }

  /** A member with the suffix is a source of a key. */
  predicate KeySource(names: seq<string>, token: string, suffix: string, i: int, k: string)
  {
    0 <= i < |names| && EndsWith(names[i], suffix) && QofKey(names[i], token) == k
  }

  /** The keys of the extractor's dictionary are exactly the keys of the
      members ending in the suffix, each once. */
  lemma {:induction false} QofTablesKeys(a: Archive, names: seq<string>, token: string, suffix: string, k: string)
    ensures DistinctKeys(QofTables(a, names, token, suffix))
    ensures k in Keys(QofTables(a, names, token, suffix)) <==> exists i :: KeySource(names, token, suffix, i, k)
  {
    if names != [] {
      var init := names[..|names| - 1];
      var n := names[|names| - 1];
      QofTablesKeys(a, init, token, suffix, k);
      if exists i :: KeySource(init, token, suffix, i, k) {
        var i :| KeySource(init, token, suffix, i, k);
        assert KeySource(names, token, suffix, i, k);
      }
      if exists i :: KeySource(names, token, suffix, i, k) {
        var i :| KeySource(names, token, suffix, i, k);
        if i < |init| {
          assert KeySource(init, token, suffix, i, k);
        }
      }
      if EndsWith(n, suffix) && QofKey(n, token) == k {
        assert KeySource(names, token, suffix, |names| - 1, k);
      }
    }
  }

  /** Last write wins: a key's table is that of the last member with the
      suffix that has the key, tagged with the range token. */
  lemma {:induction false} QofTablesLastWins(a: Archive, names: seq<string>, token: string, suffix: string, i: nat)
    requires i < |names| && KeySource(names, token, suffix, i, QofKey(names[i], token))
    requires forall j :: i < j < |names| && EndsWith(names[j], suffix) ==> QofKey(names[j], token) != QofKey(names[i], token)
    ensures Get(QofTables(a, names, token, suffix), QofKey(names[i], token)) == Some(QofTagged(a, names[i], token))
  {
    var init := names[..|names| - 1];
    if i < |names| - 1 {
      QofTablesLastWins(a, init, token, suffix, i);
    }
  }

  predicate AllRowsHave(t: Table, col: string, v: Value)
  {
    forall i :: 0 <= i < |t| ==> col in t[i] && t[i][col] == v
  }

  /** Every table in the extractor's dictionary carries the range token in
      `DATE_RANGE` on every row. */
  lemma {:induction false} QofTablesTagged(a: Archive, names: seq<string>, token: string, suffix: string, k: string)
    requires k in Keys(QofTables(a, names, token, suffix))
    ensures AllRowsHave(Get(QofTables(a, names, token, suffix), k).value, DateRangeColumn, Cell(token))
  {
    var init := names[..|names| - 1];
    var n := names[|names| - 1];
    if !EndsWith(n, suffix) || QofKey(n, token) != k {
      QofTablesTagged(a, init, token, suffix, k);
    }
  }

  /** The extractor fails only on a missing archive. */
  lemma QofExtractFails(fs: FileSystem, path: string, suffix: string)
    ensures QofExtract(fs, path, suffix).Err? <==> path !in fs
    ensures QofExtract(fs, path, suffix).Err? ==> QofExtract(fs, path, suffix).error == ArchiveNotFound(path)
  {
  }

  /** `list.reverse()`: the list in the opposite order. */
  function Reversed<T>(s: seq<T>): (r: seq<T>)
    ensures |r| == |s|
  {
    seq(|s|, i requires 0 <= i < |s| => s[|s| - 1 - i])
  }

  /** Reversing twice restores the list: the default range list, which the
      collector reverses in place on every call, alternates between the two
      orders from one call to the next. */
  lemma ReversedTwice<T>(s: seq<T>)
    ensures Reversed(Reversed(s)) == s
  {
  }

  lemma DefaultRangesOrder()
    ensures Reversed(DefaultQofRanges) == ["2122", "2021", "1920"]
    ensures Reversed(Reversed(DefaultQofRanges)) == DefaultQofRanges
  {
    ReversedTwice(DefaultQofRanges);
  }

  /** The collector's dictionary after the archives of `ranges`, in order. */
  function QofDatasets(fs: FileSystem, ranges: seq<string>): Result<Dict<Dict<Table>>, Error>
  {
    if ranges == [] then Ok([])
    else
      match QofDatasets(fs, ranges[..|ranges| - 1])
      case Err(e) => Err(e)
      case Ok(d) =>
        var range := ranges[|ranges| - 1];
        match QofExtract(fs, QofPath(range), QofSuffix)
        case Err(e) => Err(e)
        case Ok(t) => Ok(Put(d, range, t))
  }

  lemma {:induction false} QofDatasetsErrorPersists(fs: FileSystem, ranges: seq<string>, i: nat)
    requires i <= |ranges|
    requires QofDatasets(fs, ranges[..i]).Err?
    ensures QofDatasets(fs, ranges) == QofDatasets(fs, ranges[..i])
    decreases |ranges| - i
  {
    if i < |ranges| {
      assert ranges[..i + 1][..i] == ranges[..i];
      QofDatasetsErrorPersists(fs, ranges, i + 1);
    } else {
      assert ranges[..i] == ranges;
    }
  }

  /** `get_qof_datasets(qof_range_list)`: reverses the list in place, then reads
      the archive of every range in the new order. The list is an array the
      caller owns, because the default list is one object shared by all calls. */
  method GetQofDatasets(fs: FileSystem, qofRangeList: array<string>) returns (r: Result<Dict<Dict<Table>>, Error>)
    modifies qofRangeList
    ensures qofRangeList[..] == Reversed(old(qofRangeList[..]))
    ensures r == QofDatasets(fs, qofRangeList[..])
  {
    var qofDatasets: Dict<Dict<Table>> := [];
    var original := qofRangeList[..];
    forall k | 0 <= k < qofRangeList.Length {
      qofRangeList[k] := original[|original| - 1 - k];
    }
    assert qofRangeList[..] == Reversed(original);
    for i := 0 to qofRangeList.Length
      invariant qofRangeList[..] == Reversed(original)
      invariant QofDatasets(fs, qofRangeList[..i]) == Ok(qofDatasets)
    {
      var qofRange := qofRangeList[i];
      assert qofRangeList[..i + 1][..i] == qofRangeList[..i];
      var filePath := QofPath(qofRange);
      var loaded := LoadCompressedQofData(fs, filePath, QofSuffix);
      if loaded.Err? {
        QofDatasetsErrorPersists(fs, qofRangeList[..], i + 1);
        return Err(loaded.error);
      }
      qofDatasets := Put(qofDatasets, qofRange, loaded.value);
    }
    assert qofRangeList[..qofRangeList.Length] == qofRangeList[..];
    return Ok(qofDatasets);
  }

  predicate AllArchivesPresent(fs: FileSystem, ranges: seq<string>)
  {
    forall j :: 0 <= j < |ranges| ==> QofPath(ranges[j]) in fs
  }

  /** One step of the collector: the last range's archive is read and stored
      under that range. */
  lemma QofDatasetsLast(fs: FileSystem, ranges: seq<string>)
    requires ranges != []
    ensures var init := ranges[..|ranges| - 1];
      var path := QofPath(ranges[|ranges| - 1]);
      QofDatasets(fs, ranges) ==
        if QofDatasets(fs, init).Err? then QofDatasets(fs, init)
        else if path !in fs then Err(ArchiveNotFound(path))
        else Ok(Put(QofDatasets(fs, init).value, ranges[|ranges| - 1], QofExtract(fs, path, QofSuffix).value))
  {
  }

  lemma AllArchivesPresentLast(fs: FileSystem, ranges: seq<string>)
    requires ranges != []
    ensures AllArchivesPresent(fs, ranges) <==>
      AllArchivesPresent(fs, ranges[..|ranges| - 1]) && QofPath(ranges[|ranges| - 1]) in fs
  {
    var init := ranges[..|ranges| - 1];
    assert forall j :: 0 <= j < |init| ==> init[j] == ranges[j];
  }

  /** The collector succeeds exactly when every range's archive exists, and
      otherwise reports the first missing archive. */
  lemma {:induction false} QofDatasetsFails(fs: FileSystem, ranges: seq<string>)
    ensures QofDatasets(fs, ranges).Ok? <==> AllArchivesPresent(fs, ranges)
    ensures QofDatasets(fs, ranges).Err? ==>
      exists j :: 0 <= j < |ranges| && AllArchivesPresent(fs, ranges[..j]) && QofPath(ranges[j]) !in fs &&
        QofDatasets(fs, ranges).error == ArchiveNotFound(QofPath(ranges[j]))
  {
    if ranges != [] {
      var n := |ranges| - 1;
      var init := ranges[..n];
      QofDatasetsFails(fs, init);
      QofDatasetsLast(fs, ranges);
      AllArchivesPresentLast(fs, ranges);
      if QofDatasets(fs, init).Err? {
        var j :| 0 <= j < |init| && AllArchivesPresent(fs, init[..j]) && QofPath(init[j]) !in fs &&
          QofDatasets(fs, init).error == ArchiveNotFound(QofPath(init[j]));
        assert ranges[..j] == init[..j];
        assert ranges[j] == init[j];
      } else if QofPath(ranges[n]) !in fs {
        assert ranges[..n] == init;
      }
    }
  }

  /** `d` maps each of `ranges`, once, to what `extract` gives for it. */
  ghost predicate HoldsRanges(d: Dict<Dict<Table>>, ranges: seq<string>, extract: string -> Result<Dict<Table>, Error>)
  {
    && DistinctKeys(d)
    && (forall x :: x in Keys(d) <==> x in ranges)
    && forall j :: 0 <= j < |ranges| ==> extract(ranges[j]).Ok? && Get(d, ranges[j]) == Some(extract(ranges[j]).value)
  }

  /** Storing one more range's dictionary keeps the description. */
  lemma HoldsRangesPut(d0: Dict<Dict<Table>>, init: seq<string>, x: string, extract: string -> Result<Dict<Table>, Error>,
                       d: Dict<Dict<Table>>, ranges: seq<string>)
    requires HoldsRanges(d0, init, extract) && extract(x).Ok?
    requires d == Put(d0, x, extract(x).value) && ranges == init + [x]
    ensures HoldsRanges(d, ranges, extract)
  {
    forall j | 0 <= j < |ranges|
      ensures extract(ranges[j]).Ok? && Get(d, ranges[j]) == Some(extract(ranges[j]).value)
    {
      if j < |init| && ranges[j] != x {
        assert ranges[j] == init[j];
      }
    }
  }

  /** The extraction of a range's archive. */
  function RangeExtract(fs: FileSystem): string -> Result<Dict<Table>, Error>
  {
    range => QofExtract(fs, QofPath(range), QofSuffix)
  }

  /** On success the collector maps each range, once, to the dictionary of
      that range's archive. */
  lemma QofDatasetsContents(fs: FileSystem, ranges: seq<string>)
    requires QofDatasets(fs, ranges).Ok?
    ensures var d := QofDatasets(fs, ranges).value;
      && DistinctKeys(d)
      && (forall x :: x in Keys(d) <==> x in ranges)
      && forall j :: 0 <= j < |ranges| ==>
        QofExtract(fs, QofPath(ranges[j]), QofSuffix).Ok? &&
        Get(d, ranges[j]) == Some(QofExtract(fs, QofPath(ranges[j]), QofSuffix).value)
  {
    QofDatasetsHold(fs, ranges);
    var d, e := QofDatasets(fs, ranges).value, RangeExtract(fs);
    forall j | 0 <= j < |ranges|
      ensures QofExtract(fs, QofPath(ranges[j]), QofSuffix).Ok?
      ensures Get(d, ranges[j]) == Some(QofExtract(fs, QofPath(ranges[j]), QofSuffix).value)
    {
      assert e(ranges[j]) == QofExtract(fs, QofPath(ranges[j]), QofSuffix);
    }
  }

  lemma {:induction false} QofDatasetsHold(fs: FileSystem, ranges: seq<string>)
    requires QofDatasets(fs, ranges).Ok?
    ensures HoldsRanges(QofDatasets(fs, ranges).value, ranges, RangeExtract(fs))
  {
    if ranges != [] {
      var init, x := ranges[..|ranges| - 1], ranges[|ranges| - 1];
      QofDatasetsOkLast(fs, ranges);
      QofDatasetsHold(fs, init);
      HoldsRangesPut(QofDatasets(fs, init).value, init, x, RangeExtract(fs), QofDatasets(fs, ranges).value, ranges);
    }
  }

  /** A successful collection is the collection of all but the last range
      with the last range's dictionary stored. */
  lemma QofDatasetsOkLast(fs: FileSystem, ranges: seq<string>)
    requires ranges != [] && QofDatasets(fs, ranges).Ok?
    ensures var init, x := ranges[..|ranges| - 1], ranges[|ranges| - 1];
      && ranges == init + [x]
      && QofDatasets(fs, init).Ok?
      && RangeExtract(fs)(x).Ok?
      && QofDatasets(fs, ranges).value == Put(QofDatasets(fs, init).value, x, RangeExtract(fs)(x).value)
  {
    var init, x := ranges[..|ranges| - 1], ranges[|ranges| - 1];
    QofDatasetsLast(fs, ranges);
    assert RangeExtract(fs)(x) == QofExtract(fs, QofPath(x), QofSuffix);
    InitLast(ranges);
  }

  lemma InitLast<T>(s: seq<T>)
    requires s != []
    ensures s == s[..|s| - 1] + [s[|s| - 1]]
  {
  }

  /** With distinct ranges the collector's keys are the ranges in the order
      they were read. */
  lemma {:induction false} QofDatasetsOrder(fs: FileSystem, ranges: seq<string>)
    requires QofDatasets(fs, ranges).Ok?
    requires forall i, j :: 0 <= i < j < |ranges| ==> ranges[i] != ranges[j]
    ensures Keys(QofDatasets(fs, ranges).value) == ranges
  {
    if ranges != [] {
      var n := |ranges| - 1;
      DistinctInit(ranges);
      QofDatasetsLast(fs, ranges);
      QofDatasetsOrder(fs, ranges[..n]);
      assert ranges[..n] + [ranges[n]] == ranges;
    }
  }

  lemma DistinctInit<T>(s: seq<T>)
    requires s != [] && forall i, j :: 0 <= i < j < |s| ==> s[i] != s[j]
    ensures var init := s[..|s| - 1];
      && (forall i, j :: 0 <= i < j < |init| ==> init[i] != init[j])
      && s[|s| - 1] !in init
  {
  }

}
