/** The practice prevalence table (`get_mapped_practice_prevalence_df`): the
    QOF prevalence tables of every range stacked together, left-joined on the
    practice code to one geography mapping reconciled across the ranges. The
    first non-empty mapping is the base and fixes the set of known practice
    codes; every later mapping contributes only its rows whose code is not in
    that base set. The known codes are never updated after the base is chosen. */
module PrevalenceTables {
  import opened Wrappers
  import opened PyDict
  import opened Frames
  import opened Archives
  import opened QofLoading

  const PrevalenceTable := "PREVALENCE"
  const MappingTable := "MAPPING_NHS_GEOGRAPHIES"
  const PracticeCode := "PRACTICE_CODE"

  /** The reconciler's loop state: the prevalence tables so far, the mapping
      so far, and the practice codes of the base mapping. */
  datatype Accumulated = Accumulated(prevalence: seq<Table>, mapping: Table, practiceCodes: seq<Option<Value>>)

  /** `new_mapping_df[~new_mapping_df["PRACTICE_CODE"].isin(practice_codes)]`:
      the rows whose code is not among the known codes, in their order. */
  function NewMappingRows(newMapping: Table, codes: seq<Option<Value>>): Table
  {
    if newMapping == [] then []
    else
      var row := newMapping[|newMapping| - 1];
      NewMappingRows(newMapping[..|newMapping| - 1], codes) + if KeyOf(row, PracticeCode) !in codes then [row] else []
  }

  /** One iteration of the reconciler over a range's prevalence and mapping tables. */
  function Step(acc: Accumulated, prevalence: Table, newMapping: Table): Accumulated
  {
    if IsEmpty(acc.mapping) then
      Accumulated(acc.prevalence + [prevalence], newMapping, KeyColumn(newMapping, PracticeCode))
    else
      Accumulated(acc.prevalence + [prevalence], acc.mapping + NewMappingRows(newMapping, acc.practiceCodes), acc.practiceCodes)
  }

  /** The reconciler's state after the ranges of `items`, in order; a range
      without a prevalence table, or else without a mapping table, stops it. */
  function Reconciled(items: Dict<Dict<Table>>): Result<Accumulated, Error>
  {
    if items == [] then Ok(Accumulated([], [], []))
    else
      match Reconciled(items[..|items| - 1])
      case Err(e) => Err(e)
      case Ok(acc) =>
        var (year, dataDict) := items[|items| - 1];
        match Get(dataDict, PrevalenceTable)
        case None => Err(MissingTable(year, PrevalenceTable))
        case Some(prevalence) =>
          match Get(dataDict, MappingTable)
          case None => Err(MissingTable(year, MappingTable))
          case Some(newMapping) => Ok(Step(acc, prevalence, newMapping))
  }

  /** The table built from the ranges' dictionaries. */
  function MappedPrevalence(items: Dict<Dict<Table>>): Result<Table, Error>
  {
    match Reconciled(items)
    case Err(e) => Err(e)
    case Ok(acc) =>
      if acc.prevalence == [] then Err(NothingToConcatenate)
      else Ok(LeftMerge(Concat(acc.prevalence), acc.mapping, PracticeCode))
  }

  /** What `get_mapped_practice_prevalence_df()` returns, given the ranges the
      QOF collector reads on this call. */
  function PracticePrevalence(fs: FileSystem, ranges: seq<string>): Result<Table, Error>
  {
    match QofDatasets(fs, ranges)
    case Err(e) => Err(e)
    case Ok(d) => MappedPrevalence(d)
  }

  lemma {:induction false} ReconciledErrorPersists(items: Dict<Dict<Table>>, i: nat)
    requires i <= |items|
    requires Reconciled(items[..i]).Err?
    ensures Reconciled(items) == Reconciled(items[..i])
    decreases |items| - i
  {
    if i < |items| {
      assert items[..i + 1][..i] == items[..i];
      ReconciledErrorPersists(items, i + 1);
    } else {
      assert items[..i] == items;
    }
  }

  /** One more range read by the reconciler's loop. */
  lemma ReconciledStep(items: Dict<Dict<Table>>, i: nat)
    requires i < |items| && Reconciled(items[..i]).Ok?
    ensures var acc, year, d := Reconciled(items[..i]).value, items[i].0, items[i].1;
      Reconciled(items[..i + 1]) ==
        if Get(d, PrevalenceTable).None? then Err(MissingTable(year, PrevalenceTable))
        else if Get(d, MappingTable).None? then Err(MissingTable(year, MappingTable))
        else Ok(Step(acc, Get(d, PrevalenceTable).value, Get(d, MappingTable).value))
  {
    assert items[..i + 1][..i] == items[..i];
  }

  /** `get_mapped_practice_prevalence_df()`. The QOF collector is called with
      its default range list, which is one list shared by every call and
      reversed in place by each; it is passed here as the array it lives in. */
  method GetMappedPracticePrevalenceDf(fs: FileSystem, defaultRanges: array<string>) returns (r: Result<Table, Error>)
    modifies defaultRanges
    ensures defaultRanges[..] == Reversed(old(defaultRanges[..]))
    ensures r == PracticePrevalence(fs, defaultRanges[..])
  {
    var rawQofDatasets := GetQofDatasets(fs, defaultRanges);
    if rawQofDatasets.Err? {
      return Err(rawQofDatasets.error);
    }
    var items := rawQofDatasets.value;
    ghost var ranges := defaultRanges[..];
    var prevalenceList: seq<Table> := [];
    var mappingDf: Table := [];
    var practiceCodes: seq<Option<Value>> := [];
    for i := 0 to |items|
      invariant Reconciled(items[..i]) == Ok(Accumulated(prevalenceList, mappingDf, practiceCodes))
      invariant defaultRanges[..] == ranges
    {
      var year, dataDict := items[i].0, items[i].1;
      ReconciledStep(items, i);
      var prevalenceSubDf := Get(dataDict, PrevalenceTable);
      if prevalenceSubDf.None? {
        ReconciledErrorPersists(items, i + 1);
        return Err(MissingTable(year, PrevalenceTable));
      }
      prevalenceList := prevalenceList + [prevalenceSubDf.value];
      var newMappingDf := Get(dataDict, MappingTable);
      if newMappingDf.None? {
        ReconciledErrorPersists(items, i + 1);
        return Err(MissingTable(year, MappingTable));
      }
      if IsEmpty(mappingDf) {
        mappingDf := newMappingDf.value;
        practiceCodes := KeyColumn(mappingDf, PracticeCode);
      } else {
        var newFilteredMappingDf := NewMappingRows(newMappingDf.value, practiceCodes);
        mappingDf := mappingDf + newFilteredMappingDf;
      }
    }
    assert items[..|items|] == items;
    if prevalenceList == [] {
      return Err(NothingToConcatenate);
    }
    var prevalenceDf := Concat(prevalenceList);
    return Ok(LeftMerge(prevalenceDf, mappingDf, PracticeCode));
  }

  // What the filter keeps.

  /** The multiplicity of a practice code in a table. */
  function Count(t: Table, k: Option<Value>): nat
  {
    multiset(KeyColumn(t, PracticeCode))[k]
  }

  lemma CountAppend(x: Table, y: Table, k: Option<Value>)
    ensures Count(x + y, k) == Count(x, k) + Count(y, k)
  {
    assert KeyColumn(x + y, PracticeCode) == KeyColumn(x, PracticeCode) + KeyColumn(y, PracticeCode);
  }

  /** The filter keeps exactly the rows whose code is unknown, each as often as
      it occurs: a known code disappears, an unknown one keeps its count. */
  lemma {:induction false} NewMappingRowsSpec(newMapping: Table, codes: seq<Option<Value>>, k: Option<Value>)
    ensures Count(NewMappingRows(newMapping, codes), k) == if k in codes then 0 else Count(newMapping, k)
    ensures forall row :: row in NewMappingRows(newMapping, codes) <==>
      row in newMapping && KeyOf(row, PracticeCode) !in codes
  {
    if newMapping != [] {
      var init := newMapping[..|newMapping| - 1];
      var row := newMapping[|newMapping| - 1];
      NewMappingRowsSpec(init, codes, k);
      assert newMapping == init + [row];
      CountAppend(init, [row], k);
      var kept := if KeyOf(row, PracticeCode) !in codes then [row] else [];
      CountAppend(NewMappingRows(init, codes), kept, k);
    }
  }

  /** The filter keeps the rows' order: filtering a concatenation is
      concatenating the filtered parts. */
  lemma {:induction false} NewMappingRowsAppend(x: Table, y: Table, codes: seq<Option<Value>>)
    ensures NewMappingRows(x + y, codes) == NewMappingRows(x, codes) + NewMappingRows(y, codes)
    decreases |y|
  {
    if y != [] {
      var y0 := y[..|y| - 1];
      NewMappingRowsAppend(x, y0, codes);
      assert (x + y)[..|x + y| - 1] == x + y0;
    } else {
      assert x + y == x;
    }
  }

  // The reconciled state, described range by range.

  predicate HasTables(d: Dict<Table>)
  {
    PrevalenceTable in Keys(d) && MappingTable in Keys(d)
  }

  predicate AllTablesPresent(items: Dict<Dict<Table>>)
  {
    forall j :: 0 <= j < |items| ==> HasTables(items[j].1)
  }

  /** The prevalence table of every range, in order. */
  function Prevalences(items: Dict<Dict<Table>>): (ps: seq<Table>)
    requires AllTablesPresent(items)
    ensures |ps| == |items|
  {
    seq(|items|, j requires 0 <= j < |items| => Get(items[j].1, PrevalenceTable).value)
  }

  /** The mapping table of every range, in order. */
  function Mappings(items: Dict<Dict<Table>>): (ms: seq<Table>)
    requires AllTablesPresent(items)
    ensures |ms| == |items|
  {
    seq(|items|, j requires 0 <= j < |items| => Get(items[j].1, MappingTable).value)
  }

  /** The index of the first non-empty mapping, or the number of mappings. */
  function FirstNonEmpty(ms: seq<Table>): (b: nat)
    ensures b <= |ms|
    ensures forall j :: 0 <= j < b ==> IsEmpty(ms[j])
    ensures b < |ms| ==> !IsEmpty(ms[b])
  {
    if ms == [] then 0
    else
      var n := |ms| - 1;
      var b0 := FirstNonEmpty(ms[..n]);
      assert forall j :: 0 <= j < n ==> ms[..n][j] == ms[j];
      if b0 < n then b0 else if IsEmpty(ms[n]) then n + 1 else n
  }

  /** The rows the mappings after the base contribute, each filtered by the
      base's codes. */
  function LaterRows(ms: seq<Table>, b: nat, codes: seq<Option<Value>>): Table
    requires b < |ms|
  {
    Concat(seq(|ms| - b - 1, j requires 0 <= j < |ms| - b - 1 => NewMappingRows(ms[b + 1 + j], codes)))
  }

  lemma LaterRowsSnoc(ms: seq<Table>, b: nat, codes: seq<Option<Value>>)
    requires b < |ms| - 1
    ensures LaterRows(ms, b, codes) == LaterRows(ms[..|ms| - 1], b, codes) + NewMappingRows(ms[|ms| - 1], codes)
  {
    var init := ms[..|ms| - 1];
    var s := seq(|ms| - b - 1, j requires 0 <= j < |ms| - b - 1 => NewMappingRows(ms[b + 1 + j], codes));
    var s0 := seq(|init| - b - 1, j requires 0 <= j < |init| - b - 1 => NewMappingRows(init[b + 1 + j], codes));
    assert s == s0 + [NewMappingRows(ms[|ms| - 1], codes)];
    ConcatSnoc(s0, NewMappingRows(ms[|ms| - 1], codes));
  }

  lemma NonEmptyPrefix(x: Table, y: Table)
    requires !IsEmpty(x)
    ensures !IsEmpty(x + y)
  {
    var i :| 0 <= i < |x| && x[i] != map[];
    assert (x + y)[i] == x[i];
  }

  /** One step of the reconciler, once every range so far has both tables. */
  lemma ReconciledLast(items: Dict<Dict<Table>>)
    requires items != [] && Reconciled(items).Ok?
    ensures var init := items[..|items| - 1];
      var d := items[|items| - 1].1;
      && Reconciled(init).Ok? && HasTables(d)
      && Reconciled(items).value ==
        Step(Reconciled(init).value, Get(d, PrevalenceTable).value, Get(d, MappingTable).value)
  {
  }

  /** The reconciler's state over plain sequences of prevalence and mapping
      tables, one of each per range. */
  function Folded(ps: seq<Table>, ms: seq<Table>): Accumulated
    requires |ps| == |ms|
  {
    if ms == [] then Accumulated([], [], [])
    else Step(Folded(ps[..|ps| - 1], ms[..|ms| - 1]), ps[|ps| - 1], ms[|ms| - 1])
  }

  lemma {:induction false} ReconciledHasTables(items: Dict<Dict<Table>>)
    requires Reconciled(items).Ok?
    ensures AllTablesPresent(items)
  {
    if items != [] {
      var n := |items| - 1;
      var init := items[..n];
      ReconciledLast(items);
      ReconciledHasTables(init);
      AllTablesPresentSnoc(init, items[n]);
      assert init + [items[n]] == items;
    }
  }

  lemma TablesPrefix(items: Dict<Dict<Table>>, n: nat)
    requires n <= |items| && AllTablesPresent(items)
    ensures AllTablesPresent(items[..n])
    ensures Prevalences(items)[..n] == Prevalences(items[..n])
    ensures Mappings(items)[..n] == Mappings(items[..n])
  {
    assert forall j :: 0 <= j < n ==> items[..n][j] == items[j];
  }

  /** On success the reconciler has folded every range's two tables, in order. */
  lemma {:induction false} ReconciledFolded(items: Dict<Dict<Table>>)
    requires Reconciled(items).Ok?
    ensures AllTablesPresent(items)
    ensures Reconciled(items).value == Folded(Prevalences(items), Mappings(items))
  {
    ReconciledHasTables(items);
    if items != [] {
      var n := |items| - 1;
      ReconciledLast(items);
      ReconciledFolded(items[..n]);
      TablesPrefix(items, n);
    }
  }

  /** Until a non-empty mapping arrives, the reconciled mapping is the latest
      (empty) mapping, and its own codes are the known ones. */
  lemma {:induction false} FoldedBeforeBase(ps: seq<Table>, ms: seq<Table>)
    requires |ps| == |ms| && FirstNonEmpty(ms) == |ms|
    ensures var acc := Folded(ps, ms);
      && IsEmpty(acc.mapping)
      && acc.mapping == (if ms == [] then [] else ms[|ms| - 1])
      && acc.practiceCodes == KeyColumn(acc.mapping, PracticeCode)
  {
    if ms != [] {
      var n := |ms| - 1;
      FoldedBeforeBase(ps[..n], ms[..n]);
    }
  }

  /** From the first non-empty mapping on, the reconciled mapping is that base
      mapping followed by the rows of every later mapping whose code is not in
      the base, and only the base's codes are known. */
  lemma {:induction false} FoldedFromBase(ps: seq<Table>, ms: seq<Table>)
    requires |ps| == |ms| && FirstNonEmpty(ms) < |ms|
    ensures var acc := Folded(ps, ms);
      var b := FirstNonEmpty(ms);
      && !IsEmpty(acc.mapping)
      && acc.practiceCodes == KeyColumn(ms[b], PracticeCode)
      && acc.mapping == ms[b] + LaterRows(ms, b, acc.practiceCodes)
  {
    var n := |ms| - 1;
    if FirstNonEmpty(ms[..n]) < n {
      FoldedFromBase(ps[..n], ms[..n]);
      FoldedLast(ps, ms);
      AfterBaseStep(Folded(ps[..n], ms[..n]), ms, ps[n]);
    } else {
      FoldedBaseArrives(ps, ms);
    }
  }

  /** The shape `FoldedFromBase` describes. */
  predicate FromBase(acc: Accumulated, ms: seq<Table>)
    requires FirstNonEmpty(ms) < |ms|
  {
    var b := FirstNonEmpty(ms);
    && !IsEmpty(acc.mapping)
    && acc.practiceCodes == KeyColumn(ms[b], PracticeCode)
    && acc.mapping == ms[b] + LaterRows(ms, b, acc.practiceCodes)
  }

  /** The range whose mapping is the first non-empty one makes it the base. */
  lemma FoldedBaseArrives(ps: seq<Table>, ms: seq<Table>)
    requires |ps| == |ms| && ms != []
    requires FirstNonEmpty(ms[..|ms| - 1]) == |ms| - 1 && FirstNonEmpty(ms) < |ms|
    ensures FromBase(Folded(ps, ms), ms)
  {
    var n := |ms| - 1;
    FoldedBeforeBase(ps[..n], ms[..n]);
    assert LaterRows(ms, n, KeyColumn(ms[n], PracticeCode)) == Concat([]);
    NonEmptyPrefix(ms[n], []);
  }

  /** After the base, a step appends the filtered rows and keeps the codes. */
  lemma StepAfterBase(acc0: Accumulated, base: Table, later0: Table, p: Table, m: Table)
    requires !IsEmpty(acc0.mapping) && acc0.mapping == base + later0
    ensures var acc := Step(acc0, p, m);
      && !IsEmpty(acc.mapping)
      && acc.practiceCodes == acc0.practiceCodes
      && acc.mapping == base + (later0 + NewMappingRows(m, acc0.practiceCodes))
  {
    var added := NewMappingRows(m, acc0.practiceCodes);
    NonEmptyPrefix(acc0.mapping, added);
    AppendAssociative(base, later0, added);
  }

  lemma AppendAssociative<T>(x: seq<T>, y: seq<T>, z: seq<T>)
    ensures (x + y) + z == x + (y + z)
  {
  }

  /** A range after the base appends its filtered rows. */
  lemma AfterBaseStep(acc0: Accumulated, ms: seq<Table>, p: Table)
    requires ms != [] && FirstNonEmpty(ms[..|ms| - 1]) < |ms| - 1
    requires FromBase(acc0, ms[..|ms| - 1])
    ensures FromBase(Step(acc0, p, ms[|ms| - 1]), ms)
  {
    var n := |ms| - 1;
    var b0 := FirstNonEmpty(ms[..n]);
    assert ms[..n][b0] == ms[b0];
    StepAfterBase(acc0, ms[b0], LaterRows(ms[..n], b0, acc0.practiceCodes), p, ms[n]);
    LaterRowsSnoc(ms, b0, acc0.practiceCodes);
  }

  lemma FoldedLast(ps: seq<Table>, ms: seq<Table>)
    requires |ps| == |ms| && ms != []
    ensures Folded(ps, ms) == Step(Folded(ps[..|ms| - 1], ms[..|ms| - 1]), ps[|ms| - 1], ms[|ms| - 1])
  {
  }

  lemma {:induction false} FoldedPrevalence(ps: seq<Table>, ms: seq<Table>)
    requires |ps| == |ms|
    ensures Folded(ps, ms).prevalence == ps
  {
    if ms != [] {
      var n := |ms| - 1;
      FoldedPrevalence(ps[..n], ms[..n]);
      FoldedLast(ps, ms);
      StepPrevalence(Folded(ps[..n], ms[..n]), ps, ms[n]);
    }
  }

  /** Every step collects its range's prevalence table, whichever branch it takes. */
  lemma StepPrevalence(acc: Accumulated, ps: seq<Table>, m: Table)
    requires ps != [] && acc.prevalence == ps[..|ps| - 1]
    ensures Step(acc, ps[|ps| - 1], m).prevalence == ps
  {
    assert ps[..|ps| - 1] + [ps[|ps| - 1]] == ps;
  }

  /** The reconciled state of the ranges' dictionaries. */
  lemma ReconciledMapping(items: Dict<Dict<Table>>)
    requires Reconciled(items).Ok?
    ensures AllTablesPresent(items)
    ensures var acc := Reconciled(items).value;
      var ms := Mappings(items);
      var b := FirstNonEmpty(ms);
      && acc.prevalence == Prevalences(items)
      && (b == |ms| ==>
            acc.mapping == (if ms == [] then [] else ms[|ms| - 1]) &&
            acc.practiceCodes == KeyColumn(acc.mapping, PracticeCode))
      && (b < |ms| ==>
            acc.practiceCodes == KeyColumn(ms[b], PracticeCode) &&
            acc.mapping == ms[b] + LaterRows(ms, b, acc.practiceCodes))
  {
    ReconciledFolded(items);
    FoldedPrevalence(Prevalences(items), Mappings(items));
    if FirstNonEmpty(Mappings(items)) < |items| {
      FoldedFromBase(Prevalences(items), Mappings(items));
    } else {
      FoldedBeforeBase(Prevalences(items), Mappings(items));
    }
  }

  /** The reconciler succeeds exactly when every range has both tables, and
      otherwise names the first range lacking one, the prevalence table being
      looked up first. */
  lemma {:induction false} ReconciledFails(items: Dict<Dict<Table>>)
    ensures Reconciled(items).Ok? <==> AllTablesPresent(items)
    ensures Reconciled(items).Err? ==>
      exists j :: 0 <= j < |items| && AllTablesPresent(items[..j]) && !HasTables(items[j].1) &&
        Reconciled(items).error ==
          MissingTable(items[j].0, if PrevalenceTable !in Keys(items[j].1) then PrevalenceTable else MappingTable)
  {
    if items != [] {
      var n := |items| - 1;
      var init := items[..n];
      ReconciledFails(init);
      if Reconciled(init).Err? {
        ReconciledErrorPersists(items, n);
        var j :| 0 <= j < |init| && AllTablesPresent(init[..j]) && !HasTables(init[j].1) &&
          Reconciled(init).error ==
            MissingTable(init[j].0, if PrevalenceTable !in Keys(init[j].1) then PrevalenceTable else MappingTable);
        assert items[..j] == init[..j];
        assert items[j] == init[j];
      } else {
        ReconciledStep(items, n);
        assert items[..n + 1] == items;
        if HasTables(items[n].1) {
          AllTablesPresentSnoc(init, items[n]);
          assert init + [items[n]] == items;
        } else {
          assert items[..n] == init;
        }
      }
    }
  }

  lemma AllTablesPresentSnoc(init: Dict<Dict<Table>>, item: (string, Dict<Table>))
    requires AllTablesPresent(init) && HasTables(item.1)
    ensures AllTablesPresent(init + [item])
  {
    forall j | 0 <= j < |init| + 1 ensures HasTables((init + [item])[j].1) {
      if j < |init| {
        assert (init + [item])[j] == init[j];
      }
    }
  }

  // What the reconciled mapping holds for each practice code.

  /** The summed multiplicity of a code over several tables. */
  function CountIn(ts: seq<Table>, k: Option<Value>): nat
  {
    if ts == [] then 0 else CountIn(ts[..|ts| - 1], k) + Count(ts[|ts| - 1], k)
  }

  lemma {:induction false} ConcatCount(ts: seq<Table>, k: Option<Value>)
    ensures Count(Concat(ts), k) == CountIn(ts, k)
  {
    if ts != [] {
      var init := ts[..|ts| - 1];
      ConcatCount(init, k);
      ConcatSnoc(init, ts[|ts| - 1]);
      assert ts == init + [ts[|ts| - 1]];
      CountAppend(Concat(init), ts[|ts| - 1], k);
    }
  }

  /** Later mappings add no row for a base code, and every row of theirs for
      any other code. */
  lemma {:induction false} LaterRowsCount(ms: seq<Table>, b: nat, codes: seq<Option<Value>>, k: Option<Value>)
    requires b < |ms|
    ensures Count(LaterRows(ms, b, codes), k) == if k in codes then 0 else CountIn(ms[b + 1..], k)
  {
    if b < |ms| - 1 {
      var init := ms[..|ms| - 1];
      LaterRowsCount(init, b, codes, k);
      LaterRowsSnoc(ms, b, codes);
      CountAppend(LaterRows(init, b, codes), NewMappingRows(ms[|ms| - 1], codes), k);
      NewMappingRowsSpec(ms[|ms| - 1], codes, k);
      assert ms[b + 1..][..|ms[b + 1..]| - 1] == init[b + 1..];
    } else {
      assert LaterRows(ms, b, codes) == Concat([]);
      assert ms[b + 1..] == [];
    }
  }

  lemma {:induction false} CountInAtLeast(ts: seq<Table>, i: nat, j: nat, k: Option<Value>)
    requires i < j < |ts|
    ensures CountIn(ts, k) >= Count(ts[i], k) + Count(ts[j], k)
  {
    var init := ts[..|ts| - 1];
    if j < |ts| - 1 {
      CountInAtLeast(init, i, j, k);
    } else {
      CountInOne(init, i, k);
    }
  }

  lemma {:induction false} CountInOne(ts: seq<Table>, i: nat, k: Option<Value>)
    requires i < |ts|
    ensures CountIn(ts, k) >= Count(ts[i], k)
  {
    if i < |ts| - 1 {
      CountInOne(ts[..|ts| - 1], i, k);
    }
  }

  /** The rows of a table that carry a given practice code, in their order. */
  function RowsWithCode(t: Table, k: Option<Value>): Table
  {
    if t == [] then []
    else
      var row := t[|t| - 1];
      RowsWithCode(t[..|t| - 1], k) + if KeyOf(row, PracticeCode) == k then [row] else []
  }

  lemma {:induction false} RowsWithCodeAppend(x: Table, y: Table, k: Option<Value>)
    ensures RowsWithCode(x + y, k) == RowsWithCode(x, k) + RowsWithCode(y, k)
    decreases |y|
  {
    if y != [] {
      var y0 := y[..|y| - 1];
      RowsWithCodeAppend(x, y0, k);
      assert (x + y)[..|x + y| - 1] == x + y0;
    } else {
      assert x + y == x;
    }
  }

  /** A table in which a code does not occur has no rows with that code. */
  lemma {:induction false} RowsWithCodeAbsent(t: Table, k: Option<Value>)
    requires Count(t, k) == 0
    ensures RowsWithCode(t, k) == []
  {
    if t != [] {
      var init, row := t[..|t| - 1], t[|t| - 1];
      assert t == init + [row];
      CountAppend(init, [row], k);
      assert KeyColumn([row], PracticeCode) == [KeyOf(row, PracticeCode)];
      RowsWithCodeAbsent(init, k);
    }
  }

  /** Precedence of the base mapping: a practice the base mapping lists has in
      the reconciled mapping exactly the rows the base gives it, in the base's
      order, and no row from a later range. */
  lemma BaseCodesKeepBaseRows(items: Dict<Dict<Table>>, k: Option<Value>)
    requires Reconciled(items).Ok?
    requires AllTablesPresent(items)
    requires FirstNonEmpty(Mappings(items)) < |items|
    requires k in KeyColumn(Mappings(items)[FirstNonEmpty(Mappings(items))], PracticeCode)
    ensures RowsWithCode(Reconciled(items).value.mapping, k) == RowsWithCode(Mappings(items)[FirstNonEmpty(Mappings(items))], k)
    ensures Count(Reconciled(items).value.mapping, k) == Count(Mappings(items)[FirstNonEmpty(Mappings(items))], k)
  {
    ReconciledMapping(items);
    var ms := Mappings(items);
    var b := FirstNonEmpty(ms);
    var acc := Reconciled(items).value;
    var later := LaterRows(ms, b, acc.practiceCodes);
    CountAppend(ms[b], later, k);
    LaterRowsCount(ms, b, acc.practiceCodes, k);
    RowsWithCodeAppend(ms[b], later, k);
    RowsWithCodeAbsent(later, k);
  }

  lemma LaterRowsAtLeastOne(ms: seq<Table>, b: nat, codes: seq<Option<Value>>, k: Option<Value>, i: nat)
    requires b < i < |ms| && k !in codes
    ensures Count(LaterRows(ms, b, codes), k) >= Count(ms[i], k)
  {
    LaterRowsCount(ms, b, codes, k);
    var later := ms[b + 1..];
    assert later[i - b - 1] == ms[i];
    CountInOne(later, i - b - 1, k);
  }

  /** Two later mappings both contribute their rows for a code outside the base. */
  lemma LaterRowsAtLeast(ms: seq<Table>, b: nat, codes: seq<Option<Value>>, k: Option<Value>, i: nat, j: nat)
    requires b < i < j < |ms| && k !in codes
    ensures Count(LaterRows(ms, b, codes), k) >= Count(ms[i], k) + Count(ms[j], k)
  {
    LaterRowsCount(ms, b, codes, k);
    var later := ms[b + 1..];
    assert later[i - b - 1] == ms[i] && later[j - b - 1] == ms[j];
    CountInAtLeast(later, i - b - 1, j - b - 1, k);
  }

  /** A practice missing from the base mapping gets every row the later
      mappings give it; in particular one listed by two later ranges appears
      at least twice, because the known codes are not updated as rows are added. */
  lemma LaterCodesAccumulate(items: Dict<Dict<Table>>, k: Option<Value>, i: nat, j: nat)
    requires Reconciled(items).Ok?
    requires AllTablesPresent(items)
    requires FirstNonEmpty(Mappings(items)) < i < j < |items|
    requires k !in KeyColumn(Mappings(items)[FirstNonEmpty(Mappings(items))], PracticeCode)
    ensures Count(Reconciled(items).value.mapping, k) >= Count(Mappings(items)[i], k) + Count(Mappings(items)[j], k)
  {
    ReconciledMapping(items);
    var ms := Mappings(items);
    var b := FirstNonEmpty(ms);
    var acc := Reconciled(items).value;
    CountAppend(ms[b], LaterRows(ms, b, acc.practiceCodes), k);
    LaterRowsAtLeast(ms, b, acc.practiceCodes, k, i, j);
  }

  /** Every code a mapping from the base range on lists has at least one
      row in the reconciled mapping. */
  lemma EveryKeyAppears(items: Dict<Dict<Table>>, k: Option<Value>, i: nat)
    requires Reconciled(items).Ok?
    requires AllTablesPresent(items)
    requires FirstNonEmpty(Mappings(items)) <= i < |items|
    requires Count(Mappings(items)[i], k) > 0
    ensures Count(Reconciled(items).value.mapping, k) > 0
  {
    ReconciledMapping(items);
    var ms := Mappings(items);
    var b := FirstNonEmpty(ms);
    BaseAndLaterKeyAppears(ms, b, k, i);
  }

  lemma BaseAndLaterKeyAppears(ms: seq<Table>, b: nat, k: Option<Value>, i: nat)
    requires b <= i < |ms| && Count(ms[i], k) > 0
    ensures Count(ms[b] + LaterRows(ms, b, KeyColumn(ms[b], PracticeCode)), k) > 0
  {
    var codes := KeyColumn(ms[b], PracticeCode);
    CountAppend(ms[b], LaterRows(ms, b, codes), k);
    if k in codes {
      assert k in multiset(codes);
    } else if i > b {
      LaterRowsAtLeastOne(ms, b, codes, k, i);
    }
  }

  // The result.

  /** The table is built exactly when every range has both tables and there is
      at least one range; it is then the left join of all prevalence tables,
      stacked in range order, with the reconciled mapping, and it keeps every
      prevalence row. */
  lemma MappedPrevalenceSpec(items: Dict<Dict<Table>>)
    ensures MappedPrevalence(items).Ok? <==> AllTablesPresent(items) && items != []
    ensures MappedPrevalence(items).Ok? ==>
      var t := MappedPrevalence(items).value;
      && t == LeftMerge(Concat(Prevalences(items)), Reconciled(items).value.mapping, PracticeCode)
      && |Concat(Prevalences(items))| == TotalRows(Prevalences(items))
      && |t| >= TotalRows(Prevalences(items))
  {
    ReconciledFails(items);
    if Reconciled(items).Ok? {
      ReconciledMapping(items);
      var ps := Prevalences(items);
      LeftMergeRowCount(Concat(ps), Reconciled(items).value.mapping, PracticeCode);
      ConcatLength(ps);
    }
  }

  /** A prevalence row whose practice appears twice in the reconciled mapping
      comes out of the join twice or more: the merged table holds, at that
      row's place, a block of at least two rows, and so has more rows than
      the stacked prevalence tables. */
  lemma DuplicatedPracticeDuplicatesFacts(items: Dict<Dict<Table>>, i: nat)
    requires AllTablesPresent(items) && Reconciled(items).Ok?
    requires i < |Concat(Prevalences(items))|
    requires Count(Reconciled(items).value.mapping, KeyOf(Concat(Prevalences(items))[i], PracticeCode)) >= 2
    ensures MappedPrevalence(items).Ok?
    ensures var l := Concat(Prevalences(items));
      var m := Reconciled(items).value.mapping;
      var ov := Overlap(l, m, PracticeCode);
      && MappedPrevalence(items).value
         == MergeRows(l[..i], m, PracticeCode, ov) + JoinRow(l[i], m, PracticeCode, ov) + MergeRows(l[i + 1..], m, PracticeCode, ov)
      && |JoinRow(l[i], m, PracticeCode, ov)| >= 2
      && |MappedPrevalence(items).value| > |l|
  {
    var l := Concat(Prevalences(items));
    var m := Reconciled(items).value.mapping;
    var ov := Overlap(l, m, PracticeCode);
    assert items != [] by {
      ConcatLength(Prevalences(items));
    }
    MappedPrevalenceSpec(items);
    LeftMergeBlocks(l, m, PracticeCode, i);
    JoinRowSize(l[i], m, PracticeCode, ov);
    LeftMergeSize(l[..i], m, PracticeCode, ov);
    LeftMergeSize(l[i + 1..], m, PracticeCode, ov);
  }

  /** The whole pipeline fails exactly when an archive is missing, a range
      lacks one of the two tables, or there are no ranges at all. */
  lemma PracticePrevalenceFails(fs: FileSystem, ranges: seq<string>)
    ensures PracticePrevalence(fs, ranges).Ok? <==>
      QofDatasets(fs, ranges).Ok? && ranges != [] && AllTablesPresent(QofDatasets(fs, ranges).value)
  {
    QofDatasetsFails(fs, ranges);
    if QofDatasets(fs, ranges).Ok? {
      var d := QofDatasets(fs, ranges).value;
      MappedPrevalenceSpec(d);
      QofDatasetsContents(fs, ranges);
      if ranges != [] {
        assert ranges[0] in Keys(d);
      }
    }
  }
}
