# GP appointment and QOF loading pipeline, modelled in Dafny

This project models the data-loading core of a small NHS batch pipeline that
builds two analysis tables from zipped CSV releases:

- **Monthly appointment extractor and collector.** `load_compressed_monthly_data`
  opens one monthly archive and keeps the members whose names pass a prefix,
  suffix and skip-list filter. It tags every row of each kept member with a
  `date` column. The date is parsed from the last six characters of the member
  name, cut at the first dot, as `%b_%y`. The empty period and pandas' NaT
  spellings (`nan`, `NaT` and their case variants) give a missing date
  instead of an error. The extractor returns the stacked
  rows together with the archive's full name list.
  `get_raw_appointments_gp_daily_df` runs the extractor over the archives
  newest first. It passes each archive's name list as the next archive's skip
  list, so a member already listed by a newer archive is not read again.
- **QOF range extractor and collector.** `load_compressed_qof_data` reads
  every `.csv` member of a yearly archive. It stores each member's table under
  a key cut from the member name at the year-range token. It tags every row
  with `DATE_RANGE`. `get_qof_datasets` reverses its range list in place and
  reads one archive per range into a dictionary keyed by range.
- **Prevalence reconciler.** `get_mapped_practice_prevalence_df` stacks the
  `PREVALENCE` tables of all ranges. It reconciles the `MAPPING_NHS_GEOGRAPHIES`
  tables into one mapping in which the first non-empty mapping (the base) wins
  for every practice it lists. It then left-joins the two on `PRACTICE_CODE`.

## How the model is built

- **Tables and archives.** A table is a sequence of rows and a row is a map
  from column name to value. A missing key plays the part of pandas' missing
  value. An archive is its sequence of members, each a name plus the table
  `read_csv` makes of it. A file system maps paths to archives.
- **Python and pandas behaviour.** These are written out as small functions:
  - Python string slicing with negative and clamped bounds, `find`,
    `startswith`, `endswith` and `split(sep)[0]` (`PyStr`);
  - an insertion-ordered `dict` (`PyDict`);
  - `concat`, scalar column assignment, `df.empty` and a left merge with
    `_x`/`_y` suffixes (`Frames`);
  - strict `%b_%y` date parsing with the POSIX century rule, and the NaT
    spellings `to_datetime` accepts (`Periods`).
- **Loops become methods.** Each of the five source functions is a loop. Each
  becomes a method proved equal to a specification function defined element by
  element (`MonthlyExtract`, `CollectMonthly`, `QofExtract`, `QofDatasets`,
  `PracticePrevalence`). Lemmas then prove what those functions promise.
- **The shared default list.** `get_qof_datasets` reverses its list argument in
  place, and its default list is one object shared by every call. The model
  therefore passes that list as an `array` owned by the caller.
  `get_mapped_practice_prevalence_df` always uses the default list, so its
  model takes the same array.

Two details of the code that are easy to misread:

- **Member name without the range token.** A member name that does not
  contain the range token, or that starts with it, is stored under the empty
  key `""` (src/data/data_loading.py:93-99). See `QofLoading.QofKeyDegenerate`.
- **Name of the tag column.** The docstring (src/data/data_loading.py:32-33)
  calls it `Month_Year`; the code writes `date` (src/data/data_loading.py:56).

## Model

| member | source | states |
|---|---|---|
| PyStr.Slice | src/data/data_loading.py:53 | Python slicing never yields more characters than the string holds. |
| PyStr.SliceLast | src/data/data_loading.py:53 | `s[-n:]` is the last n characters, or the whole string when it is shorter. |
| PyStr.SliceDropLast | src/data/data_loading.py:99 | `s[:-1]` drops the last character and leaves the empty string empty. |
| PyStr.Find | src/data/data_loading.py:93 | `find` returns -1 or an index where the substring occurs, and there is no earlier occurrence; the empty substring is found at 0. |
| PyStr.SplitHead | src/data/data_loading.py:53 | `split(sep)[0]` is a prefix free of the separator, and it ends at the first separator or at the end of the string. |
| PyDict.Get | src/data/tables.py:64-68 | a lookup succeeds exactly for the keys present, and returns the value stored with that key. |
| PyDict.Put | src/data/data_loading.py:99 | Assigning to a key stores the value. A present key keeps its position and a new key is appended. Other keys are unchanged, and keys stay distinct. |
| Frames.ConcatLength | src/data/data_loading.py:62 | `concat` holds as many rows as its parts together. |
| Frames.SetColumn | src/data/data_loading.py:56 | `df[col] = v` sets `col` to `v` on every row, adds no row and keeps every other column. |
| Frames.MatchingRowsCount | src/data/tables.py:84-86 | the mapping rows that match a key are as many as the key's multiplicity in the key column. |
| Frames.LeftMergeBlocks | src/data/tables.py:84-86 | the left merge keeps fact order: each fact row's output rows sit between those of the rows before and after it. |
| Frames.JoinRowSize | src/data/tables.py:84-86 | a fact row yields max(1, number of matching mapping rows) rows. |
| Frames.JoinRowUnmatched | src/data/tables.py:84-86 | An unmatched fact row yields one row with only the fact row's own columns, so every mapping column is missing there. Each fact value sits under its (possibly `_x`-suffixed) name unless two renamed columns clash. |
| Frames.JoinRowMatched | src/data/tables.py:84-86 | A matched row keeps the join key. It carries every fact column, and every mapping column except the key, under the suffixed names. Overlapping mapping values sit under their `_y` names. Unless two result columns clash once renamed, every fact value and every mapping value sits under its new name. |
| Frames.MergedRowFacts | src/data/tables.py:84-86 | A fact row joined with one matching mapping row holds every fact column and every mapping column but the key under their renamed names. Unless two result columns clash, each holds its own value. |
| Frames.LeftMergeSize | src/data/tables.py:84-86 | the merge has exactly the sum over fact rows of max(1, matches) rows, and at least as many as the fact table. |
| Frames.LeftMergeRowCount | src/data/tables.py:84-86 | no fact row is lost, and the row count equals the fact count exactly when no fact row matches more than one mapping row. |
| Frames.UniqueKeysKeepRowCount | src/data/tables.py:84-86 | with unique mapping keys, the merge has exactly one row per fact row. |
| Archives.OpenLastEntry | src/data/data_loading.py:50 | opening a name reads the last entry with that name. |
| Periods.ParseMonthYear | src/data/data_loading.py:56 | A period that matches `%b_%y` is a timestamp on the first of a month, with month 1-12 and year 1969-2068. |
| Periods.ToDatetimeCases | src/data/data_loading.py:56 | `to_datetime` yields a timestamp exactly when the token matches `%b_%y`, and then the matched date. It yields NaT exactly for the empty token and the spellings `NaT`, `nat`, `NAT`, `nan`, `NaN` and `NAN`. Any other token is an error. |
| Periods.NotATimeExamples | src/data/data_loading.py:56 | the empty token, `nan` and `NaT` convert to NaT instead of failing. |
| Periods.MalformedTokenFails | src/data/data_loading.py:56 | `Sep-22` is neither a date nor a NaT spelling, so converting it fails. |
| Periods.ParseFormatRoundTrip | src/data/data_loading.py:56 | Parsing the archives' spelling of a month and two-digit year gives that month, in the year the century rule assigns. `to_datetime` returns that date. |
| Periods.ParsedTokenIsFormatted | src/data/data_loading.py:56 | Conversely, a token that parses is, up to letter case, the spelling of the period it parses to. |
| Periods.ParseExamples | src/data/data_loading.py:56 | `Mar_23` and `Sep_22` parse to 1 March 2023 and 1 September 2022, and `Jan_69` parses to 1969. |
| Periods.ParseCaseAndSeparator | src/data/data_loading.py:56 | month names match in any case, and a token with `-` instead of `_` does not parse. |
| MonthlyLoading.LoadCompressedMonthlyData | src/data/data_loading.py:11-64 | the extractor method returns exactly the extraction specified by `MonthlyExtract`, including its failures. |
| MonthlyLoading.SelectedNamesIff | src/data/data_loading.py:44-48 | A member is extracted iff it is listed, starts with the prefix, ends with the suffix and is not in the skip list. With an empty prefix and suffix, only the skip list excludes a member. |
| MonthlyLoading.TaggedTablesSpec | src/data/data_loading.py:42-59 | The loop succeeds iff no selected member's period is rejected by `to_datetime`. It then holds one tagged table per selected member, in listing order. Otherwise it fails at the first selected member whose period is rejected. |
| MonthlyLoading.MonthlyExtractOk | src/data/data_loading.py:39-64 | A missing archive fails. A success returns the full name list, whatever the filter. Its table is the selected members' tagged tables stacked in listing order, with as many rows as those members together. No selected member's period was rejected. |
| MonthlyLoading.MonthlyExtractNoMatch | src/data/data_loading.py:62 | when no member passes the filter, the extraction fails instead of returning an empty table, and that is the only way to get that failure. |
| MonthlyLoading.MemberRowsShareTag | src/data/data_loading.py:50-56 | All rows from one member carry the same `date`, the member's parsed period. A member whose period is a NaT spelling gets a missing `date` on every row instead. The row count is kept, no other column is added, and every other column keeps its value. |
| MonthlyLoading.NotATimeMemberExtracted | src/data/data_loading.py:53-56 | An archive holding only `nan.csv`, read with an empty prefix, is extracted without error. Its rows come back with a missing `date`. |
| MonthlyLoading.PeriodTokenExamples | src/data/data_loading.py:53 | The period is cut at the first dot. A member named prefix + period + `.csv` is tagged by its six-character period, and so is `period.anything`. A name like `v1.anything` is tagged `v1`. |
| MonthlyLoading.GetRawAppointmentsGpDailyDf | src/data/data_loading.py:104-133 | the collector method returns exactly `CollectMonthly` over `Mar_23` then `Sep_22`. |
| MonthlyLoading.CollectStepsShape | src/data/data_loading.py:115-127 | the collector holds one table per archive read, and its skip list is the last archive's full name list. |
| MonthlyLoading.CollectStepAt | src/data/data_loading.py:115-127 | The k-th table is the extraction of the k-th archive. Its skip list is empty for the first archive and is the previous archive's full name list after that. |
| MonthlyLoading.CollectMonthlyOk | src/data/data_loading.py:113-133 | the collector's output is the per-archive extractions, each with the previous archive's name list as skip list, concatenated in list order. |
| MonthlyLoading.NotExtractedAgain | src/data/data_loading.py:118-120 | a name listed by archive k-1 is never extracted from archive k. |
| MonthlyLoading.SkipListIsReplaced | src/data/data_loading.py:120 | The skip list is replaced, not accumulated. A name that archive k-1 does not list, but archive k does and that passes the filter, is extracted again even if an older archive listed it. |
| QofLoading.LoadCompressedQofData | src/data/data_loading.py:67-101 | the extractor method returns exactly the dictionary specified by `QofExtract`, or the missing-archive failure. |
| QofLoading.QofPathToken | src/data/data_loading.py:86 | the range token of `data/raw/QOF_{r}.zip` is r when r has four characters. |
| QofLoading.QofKeyCases | src/data/data_loading.py:91-99 | The key is the name before the first occurrence of the token, less one character. It is empty when the token is missing or starts the name. |
| QofLoading.QofKeyOfMember | src/data/data_loading.py:91-99 | key + any separator character + token + rest gives back the key, whatever that character is, when the token does not occur earlier in the name. |
| QofLoading.QofKeyDegenerate | src/data/data_loading.py:93-99 | a name without the token, or starting with it, is stored under the empty key; with an empty token every key is empty. |
| QofLoading.TableNameKey | src/data/data_loading.py:91-99 | For any range token starting with a digit, a member named table + `_` + token + `.csv` is stored under its table name, when that name is upper-case letters and `_`. This covers `ACHIEVEMENT`, and the `PREVALENCE` and `MAPPING_NHS_GEOGRAPHIES` keys the reconciler reads. |
| QofLoading.QofTablesKeys | src/data/data_loading.py:89-99 | The dictionary's keys are exactly the keys of members ending in the suffix, each once. Other members add no entry. |
| QofLoading.QofTablesLastWins | src/data/data_loading.py:99 | a key's table is that of the last member with the suffix that has that key (last write wins). |
| QofLoading.QofTablesTagged | src/data/data_loading.py:97 | every stored table has `DATE_RANGE` equal to the range token on every row. |
| QofLoading.QofExtractFails | src/data/data_loading.py:88 | the extractor fails exactly when the archive is missing. |
| QofLoading.ReversedTwice | src/data/data_loading.py:154 | Reversing twice restores the list. Calls that share the default list therefore alternate between the two orders. |
| QofLoading.DefaultRangesOrder | src/data/data_loading.py:137-154 | the first call reads the default ranges as `2122`, `2021`, `1920`, and the next call reads them in the original order. |
| QofLoading.GetQofDatasets | src/data/data_loading.py:136-161 | The method reverses the caller's list in place. It returns exactly `QofDatasets` over the reversed list. |
| QofLoading.QofDatasetsFails | src/data/data_loading.py:156-159 | the collector succeeds exactly when every range's archive exists, and otherwise reports the first missing one. |
| QofLoading.QofDatasetsContents | src/data/data_loading.py:156-159 | on success every range is a key, exactly once, mapped to the extraction of its archive. |
| QofLoading.QofDatasetsOrder | src/data/data_loading.py:156-159 | with distinct ranges the keys are the ranges in the order read, newest first after the reversal. |
| PrevalenceTables.GetMappedPracticePrevalenceDf | src/data/tables.py:41-90 | The method reverses the shared default list as the QOF collector does. It returns exactly `PracticePrevalence` over the reversed list. |
| PrevalenceTables.NewMappingRowsSpec | src/data/tables.py:74-77 | The filter keeps a row iff its practice code is not known. A known code loses all its rows; any other code keeps all of them. |
| PrevalenceTables.NewMappingRowsAppend | src/data/tables.py:74-77 | the filter keeps row order: filtering a concatenation concatenates the filtered parts. |
| PrevalenceTables.ReconciledFolded | src/data/tables.py:63-78 | On success every range had both tables. The reconciler has folded them in dictionary order. |
| PrevalenceTables.FoldedBeforeBase | src/data/tables.py:70-72 | While no mapping so far is non-empty, the accumulated mapping is the latest one, replaced wholesale. The known codes are its own `PRACTICE_CODE` values. |
| PrevalenceTables.FoldedFromBase | src/data/tables.py:70-78 | From the first non-empty mapping on, the mapping is that base followed by each later mapping's rows with codes not in the base. Existing rows never change, and the known codes stay the base's. |
| PrevalenceTables.FoldedPrevalence | src/data/tables.py:64-66 | every range's prevalence table is collected, in order. |
| PrevalenceTables.ReconciledMapping | src/data/tables.py:59-78 | the reconciled state of the ranges' dictionaries: the prevalence tables in order, and the mapping described by the two lemmas above. |
| PrevalenceTables.ReconciledFails | src/data/tables.py:64-68 | The call fails exactly when some range lacks one of the two tables, and the failure names the first such range. The prevalence table is looked up first. |
| PrevalenceTables.LaterRowsCount | src/data/tables.py:72-78 | the later mappings add no row for a base code, and every row for any other code. |
| PrevalenceTables.BaseCodesKeepBaseRows | src/data/tables.py:72-78 | A practice the base lists has exactly the base's rows in the reconciled mapping, in the base's order, and as many of them. No later range adds a row for it. |
| PrevalenceTables.LaterCodesAccumulate | src/data/tables.py:72-78 | A practice absent from the base but listed by two later ranges gets rows from both. It therefore appears at least twice, because the known codes are never updated. |
| PrevalenceTables.EveryKeyAppears | src/data/tables.py:70-78 | every code listed by a mapping from the base range on has at least one row in the reconciled mapping. |
| PrevalenceTables.MappedPrevalenceSpec | src/data/tables.py:82-86 | The table is built iff there is at least one range and every range has both tables. It is then the left join of the stacked prevalence tables with the reconciled mapping. It has at least as many rows as the prevalence tables together. |
| PrevalenceTables.DuplicatedPracticeDuplicatesFacts | src/data/tables.py:72-86 | A stacked prevalence row whose practice appears twice in the reconciled mapping comes out of the merged table as a block of two or more rows, in its place among the fact rows. The output therefore has more rows than the prevalence tables together. |
| PrevalenceTables.PracticePrevalenceFails | src/data/tables.py:57-90 | the whole call fails exactly when a QOF archive is missing, there are no ranges, or a range lacks one of the two tables. |

## Left out

- Zip and CSV I/O are not modelled. An archive is its sequence of named
  members, and each member stands for the table `read_csv` makes of it. The
  `cp1252` encoding, CSV parsing and dtype inference are not modelled.
- `src/data/date_writing.py` (a one-line `to_csv` wrapper) is not part of this model.
- `get_sub_icb_daily_df` is not part of this model. It is a date parse and
  column subset over the collector's output.
- The `print` diagnostics, including the `isna().sum()` report, and the
  `__main__` blocks are left out because they have no effect on the results.
- `return_subset_columns` of `get_mapped_practice_prevalence_df` is not
  modelled, because the function never reads it.
- A missing `PRACTICE_CODE` column raises `KeyError` in the source. In the
  model it reads as missing values that match each other, as pandas' `isin`
  and `merge` treat missing values.
- Column sets are the union of the rows' keys. A table with no rows therefore
  has no columns, and the column order and the row index are not modelled. A missing value is a missing key, so a
  table whose rows hold only missing values counts as empty here, whereas
  pandas' `.empty` is false for it; this can change which mapping becomes the
  base (src/data/tables.py:70).
- Frames.JoinRowMatched: values are stated only when the renamed result
  columns are pairwise distinct (`Frames.DistinctResultColumns`). Renaming can
  make two columns of the same side share a name. pandas 2.0 and later raise
  `MergeError` for that, and earlier versions only warn. A renamed fact
  column can also share a name with a mapping column. pandas raises nothing
  for that and returns both columns under the same name. The model raises no
  error and keeps a single column in both cases. Within one side it holds the
  renamed column's value; across the two sides it holds the mapping's.
- Frames.JoinRowUnmatched: likewise, the fact values are stated only when the
  fact row's renamed columns are pairwise distinct.
- Periods.ParseMonthYear: ASCII digits only. Python's `\d` in `%y` also
  accepts other Unicode decimal digits, which are not modelled. The empty
  token and the NaT spellings are modelled by `Periods.ToDatetime`: they tag
  rows with a missing date.
- Column names that differ between years are not reconciled, because the
  source itself says it does not handle them.
- The two pipelines' failures (`FileNotFoundError`, `ValueError` from
  `pd.concat` or `pd.to_datetime`, `KeyError`) are collapsed into one `Error`
  datatype that names the cause. Exception types and messages are not modelled.
