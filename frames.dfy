/** The slice of pandas the pipeline uses: tables as sequences of rows, row-wise
    concatenation (`pd.concat`), scalar column assignment (`df[col] = v`),
    `df.empty`, a column as a series (`df[col]`) and the left merge
    (`pd.merge(how="left", on=...)`) with pandas' default `_x`/`_y` suffixes. */
module Frames {
  import opened Wrappers

  /** A scalar cell. Cells the CSV reader produces are identified by their text;
      a month tag is a pandas timestamp at midnight on the given day. */
  datatype Value = Cell(text: string) | Timestamp(year: int, month: int, day: int)

  /** A row maps column names to values; a column absent from the map holds a
      missing value (NaN). */
  type Row = map<string, Value>

  type Table = seq<Row>

  /** `pd.concat(tables)`: the rows of every table, table after table. */
  function Concat(ts: seq<Table>): Table
  {
    if ts == [] then [] else Concat(ts[..|ts| - 1]) + ts[|ts| - 1]
  }

  /** The sum of the row counts of `ts`. */
  function TotalRows(ts: seq<Table>): nat
  {
    if ts == [] then 0 else TotalRows(ts[..|ts| - 1]) + |ts[|ts| - 1]|
  }

  lemma ConcatSnoc(ts: seq<Table>, t: Table)
    ensures Concat(ts + [t]) == Concat(ts) + t
    ensures TotalRows(ts + [t]) == TotalRows(ts) + |t|
  {
    assert (ts + [t])[..|ts|] == ts;
  }

  /** Concatenation loses and adds no row: its length is the sum of the parts'. */
  lemma {:induction false} ConcatLength(ts: seq<Table>)
    ensures |Concat(ts)| == TotalRows(ts)
  {
    if ts != [] {
      ConcatLength(ts[..|ts| - 1]);
    }
  }

  lemma {:induction false} ConcatAppend(x: seq<Table>, y: seq<Table>)
    ensures Concat(x + y) == Concat(x) + Concat(y)
    decreases |y|
  {
    if y == [] {
      assert x + y == x;
    } else {
      var y' := y[..|y| - 1];
      assert (x + y)[..|x + y| - 1] == x + y';
      ConcatAppend(x, y');
    }
  }

  /** `df[col] = v` with a scalar `v`: every row gets `col` set to `v`, and every
      other column keeps its value. */
  function SetColumn(t: Table, col: string, v: Value): (r: Table)
    ensures |r| == |t|
    ensures forall i :: 0 <= i < |r| ==> r[i].Keys == t[i].Keys + {col} && r[i][col] == v
    ensures forall i, c :: 0 <= i < |r| && c in t[i] && c != col ==> r[i][c] == t[i][c]
  {
    seq(|t|, i requires 0 <= i < |t| => t[i][col := v])
  }

  /** `df[col] = NaT`: every row loses its value in `col`, which is how a
      missing value is written here; the other columns keep theirs. */
  function ClearColumn(t: Table, col: string): (r: Table)
    ensures |r| == |t|
    ensures forall i :: 0 <= i < |r| ==> r[i].Keys == t[i].Keys - {col}
    ensures forall i, c :: 0 <= i < |r| && c in r[i] ==> r[i][c] == t[i][c]
  {
    seq(|t|, i requires 0 <= i < |t| => t[i] - {col})
  }

  /** `df.empty`: the table has no rows, or no columns at all. Since a missing
      value is a missing key, a table of rows that hold only missing values
      counts as empty here too. */
  predicate IsEmpty(t: Table)
  {
    |t| == 0 || forall i :: 0 <= i < |t| ==> t[i] == map[]
  }

  /** The value of `col` in one row, `None` where it is missing. Pandas matches
      missing keys with each other, in `isin` and in `merge` alike. */
  function KeyOf(row: Row, col: string): Option<Value>
  {
    if col in row then Some(row[col]) else None
  }

  /** `df[col]` as a sequence, one entry per row. */
  function KeyColumn(t: Table, col: string): (ks: seq<Option<Value>>)
    ensures |ks| == |t|
    ensures forall i :: 0 <= i < |t| ==> ks[i] == KeyOf(t[i], col)
  {
    seq(|t|, i requires 0 <= i < |t| => KeyOf(t[i], col))
  }

  /** The columns of a table: every column some row has. */
  function Columns(t: Table): (cs: set<string>)
    ensures forall i :: 0 <= i < |t| ==> t[i].Keys <= cs
    ensures forall c :: c in cs ==> exists i :: 0 <= i < |t| && c in t[i]
  {
    if t == [] then {}
    else
      var init := Columns(t[..|t| - 1]);
      assert forall i :: 0 <= i < |t| - 1 ==> t[..|t| - 1][i] == t[i];
      init + t[|t| - 1].Keys
  }

  /** The columns `pd.merge` renames: those both sides have, other than the join key. */
  function Overlap(l: Table, r: Table, on: string): set<string>
  {
    (Columns(l) * Columns(r)) - {on}
  }

  /** The name a column gets in a merge result. */
  function Renamed(c: string, overlap: set<string>, sfx: string): string
  {
    if c in overlap then c + sfx else c
  }

  lemma SuffixInjective(a: string, b: string, sfx: string)
    requires a + sfx == b + sfx
    ensures a == b
  {
    assert a == (a + sfx)[..|a|];
    assert b == (b + sfx)[..|b|];
  }

  /** The columns of `row` outside the overlap, unchanged. */
  function Kept(row: Row, overlap: set<string>): (k: Row)
    ensures forall c :: c in k <==> c in row && c !in overlap
    ensures forall c :: c in k ==> k[c] == row[c]
  {
    map c | c in row && c !in overlap :: row[c]
  }

  /** The overlapping columns of `row`, each renamed `c + sfx`. */
  function Moved(row: Row, overlap: set<string>, sfx: string): (m: Row)
    ensures forall c :: c in row && c in overlap ==> c + sfx in m && m[c + sfx] == row[c]
    ensures forall c :: c in m ==> exists c0 :: c0 in row && c0 in overlap && c == c0 + sfx
  {
    forall a, b | a + sfx == b + sfx ensures a == b {
      SuffixInjective(a, b, sfx);
    }
    map c | c in row && c in overlap :: c + sfx := row[c]
  }

  /** One side of a merge result: every overlapping column `c` of `row` renamed
      `c + sfx`, every other column kept. */
  function Suffixed(row: Row, overlap: set<string>, sfx: string): Row
  {
    Kept(row, overlap) + Moved(row, overlap, sfx)
  }

  /** Every column `c` of the row appears as `Renamed(c)` and nothing else
      appears; an overlapping column's value moves to `c + sfx`. */
  lemma SuffixedKeys(row: Row, overlap: set<string>, sfx: string)
    ensures forall c :: c in row ==> Renamed(c, overlap, sfx) in Suffixed(row, overlap, sfx)
    ensures forall c :: c in Suffixed(row, overlap, sfx) ==>
      (c in row && c !in overlap) || exists c0 :: c0 in row && c0 in overlap && c == c0 + sfx
    ensures forall c :: c in row && c in overlap ==> Suffixed(row, overlap, sfx)[c + sfx] == row[c]
  {
    var kept, moved := Kept(row, overlap), Moved(row, overlap, sfx);
    forall c | c in row ensures Renamed(c, overlap, sfx) in kept + moved {
      if c in overlap {
        assert c + sfx in moved;
      } else {
        assert c in kept;
      }
    }
  }

  /** Renaming with `sfx` gives the columns of `row` pairwise distinct names. */
  predicate RenamingInjective(row: Row, overlap: set<string>, sfx: string)
  {
    forall c, c' :: c in row && c' in row && c != c' ==> Renamed(c, overlap, sfx) != Renamed(c', overlap, sfx)
  }

  /** The columns of a merged row, a fact part `x` and a mapping part `y`, all
      get distinct names. When renaming makes two columns of one side share a
      name, `pd.merge` raises `MergeError` (pandas 2.0 on; earlier versions
      warn); when a fact column and a mapping column end up with the same name
      it returns both. The model keeps one column either way. */
  predicate DistinctResultColumns(x: Row, y: Row, overlap: set<string>)
  {
    && RenamingInjective(x, overlap, "_x")
    && RenamingInjective(y, overlap, "_y")
    && forall c, d :: c in x && d in y ==> Renamed(c, overlap, "_x") != Renamed(d, overlap, "_y")
  }

  /** When no two columns are renamed alike, every column's value sits under
      its new name. */
  lemma SuffixedValues(row: Row, overlap: set<string>, sfx: string)
    requires RenamingInjective(row, overlap, sfx)
    ensures forall c :: c in row ==>
      (Renamed(c, overlap, sfx) in Suffixed(row, overlap, sfx) &&
       Suffixed(row, overlap, sfx)[Renamed(c, overlap, sfx)] == row[c])
  {
    SuffixedKeys(row, overlap, sfx);
    var kept, moved := Kept(row, overlap), Moved(row, overlap, sfx);
    forall c | c in row && c !in overlap ensures c !in moved {
      forall c0 | c0 in row && c0 in overlap ensures c != c0 + sfx {
        assert Renamed(c0, overlap, sfx) != Renamed(c, overlap, sfx);
      }
    }
  }

  /** The rows of `r` whose `on` value is `k`, in their order. */
  function MatchingRows(r: Table, on: string, k: Option<Value>): (m: Table)
    ensures forall j :: 0 <= j < |m| ==> KeyOf(m[j], on) == k
  {
    if r == [] then []
    else MatchingRows(r[..|r| - 1], on, k) + if KeyOf(r[|r| - 1], on) == k then [r[|r| - 1]] else []
  }

  /** The number of matches is the multiplicity of the key in the key column. */
  lemma {:induction false} MatchingRowsCount(r: Table, on: string, k: Option<Value>)
    ensures |MatchingRows(r, on, k)| == multiset(KeyColumn(r, on))[k]
  {
    if r != [] {
      var init := r[..|r| - 1];
      assert KeyColumn(r, on) == KeyColumn(init, on) + [KeyOf(r[|r| - 1], on)];
      MatchingRowsCount(init, on, k);
    }
  }

  /** The rows one left-hand row contributes to a left merge: one row per
      matching right-hand row, or the left row alone when nothing matches. */
  function JoinRow(row: Row, r: Table, on: string, overlap: set<string>): Table
  {
    var m := MatchingRows(r, on, KeyOf(row, on));
    if m == [] then [Suffixed(row, overlap, "_x")]
    else seq(|m|, j requires 0 <= j < |m| => Suffixed(row, overlap, "_x") + Suffixed(m[j] - {on}, overlap, "_y"))
  }

  /** The blocks of a left merge, one per fact row, in fact order. */
  function JoinBlocks(l: Table, r: Table, on: string, overlap: set<string>): (bs: seq<Table>)
    ensures |bs| == |l|
    ensures forall i :: 0 <= i < |l| ==> bs[i] == JoinRow(l[i], r, on, overlap)
  {
    seq(|l|, i requires 0 <= i < |l| => JoinRow(l[i], r, on, overlap))
  }

  lemma JoinBlocksTake(l: Table, r: Table, on: string, overlap: set<string>, n: nat)
    requires n <= |l|
    ensures JoinBlocks(l, r, on, overlap)[..n] == JoinBlocks(l[..n], r, on, overlap)
  {
  }

  lemma JoinBlocksDrop(l: Table, r: Table, on: string, overlap: set<string>, n: nat)
    requires n <= |l|
    ensures JoinBlocks(l, r, on, overlap)[n..] == JoinBlocks(l[n..], r, on, overlap)
  {
    var bs, cs := JoinBlocks(l, r, on, overlap)[n..], JoinBlocks(l[n..], r, on, overlap);
    forall k | 0 <= k < |l| - n ensures bs[k] == cs[k] {
      assert l[n..][k] == l[n + k];
    }
  }

  function MergeRows(l: Table, r: Table, on: string, overlap: set<string>): Table
  {
    Concat(JoinBlocks(l, r, on, overlap))
  }

  /** `pd.merge(left=l, right=r, how="left", on=on)`. */
  function LeftMerge(l: Table, r: Table, on: string): Table
  {
    MergeRows(l, r, on, Overlap(l, r, on))
  }

  /** What a left merge promises about its size: each left row yields as many
      rows as it has matches, and at least one. */
  function MergedSize(l: Table, r: Table, on: string): nat
  {
    if l == [] then 0
    else
      var n := multiset(KeyColumn(r, on))[KeyOf(l[|l| - 1], on)];
      MergedSize(l[..|l| - 1], r, on) + (if n == 0 then 1 else n)
  }

  lemma ConcatSplit(front: seq<Table>, t: Table, back: seq<Table>)
    ensures Concat(front + [t] + back) == Concat(front) + t + Concat(back)
  {
    ConcatAppend(front + [t], back);
    ConcatSnoc(front, t);
  }

  lemma ConcatSplitAt(ts: seq<Table>, i: nat)
    requires i < |ts|
    ensures Concat(ts) == Concat(ts[..i]) + ts[i] + Concat(ts[i + 1..])
  {
    AroundIndex(ts, i);
    ConcatSplit(ts[..i], ts[i], ts[i + 1..]);
  }

  lemma AroundIndex<T>(s: seq<T>, i: nat)
    requires i < |s|
    ensures s == s[..i] + [s[i]] + s[i + 1..]
  {
  }

  /** The left merge keeps fact order: row `l[i]`'s block of output rows sits
      between the blocks of the rows before it and those after it. */
  lemma LeftMergeBlocks(l: Table, r: Table, on: string, i: nat)
    requires i < |l|
    ensures var ov := Overlap(l, r, on);
      LeftMerge(l, r, on) == MergeRows(l[..i], r, on, ov) + JoinRow(l[i], r, on, ov) + MergeRows(l[i + 1..], r, on, ov)
  {
    MergeRowsSplit(l, r, on, Overlap(l, r, on), i);
  }

  lemma MergeRowsSplit(l: Table, r: Table, on: string, overlap: set<string>, i: nat)
    requires i < |l|
    ensures MergeRows(l, r, on, overlap)
      == MergeRows(l[..i], r, on, overlap) + JoinRow(l[i], r, on, overlap) + MergeRows(l[i + 1..], r, on, overlap)
  {
    var bs := JoinBlocks(l, r, on, overlap);
    ConcatSplitAt(bs, i);
    JoinBlocksTake(l, r, on, overlap, i);
    JoinBlocksDrop(l, r, on, overlap, i + 1);
  }

  lemma {:induction false} BlocksSize(l: Table, r: Table, on: string, overlap: set<string>)
    ensures TotalRows(JoinBlocks(l, r, on, overlap)) == MergedSize(l, r, on)
  {
    if l != [] {
      var init := l[..|l| - 1];
      BlocksSize(init, r, on, overlap);
      assert JoinBlocks(l, r, on, overlap)[..|l| - 1] == JoinBlocks(init, r, on, overlap);
      JoinRowSize(l[|l| - 1], r, on, overlap);
    }
  }

  /** The size of a left merge: each fact row yields max(1, number of matches) rows. */
  lemma LeftMergeSize(l: Table, r: Table, on: string, overlap: set<string>)
    ensures |MergeRows(l, r, on, overlap)| == MergedSize(l, r, on) >= |l|
  {
    ConcatLength(JoinBlocks(l, r, on, overlap));
    BlocksSize(l, r, on, overlap);
    MergedSizeAtLeast(l, r, on);
  }

  lemma {:induction false} MergedSizeAtLeast(l: Table, r: Table, on: string)
    ensures MergedSize(l, r, on) >= |l|
  {
    if l != [] {
      MergedSizeAtLeast(l[..|l| - 1], r, on);
    }
  }

  lemma {:induction false} MergedSizeExact(l: Table, r: Table, on: string)
    ensures MergedSize(l, r, on) == |l| <==>
      forall i :: 0 <= i < |l| ==> multiset(KeyColumn(r, on))[KeyOf(l[i], on)] <= 1
  {
    if l != [] {
      var init := l[..|l| - 1];
      MergedSizeExact(init, r, on);
      MergedSizeAtLeast(init, r, on);
      assert forall i :: 0 <= i < |init| ==> init[i] == l[i];
    }
  }

  /** Every fact row is kept, and the merge has exactly as many rows as the
      fact table precisely when no fact row matches more than one mapping row. */
  lemma LeftMergeRowCount(l: Table, r: Table, on: string)
    ensures |LeftMerge(l, r, on)| >= |l|
    ensures |LeftMerge(l, r, on)| == |l| <==>
      forall i :: 0 <= i < |l| ==> multiset(KeyColumn(r, on))[KeyOf(l[i], on)] <= 1
  {
    LeftMergeSize(l, r, on, Overlap(l, r, on));
    MergedSizeExact(l, r, on);
  }

  lemma {:induction false} DistinctCountAtMostOne<T>(s: seq<T>, x: T)
    requires forall i, j :: 0 <= i < j < |s| ==> s[i] != s[j]
    ensures multiset(s)[x] <= 1
  {
    if s != [] {
      var init := s[..|s| - 1];
      assert s == init + [s[|s| - 1]];
      DistinctCountAtMostOne(init, x);
      if s[|s| - 1] == x {
        assert x !in init;
      }
    }
  }

  /** When the mapping's join keys are unique, the left merge has exactly one
      row per fact row. */
  lemma UniqueKeysKeepRowCount(l: Table, r: Table, on: string)
    requires forall i, j :: 0 <= i < j < |r| ==> KeyOf(r[i], on) != KeyOf(r[j], on)
    ensures |LeftMerge(l, r, on)| == |l|
  {
    forall i | 0 <= i < |l| ensures multiset(KeyColumn(r, on))[KeyOf(l[i], on)] <= 1 {
      DistinctCountAtMostOne(KeyColumn(r, on), KeyOf(l[i], on));
    }
    LeftMergeRowCount(l, r, on);
  }

  /** One fact row yields max(1, number of matching mapping rows) rows. */
  lemma JoinRowSize(row: Row, r: Table, on: string, overlap: set<string>)
    ensures var n := multiset(KeyColumn(r, on))[KeyOf(row, on)];
      |JoinRow(row, r, on, overlap)| == if n == 0 then 1 else n
  {
    MatchingRowsCount(r, on, KeyOf(row, on));
  }

  /** An unmatched fact row yields one row that holds only the fact row's own
      columns (overlapping ones renamed): every mapping column is missing there.
      Unless two of them clash once renamed, each keeps its value. */
  lemma JoinRowUnmatched(row: Row, r: Table, on: string, overlap: set<string>)
    requires multiset(KeyColumn(r, on))[KeyOf(row, on)] == 0
    ensures |JoinRow(row, r, on, overlap)| == 1
    ensures forall c :: c in row ==> Renamed(c, overlap, "_x") in JoinRow(row, r, on, overlap)[0]
    ensures forall c :: c in JoinRow(row, r, on, overlap)[0] ==>
      (c in row && c !in overlap) || exists c0 :: c0 in row && c0 in overlap && c == c0 + "_x"
    ensures RenamingInjective(row, overlap, "_x") ==>
      forall c :: c in row ==> JoinRow(row, r, on, overlap)[0][Renamed(c, overlap, "_x")] == row[c]
  {
    MatchingRowsCount(r, on, KeyOf(row, on));
    SuffixedKeys(row, overlap, "_x");
    if RenamingInjective(row, overlap, "_x") {
      SuffixedValues(row, overlap, "_x");
    }
  }

  /** A matched fact row yields, for the j-th matching mapping row, a row that
      keeps every fact column and every mapping column but the key, and carries
      the mapping row's value of every overlapping column under its `_y` name.
      Unless two result columns clash once renamed, every fact value and every
      mapping value but the key's sits under its new name. */
  lemma JoinRowMatched(row: Row, r: Table, on: string, overlap: set<string>, j: nat)
    requires j < multiset(KeyColumn(r, on))[KeyOf(row, on)]
    ensures var out := JoinRow(row, r, on, overlap); var m := MatchingRows(r, on, KeyOf(row, on));
      && j < |out| && j < |m| && KeyOf(m[j], on) == KeyOf(row, on)
      && (forall c :: c in row ==> Renamed(c, overlap, "_x") in out[j])
      && (forall c :: c in m[j] && c != on ==> Renamed(c, overlap, "_y") in out[j])
      && (forall c :: c in m[j] && c in overlap && c != on ==> out[j][c + "_y"] == m[j][c])
    ensures var out := JoinRow(row, r, on, overlap); var m := MatchingRows(r, on, KeyOf(row, on));
      j < |m| && DistinctResultColumns(row, m[j] - {on}, overlap) ==>
        && (forall c :: c in row ==> out[j][Renamed(c, overlap, "_x")] == row[c])
        && (forall c :: c in m[j] && c != on ==> out[j][Renamed(c, overlap, "_y")] == m[j][c])
  {
    MatchingRowsCount(r, on, KeyOf(row, on));
    var m := MatchingRows(r, on, KeyOf(row, on));
    JoinRowAt(row, r, on, overlap, j);
    MergedRowFacts(row, m[j], on, overlap);
  }

  /** What one merged row holds: the fact row joined with one matching
      mapping row, the mapping row's key dropped. */
  lemma MergedRowFacts(row: Row, mrow: Row, on: string, overlap: set<string>)
    ensures var out := Suffixed(row, overlap, "_x") + Suffixed(mrow - {on}, overlap, "_y");
      && (forall c :: c in row ==> Renamed(c, overlap, "_x") in out)
      && (forall c :: c in mrow && c != on ==> Renamed(c, overlap, "_y") in out)
      && (forall c :: c in mrow && c in overlap && c != on ==> out[c + "_y"] == mrow[c])
    ensures var out := Suffixed(row, overlap, "_x") + Suffixed(mrow - {on}, overlap, "_y");
      DistinctResultColumns(row, mrow - {on}, overlap) ==>
        && (forall c :: c in row ==> out[Renamed(c, overlap, "_x")] == row[c])
        && (forall c :: c in mrow && c != on ==> out[Renamed(c, overlap, "_y")] == mrow[c])
  {
    var x, y := Suffixed(row, overlap, "_x"), mrow - {on};
    var out := x + Suffixed(y, overlap, "_y");
    UnionKeeps(x, y, overlap, "_y");
    SuffixedKeys(row, overlap, "_x");
    forall c | c in mrow && c != on ensures Renamed(c, overlap, "_y") in out {
      assert c in y;
    }
    forall c | c in mrow && c in overlap && c != on ensures out[c + "_y"] == mrow[c] {
      assert c in y && y[c] == mrow[c];
    }
    if DistinctResultColumns(row, y, overlap) {
      JoinedValues(x, row, y, overlap);
      forall c | c in mrow && c != on ensures out[Renamed(c, overlap, "_y")] == mrow[c] {
        assert c in y && y[c] == mrow[c];
      }
    }
  }

  /** With distinct result names, a merged row holds every fact value and
      every mapping value under its new name. */
  lemma JoinedValues(x: Row, row: Row, y: Row, overlap: set<string>)
    requires x == Suffixed(row, overlap, "_x") && DistinctResultColumns(row, y, overlap)
    ensures forall c :: c in row ==> (x + Suffixed(y, overlap, "_y"))[Renamed(c, overlap, "_x")] == row[c]
    ensures forall d :: d in y ==> (x + Suffixed(y, overlap, "_y"))[Renamed(d, overlap, "_y")] == y[d]
  {
    SuffixedValues(row, overlap, "_x");
    SuffixedValues(y, overlap, "_y");
    FactNamesFree(row, y, overlap);
  }

  /** No renamed fact column is also a renamed mapping column. */
  lemma FactNamesFree(row: Row, y: Row, overlap: set<string>)
    requires DistinctResultColumns(row, y, overlap)
    ensures forall c :: c in row ==> Renamed(c, overlap, "_x") !in Suffixed(y, overlap, "_y")
  {
    SuffixedKeys(y, overlap, "_y");
    forall c | c in row ensures Renamed(c, overlap, "_x") !in Suffixed(y, overlap, "_y") {
      var n := Renamed(c, overlap, "_x");
      forall d | d in y ensures Renamed(d, overlap, "_y") != n {
      }
      assert n in y && n !in overlap ==> Renamed(n, overlap, "_y") == n;
      forall d | d in y && d in overlap ensures n != d + "_y" {
        assert Renamed(d, overlap, "_y") == d + "_y";
      }
    }
  }

  /** The j-th row a matched fact row yields joins it with its j-th match. */
  lemma JoinRowAt(row: Row, r: Table, on: string, overlap: set<string>, j: nat)
    requires j < |MatchingRows(r, on, KeyOf(row, on))|
    ensures var m := MatchingRows(r, on, KeyOf(row, on));
      |JoinRow(row, r, on, overlap)| == |m|
      && JoinRow(row, r, on, overlap)[j] == Suffixed(row, overlap, "_x") + Suffixed(m[j] - {on}, overlap, "_y")
  {
  }

  /** Joining a left part with a suffixed right row keeps the left part's
      columns and every renamed right column with its value. */
  lemma UnionKeeps(x: Row, y: Row, overlap: set<string>, sfx: string)
    ensures forall c :: c in x ==> c in x + Suffixed(y, overlap, sfx)
    ensures forall c :: c in y ==> Renamed(c, overlap, sfx) in x + Suffixed(y, overlap, sfx)
    ensures forall c :: c in y && c in overlap ==> (x + Suffixed(y, overlap, sfx))[c + sfx] == y[c]
  {
    SuffixedKeys(y, overlap, sfx);
  }
}
