/** Zip archives as the loaders see them, the files they live in, and the
    errors the pipeline can raise. An archive member's bytes are represented by
    the table the CSV reader makes of them. */
module Archives {
  import opened Frames

  /** One archive entry: its name in the listing and the table read from it. */
  datatype Member = Member(name: string, table: Table)

  /** The entries of one archive, in listing order. */
  type Archive = seq<Member>

  /** The archives reachable by path. */
  type FileSystem = map<string, Archive>

  /** The ways a run can fail. */
  datatype Error =
    | ArchiveNotFound(path: string)          // zipfile.ZipFile on a missing path
    | NoMatchingMembers(path: string)        // pd.concat of no tables in the monthly extractor
    | PeriodParseError(member: string)       // pd.to_datetime rejects the member's period token
    | NothingToConcatenate                   // pd.concat of no tables elsewhere
    | MissingTable(period: string, table: string)  // KeyError on a period's table dict

  /** `z.namelist()`: every entry's name, in order, duplicates included. */
  function Namelist(a: Archive): (names: seq<string>)
    ensures |names| == |a|
    ensures forall i :: 0 <= i < |a| ==> names[i] == a[i].name
  {
    seq(|a|, i requires 0 <= i < |a| => a[i].name)
  }

  /** `pd.read_csv(z.open(name))`: the table of the entry called `name`. The zip
      reader indexes entries by name, so when a name is listed twice the last
      entry wins. */
  function Open(a: Archive, name: string): Table
  {
    if a == [] then []
    else if a[|a| - 1].name == name then a[|a| - 1].table
    else Open(a[..|a| - 1], name)
  }

  /** Opening the last entry with a given name yields that entry's table; in
      particular, in an archive without repeated names every entry opens to its own table. */
  lemma {:induction false} OpenLastEntry(a: Archive, i: nat)
    requires i < |a|
    requires forall j :: i < j < |a| ==> a[j].name != a[i].name
    ensures Open(a, a[i].name) == a[i].table
  {
    if i < |a| - 1 {
      OpenLastEntry(a[..|a| - 1], i);
    }
  }
}
