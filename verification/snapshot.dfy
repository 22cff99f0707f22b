/** The CSV files the tracker keeps (`save_stargazers` and
    `read_previous_stargazers`), seen as sequences of rows. */
module Snapshot {
  import opened Wrappers

  /** One CSV record: its fields in order. */
  type Row = seq<string>

  /** A file on disk: `None` when it does not exist, else its records. */
  type CsvFile = Option<seq<Row>>

  /** The single header record written before the logins. */
  const Header: Row := ["login"]

  /** The ways reading an existing snapshot fails. In the program each one is
      an uncaught exception that ends the run. */
  datatype ReadError =
    | MissingHeader        // the file exists but has no record: `next(reader)` raises
    | EmptyRow(index: nat) // record `index` has no field: `row[0]` raises

  /** `save_stargazers(logins, filename)`: the file is replaced by the header
      record followed by one single-field record per login, in list order. */
  function Save(logins: seq<string>): (f: CsvFile)
    ensures f.Some? && |f.value| == |logins| + 1
    ensures f.value[0] == Header
    ensures forall i :: 0 <= i < |logins| ==> f.value[i + 1] == [logins[i]]
  {
    Some([Header] + seq(|logins|, i requires 0 <= i < |logins| => [logins[i]]))
  }

  /** The first field of each of `rows`, failing at the first record that has
      none; `offset` is the position of `rows[0]` in the file. */
  function FirstColumn(rows: seq<Row>, offset: nat): (r: Result<seq<string>, ReadError>)
    ensures r.Success? <==> forall i :: 0 <= i < |rows| ==> |rows[i]| > 0
    ensures r.Success? ==> |r.value| == |rows| && forall i :: 0 <= i < |rows| ==> r.value[i] == rows[i][0]
    ensures r.Failure? ==> exists i :: 0 <= i < |rows| && rows[i] == [] && r.error == EmptyRow(offset + i)
  {
    if |rows| == 0 then Success([])
    else if |rows[0]| == 0 then Failure(EmptyRow(offset))
    else
      var rest :- FirstColumn(rows[1..], offset + 1);
      Success([rows[0][0]] + rest)
  }

  /** `read_previous_stargazers()`: a missing file reads as the empty list;
      otherwise the first record is skipped as the header and the first field
      of every later record is returned, in file order. */
  function ReadPrevious(f: CsvFile): (r: Result<seq<string>, ReadError>)
    ensures f.None? ==> r == Success([])
    ensures f == Some([]) ==> r == Failure(MissingHeader)
    ensures f.Some? && r.Success? ==>
              |r.value| == |f.value| - 1 && forall i :: 0 <= i < |r.value| ==> |f.value[i + 1]| > 0 && r.value[i] == f.value[i + 1][0]
  {
    match f
    case None => Success([])
    case Some(rows) =>
      if |rows| == 0 then Failure(MissingHeader) else FirstColumn(rows[1..], 1)
  }

  /** Reading back a saved list returns that list: the header written first is
      the record skipped, and every login comes back from its own record. */
  lemma SaveThenRead(logins: seq<string>)
    ensures ReadPrevious(Save(logins)) == Success(logins)
  {
    var rows := Save(logins).value;
    assert forall i :: 0 <= i < |logins| ==> rows[1..][i] == [logins[i]];
    var r := FirstColumn(rows[1..], 1);
    assert r.Success?;
    assert r.value == logins;
  }

  /** Distinct lists are saved as distinct files. */
  lemma SaveInjective(a: seq<string>, b: seq<string>)
    requires Save(a) == Save(b)
    ensures a == b
  {
  }

  /** A snapshot fails to read exactly when it exists and either has no
      header record or has a later record without any field. */
  lemma ReadFailsExactly(f: CsvFile)
    ensures ReadPrevious(f).Failure? <==>
              f.Some? && (|f.value| == 0 || exists i :: 1 <= i < |f.value| && f.value[i] == [])
  {
  }
}
