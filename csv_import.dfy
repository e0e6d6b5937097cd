/**
 * What the import does with the rows Papa.parse hands to its `complete`
 * callback (`result.data`, read without header mode): check the header's
 * length and first label, check every data row's length against the
 * header's, then build one record per data row.
 */
module CsvImport {
  import opened Roster
  import opened Csv
  import opened Export

  datatype ImportError = InvalidFormat | InconsistentRowLength

  /**
   * Imported: the roster that replaces the current one. Rejected: the
   * roster stays and the message is set. NoHeaderRow: `result.data` was
   * empty, so reading `headers.length` throws and nothing is changed.
   */
  datatype Outcome = Imported(roster: seq<Student>) | Rejected(error: ImportError) | NoHeaderRow

  const SuccessMessage: string := "Import successful!"

  function ErrorMessage(e: ImportError): (m: string)
    ensures "Error: " <= m && m != SuccessMessage
  {
    match e
    case InvalidFormat => "Error: Invalid CSV format."
    case InconsistentRowLength => "Error: Inconsistent row length."
  }

  /** The header the import accepts: one column per day shown, after "Name". */
  function HeaderAccepted(header: seq<string>, dayCount: nat): (ok: bool)
    ensures ok ==> |header| >= 1 && header[0] == "Name"
    ensures |header| == dayCount + 5 ==> !ok
  {
    |header| == dayCount + 1 && header[0] == "Name"
  }

  /**
   * The data-row check, one row after the other: it fails at the first row
   * whose length is not `len`, and passes exactly when every row has it.
   */
  function RowsOfLength(rows: seq<seq<string>>, len: nat): (ok: bool)
    ensures ok <==> forall k :: 0 <= k < |rows| ==> |rows[k]| == len
  {
    if |rows| == 0 then true
    else if |rows[0]| != len then false
    else
      var rest := RowsOfLength(rows[1..], len);
      assert forall k :: 1 <= k < |rows| ==> rows[k] == rows[1..][k - 1];
      rest
  }

  /**
   * `{ name: row[0], attendance: row.slice(1, dayCount + 1).map(day => day === 'Present') }`
   * on a row long enough for the slice.
   */
  function ToStudent(row: seq<string>, dayCount: nat): (st: Student)
    requires |row| >= dayCount + 1
    ensures st.name == row[0]
    ensures |st.attendance| == dayCount
    ensures forall i :: 0 <= i < dayCount ==> (st.attendance[i] <==> row[1 + i] == "Present")
  {
    Student(row[0], seq(dayCount, i requires 0 <= i < dayCount => row[1 + i] == "Present"))
  }

  function ImportRows(rows: seq<seq<string>>, dayCount: nat): (r: Outcome)
    ensures r.Imported? ==> |rows| > 0 && HeaderAccepted(rows[0], dayCount)
    ensures r.Imported? ==> forall k :: 1 <= k < |rows| ==> |rows[k]| == dayCount + 1
    ensures r.Imported? ==> |r.roster| == |rows| - 1 && forall k :: 0 <= k < |r.roster| ==>
      r.roster[k] == ToStudent(rows[k + 1], dayCount)
  {
    if |rows| == 0 then NoHeaderRow
    else if !HeaderAccepted(rows[0], dayCount) then Rejected(InvalidFormat)
    else if !RowsOfLength(rows[1..], |rows[0]|) then Rejected(InconsistentRowLength)
    else
      assert forall k :: 1 <= k < |rows| ==> rows[k] == rows[1..][k - 1];
      Imported(seq(|rows| - 1, k requires 0 <= k < |rows| - 1 => ToStudent(rows[k + 1], dayCount)))
  }

  /**
   * The three outcomes, each exactly when its condition holds: no rows; a
   * header of the wrong length or not starting with "Name"; a data row
   * whose length differs from the header's. Otherwise every data row
   * becomes the record of its name and its "Present" marks.
   */
  lemma ImportRowsOutcome(rows: seq<seq<string>>, dayCount: nat)
    ensures ImportRows(rows, dayCount) == NoHeaderRow <==> |rows| == 0
    ensures ImportRows(rows, dayCount) == Rejected(InvalidFormat) <==>
      |rows| > 0 && (|rows[0]| != dayCount + 1 || rows[0][0] != "Name")
    ensures ImportRows(rows, dayCount) == Rejected(InconsistentRowLength) <==>
      |rows| > 0 && HeaderAccepted(rows[0], dayCount) &&
      exists k :: 1 <= k < |rows| && |rows[k]| != |rows[0]|
    ensures ImportRows(rows, dayCount).Imported? ==>
      forall k :: 1 <= k < |rows| ==>
        var st := ImportRows(rows, dayCount).roster[k - 1];
        st.name == rows[k][0] && |st.attendance| == dayCount &&
        forall i :: 0 <= i < dayCount ==> (st.attendance[i] <==> rows[k][1 + i] == "Present")
  {
    if |rows| > 0 && HeaderAccepted(rows[0], dayCount) {
      if !RowsOfLength(rows[1..], |rows[0]|) {
        var j :| 0 <= j < |rows[1..]| && |rows[1..][j]| != |rows[0]|;
        assert |rows[j + 1]| != |rows[0]|;
      } else {
        forall k | 1 <= k < |rows|
          ensures |rows[k]| == |rows[0]|
        {
          assert rows[k] == rows[1..][k - 1];
        }
      }
    }
  }

  /**
   * A data row read back from an exported row decodes to the record it was
   * written from: the layout of the name and the marks agrees with the
   * import's reading of them.
   */
  lemma ExportedRowDecodes(st: Student, percentText: (nat, nat) -> string)
    ensures ToStudent(StudentRow(st, |st.attendance|, percentText), |st.attendance|) == st
  {
    var n := |st.attendance|;
    var row := StudentRow(st, n, percentText);
    StudentRowLayout(st, n, percentText);
    var back := ToStudent(row, n);
    assert back.attendance == st.attendance;
  }

  /**
   * The export writes |days| + 5 header fields and the import demands
   * |days| + 1, so a file that starts with an exported header is always
   * rejected as an invalid format, whatever follows it.
   */
  lemma ExportedHeaderRejected(days: seq<int>, dayString: int -> string, rest: seq<seq<string>>)
    ensures ImportRows([HeaderRow(days, dayString)] + rest, |days|) == Rejected(InvalidFormat)
  {
  }

  /**
   * Export followed by import never round-trips: reading the exported text
   * back and importing it leaves the roster unchanged with the
   * invalid-format message. Only the header line decides this, so names and
   * percentage texts may hold anything; the day labels must not hold a
   * comma or a line break, which no toDateString result does.
   */
  lemma ExportThenImportRejected(students: seq<Student>, days: seq<int>, dayString: int -> string,
                                 percentText: (nat, nat) -> string)
    requires forall i :: 0 <= i < |days| ==> CleanField(dayString(days[i]))
    ensures ImportRows(ReadRows(ExportText(students, days, dayString, percentText)), |days|) ==
      Rejected(InvalidFormat)
  {
    var rows := ExportRows(students, days, dayString, percentText);
    HeaderRowClean(days, dayString);
    ReadRowsFirstLine(rows);
    var back := ReadRows(CsvText(rows));
    assert back[0] == HeaderRow(days, dayString);
    assert back == [back[0]] + back[1..];
    ExportedHeaderRejected(days, dayString, back[1..]);
  }

  /**
   * Papa.parse turns the line break that ends a file into a last row [""].
   * With at least one day shown, that row is shorter than any accepted
   * header, so a file that ends with a line break is never imported; a
   * file that is only that line fails at the header.
   */
  lemma TrailingEmptyRowRejected(rows: seq<seq<string>>, dayCount: nat)
    requires dayCount >= 1 && |rows| >= 1 && rows[|rows| - 1] == [""]
    ensures ImportRows(rows, dayCount).Rejected?
  {
    if |rows| >= 2 && HeaderAccepted(rows[0], dayCount) {
      assert rows[1..][|rows| - 2] == [""];
    }
  }

  /**
   * With no day shown, the accepted header is ["Name"] and that trailing
   * [""] row passes the length check: it is imported as an extra record
   * with an empty name.
   */
  lemma TrailingEmptyRowWithoutDays(rows: seq<seq<string>>)
    requires |rows| >= 2 && rows[0] == ["Name"] && rows[|rows| - 1] == [""]
    requires forall k :: 1 <= k < |rows| ==> |rows[k]| == 1
    ensures ImportRows(rows, 0).Imported?
    ensures ImportRows(rows, 0).roster[|rows| - 2] == Student("", [])
  {
    assert RowsOfLength(rows[1..], 1) by {
      forall k | 0 <= k < |rows| - 1
        ensures |rows[1..][k]| == 1
      {
        assert rows[1..][k] == rows[k + 1];
      }
    }
  }
}
