/**
 * The rows of the CSV export: a header naming every weekend day shown and
 * the four totals, then one row per student. `dayString` stands for
 * Date.prototype.toDateString and `percentText` for the percentage rounded
 * with toFixed(2); both are opaque to this model.
 */
module Export {
  import opened Roster
  import opened Totals
  import opened Csv

  const TotalsLabels: seq<string> := ["Total Days", "Days Present", "Days Absent", "Percentage"]

  function HeaderRow(days: seq<int>, dayString: int -> string): (h: seq<string>)
    ensures |h| == |days| + 5
    ensures h[0] == "Name" && h[|days| + 1..] == TotalsLabels
    ensures forall i :: 0 <= i < |days| ==> h[1 + i] == dayString(days[i])
  {
    ["Name"] + seq(|days|, i requires 0 <= i < |days| => dayString(days[i])) + TotalsLabels
  }

  function Mark(attended: bool): (m: string)
    ensures m == "Present" <==> attended
    ensures m == "Absent" <==> !attended
    ensures CleanField(m)
  {
    if attended then "Present" else "Absent"
  }

  /** The four totals fields that close a student's row. */
  function TotalsFields(t: Totals, percentText: (nat, nat) -> string): (f: seq<string>)
    ensures |f| == 4
    ensures DecimalValue(f[0]) == t.totalDays && DecimalValue(f[1]) == t.totalPresent
    ensures SignedDecimalValue(f[2]) == t.totalAbsent
    ensures f[3] == percentText(t.totalPresent, t.totalDays)
    ensures CleanField(f[0]) && CleanField(f[1]) && CleanField(f[2])
  {
    NatToDecimalValue(t.totalDays);
    NatToDecimalValue(t.totalPresent);
    IntToDecimalValue(t.totalAbsent);
    [IntToDecimal(t.totalDays), IntToDecimal(t.totalPresent), IntToDecimal(t.totalAbsent),
     percentText(t.totalPresent, t.totalDays)]
  }

  /**
   * A student's row: the name, one mark per attendance cell, then the day
   * count, the present and absent counts, and the percentage text.
   */
  function StudentRow(st: Student, dayCount: nat, percentText: (nat, nat) -> string): (r: seq<string>)
    ensures |r| == |st.attendance| + 5
  {
    var att := st.attendance;
    [st.name] + seq(|att|, i requires 0 <= i < |att| => Mark(att[i]))
      + TotalsFields(CalculateTotals(att, dayCount), percentText)
  }

  /** The row is the name, the marks, then the four totals fields. */
  lemma StudentRowParts(st: Student, dayCount: nat, percentText: (nat, nat) -> string)
    ensures StudentRow(st, dayCount, percentText)[0] == st.name
    ensures StudentRow(st, dayCount, percentText)[|st.attendance| + 1..] ==
      TotalsFields(CalculateTotals(st.attendance, dayCount), percentText)
    ensures forall i :: 0 <= i < |st.attendance| ==>
      StudentRow(st, dayCount, percentText)[1 + i] == Mark(st.attendance[i])
  {
    var att := st.attendance;
    var marks := seq(|att|, i requires 0 <= i < |att| => Mark(att[i]));
    var tf := TotalsFields(CalculateTotals(att, dayCount), percentText);
    var r := StudentRow(st, dayCount, percentText);
    assert r == ([st.name] + marks) + tf;
  }

  /**
   * In a student's row, field 0 is the name, field 1 + i is "Present"
   * exactly when the student attended day i and "Absent" otherwise, and the
   * next fields read back as the day count, the present count and the
   * absent count (the day count minus the present count, negative when the
   * record has more marks than days are shown), followed by the percentage
   * text of the present count over the day count.
   */
  lemma StudentRowLayout(st: Student, dayCount: nat, percentText: (nat, nat) -> string)
    ensures StudentRow(st, dayCount, percentText)[0] == st.name
    ensures forall i :: 0 <= i < |st.attendance| ==>
      var f := StudentRow(st, dayCount, percentText)[1 + i];
      (f == "Present" <==> st.attendance[i]) && (f == "Absent" <==> !st.attendance[i])
    ensures DecimalValue(StudentRow(st, dayCount, percentText)[|st.attendance| + 1]) == dayCount
    ensures DecimalValue(StudentRow(st, dayCount, percentText)[|st.attendance| + 2]) ==
      multiset(st.attendance)[true]
    ensures SignedDecimalValue(StudentRow(st, dayCount, percentText)[|st.attendance| + 3]) ==
      dayCount - multiset(st.attendance)[true]
    ensures StudentRow(st, dayCount, percentText)[|st.attendance| + 4] ==
      percentText(multiset(st.attendance)[true], dayCount)
  {
    var n := |st.attendance|;
    var t := CalculateTotals(st.attendance, dayCount);
    var r := StudentRow(st, dayCount, percentText);
    StudentRowParts(st, dayCount, percentText);
    var tf := r[n + 1..];
    assert r[n + 1] == tf[0] && r[n + 2] == tf[1] && r[n + 3] == tf[2] && r[n + 4] == tf[3];
  }

  /** The header followed by one row per student, in roster order. */
  function ExportRows(students: seq<Student>, days: seq<int>, dayString: int -> string,
                      percentText: (nat, nat) -> string): (rows: seq<seq<string>>)
    ensures |rows| == |students| + 1
    ensures rows[0] == HeaderRow(days, dayString)
    ensures forall k :: 0 <= k < |students| ==>
      rows[k + 1] == StudentRow(students[k], |days|, percentText)
  {
    [HeaderRow(days, dayString)]
      + seq(|students|, k requires 0 <= k < |students| => StudentRow(students[k], |days|, percentText))
  }

  /** The file content after the `data:text/csv;charset=utf-8,` prefix. */
  function ExportText(students: seq<Student>, days: seq<int>, dayString: int -> string,
                      percentText: (nat, nat) -> string): (text: string)
    ensures Join(HeaderRow(days, dayString), ',') + "\n" <= text
    ensures text[|text| - 1] == '\n'
  {
    var rows := ExportRows(students, days, dayString, percentText);
    assert CsvText(rows) == Join(rows[0], ',') + "\n" + CsvText(rows[1..]);
    CsvText(rows)
  }

  /** The texts the export can write without breaking the unquoted format. */
  ghost predicate CleanInputs(students: seq<Student>, days: seq<int>, dayString: int -> string,
                        percentText: (nat, nat) -> string)
  {
    && (forall k :: 0 <= k < |students| ==> CleanField(students[k].name))
    && (forall i :: 0 <= i < |days| ==> CleanField(dayString(days[i])))
    && (forall p: nat, n: nat :: CleanField(percentText(p, n)))
  }

  /** Joining two runs of fields without character c gives a run without it. */
  lemma AvoidConcat(a: seq<string>, b: seq<string>, c: char)
    requires forall i :: 0 <= i < |a| ==> c !in a[i]
    requires forall i :: 0 <= i < |b| ==> c !in b[i]
    ensures forall i :: 0 <= i < |a + b| ==> c !in (a + b)[i]
  {
    forall i | 0 <= i < |a + b|
      ensures c !in (a + b)[i]
    {
      if i >= |a| {
        assert (a + b)[i] == b[i - |a|];
      }
    }
  }

  lemma TotalsFieldsClean(t: Totals, percentText: (nat, nat) -> string)
    requires forall p: nat, n: nat :: CleanField(percentText(p, n))
    ensures forall i :: 0 <= i < 4 ==> CleanField(TotalsFields(t, percentText)[i])
  {
    var f := TotalsFields(t, percentText);
    assert CleanField(f[3]);
  }

  lemma StudentRowClean(st: Student, dayCount: nat, percentText: (nat, nat) -> string)
    requires CleanField(st.name)
    requires forall p: nat, n: nat :: CleanField(percentText(p, n))
    ensures forall i :: 0 <= i < |StudentRow(st, dayCount, percentText)| ==>
      CleanField(StudentRow(st, dayCount, percentText)[i])
  {
    var att := st.attendance;
    var marks := seq(|att|, i requires 0 <= i < |att| => Mark(att[i]));
    var tf := TotalsFields(CalculateTotals(att, dayCount), percentText);
    TotalsFieldsClean(CalculateTotals(att, dayCount), percentText);
    AvoidConcat([st.name], marks, ',');
    AvoidConcat([st.name] + marks, tf, ',');
    AvoidConcat([st.name], marks, '\n');
    AvoidConcat([st.name] + marks, tf, '\n');
    assert StudentRow(st, dayCount, percentText) == [st.name] + marks + tf;
  }

  lemma HeaderRowClean(days: seq<int>, dayString: int -> string)
    requires forall i :: 0 <= i < |days| ==> CleanField(dayString(days[i]))
    ensures forall i :: 0 <= i < |HeaderRow(days, dayString)| ==> CleanField(HeaderRow(days, dayString)[i])
  {
    var labels := seq(|days|, i requires 0 <= i < |days| => dayString(days[i]));
    assert CleanField("Name");
    assert CleanField(TotalsLabels[0]) && CleanField(TotalsLabels[1]);
    assert CleanField(TotalsLabels[2]) && CleanField(TotalsLabels[3]);
    AvoidConcat(["Name"], labels, ',');
    AvoidConcat(["Name"] + labels, TotalsLabels, ',');
    AvoidConcat(["Name"], labels, '\n');
    AvoidConcat(["Name"] + labels, TotalsLabels, '\n');
    assert HeaderRow(days, dayString) == ["Name"] + labels + TotalsLabels;
  }

  lemma ExportRowsClean(students: seq<Student>, days: seq<int>, dayString: int -> string,
                        percentText: (nat, nat) -> string)
    requires CleanInputs(students, days, dayString, percentText)
    ensures CleanRows(ExportRows(students, days, dayString, percentText))
  {
    var rows := ExportRows(students, days, dayString, percentText);
    HeaderRowClean(days, dayString);
    forall k | 1 <= k < |rows|
      ensures forall i :: 0 <= i < |rows[k]| ==> CleanField(rows[k][i])
    {
      StudentRowClean(students[k - 1], |days|, percentText);
    }
  }

  lemma HeaderRowLineBreakFree(days: seq<int>, dayString: int -> string)
    requires forall i :: 0 <= i < |days| ==> '\n' !in dayString(days[i])
    ensures forall i :: 0 <= i < |HeaderRow(days, dayString)| ==> '\n' !in HeaderRow(days, dayString)[i]
  {
    var labels := seq(|days|, i requires 0 <= i < |days| => dayString(days[i]));
    assert CleanField("Name");
    assert CleanField(TotalsLabels[0]) && CleanField(TotalsLabels[1]);
    assert CleanField(TotalsLabels[2]) && CleanField(TotalsLabels[3]);
    AvoidConcat(["Name"], labels, '\n');
    AvoidConcat(["Name"] + labels, TotalsLabels, '\n');
    assert HeaderRow(days, dayString) == ["Name"] + labels + TotalsLabels;
  }

  lemma StudentRowLineBreakFree(st: Student, dayCount: nat, percentText: (nat, nat) -> string)
    requires '\n' !in st.name
    requires forall p: nat, n: nat :: '\n' !in percentText(p, n)
    ensures forall i :: 0 <= i < |StudentRow(st, dayCount, percentText)| ==>
      '\n' !in StudentRow(st, dayCount, percentText)[i]
  {
    var att := st.attendance;
    var marks := seq(|att|, i requires 0 <= i < |att| => Mark(att[i]));
    var tf := TotalsFields(CalculateTotals(att, dayCount), percentText);
    assert CleanField("Present") && CleanField("Absent");
    assert forall i :: 0 <= i < 3 ==> CleanField(tf[i]);
    assert '\n' !in tf[3];
    AvoidConcat([st.name], marks, '\n');
    AvoidConcat([st.name] + marks, tf, '\n');
    assert StudentRow(st, dayCount, percentText) == [st.name] + marks + tf;
  }

  /**
   * When no name, day label or percentage text holds a line break, the
   * export is exactly 1 + |students| newline-terminated lines: the joined
   * header, then each student's joined row in roster order. Commas inside
   * fields do not change the lines.
   */
  lemma ExportLines(students: seq<Student>, days: seq<int>, dayString: int -> string,
                    percentText: (nat, nat) -> string)
    requires forall k :: 0 <= k < |students| ==> '\n' !in students[k].name
    requires forall i :: 0 <= i < |days| ==> '\n' !in dayString(days[i])
    requires forall p: nat, n: nat :: '\n' !in percentText(p, n)
    ensures |Split(ExportText(students, days, dayString, percentText), '\n')| == |students| + 2
    ensures Split(ExportText(students, days, dayString, percentText), '\n')[0] ==
      Join(HeaderRow(days, dayString), ',')
    ensures forall k :: 0 <= k < |students| ==>
      Split(ExportText(students, days, dayString, percentText), '\n')[k + 1] ==
      Join(StudentRow(students[k], |days|, percentText), ',')
    ensures Split(ExportText(students, days, dayString, percentText), '\n')[|students| + 1] == ""
  {
    var rows := ExportRows(students, days, dayString, percentText);
    HeaderRowLineBreakFree(days, dayString);
    forall k | 1 <= k < |rows|
      ensures forall i :: 0 <= i < |rows[k]| ==> '\n' !in rows[k][i]
    {
      StudentRowLineBreakFree(students[k - 1], |days|, percentText);
    }
    SplitCsvText(rows);
  }

  /**
   * When no name, day label or percentage text holds a comma or a line
   * break, the export is exactly 1 + |students| newline-terminated lines,
   * and reading it back line by line and field by field gives the header,
   * the student rows and the empty row after the last line break.
   */
  lemma ExportTextReadsBack(students: seq<Student>, days: seq<int>, dayString: int -> string,
                            percentText: (nat, nat) -> string)
    requires CleanInputs(students, days, dayString, percentText)
    ensures |Split(ExportText(students, days, dayString, percentText), '\n')| == |students| + 2
    ensures Split(ExportText(students, days, dayString, percentText), '\n')[|students| + 1] == ""
    ensures ReadRows(ExportText(students, days, dayString, percentText)) ==
      ExportRows(students, days, dayString, percentText) + [[""]]
  {
    var rows := ExportRows(students, days, dayString, percentText);
    ExportRowsClean(students, days, dayString, percentText);
    SplitCsvText(rows);
    ReadRowsCsvText(rows);
  }
}
