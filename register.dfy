/**
 * The state of the attendance-register component and its event handlers.
 * Each React state variable is a field; each `setX` a handler performs is an
 * assignment to that field. The effect on [startDate, endDate] is the method
 * SyncDays, run by the two date setters.
 */
module AttendanceApp {
  import opened Calendar
  import opened Roster
  import opened Csv
  import opened Export
  import opened CsvImport

  datatype Option<T> = None | Some(value: T)

  /** 2024-06-28, the initial start date (a Friday). */
  const InitialStart: int := 19902
  /** 2024-07-31, the initial end date. */
  const InitialEnd: int := 19935

  const RangeErrorMessage: string := "Start date must be before end date."

  /** The first eight days of the initial range hold Fri 28, Sat 29, Sun 30 June and Fri 5 July. */
  lemma InitialFirstWeek()
    ensures WeekendDays(InitialStart, InitialStart + 7) == [19902, 19903, 19904, 19909]
  {
    var s := InitialStart;
    assert WeekendDays(s, s - 1) == [];
    assert WeekendDays(s, s) == [s];
    assert WeekendDays(s, s + 1) == [s, s + 1];
    assert WeekendDays(s, s + 2) == [s, s + 1, s + 2];
    assert WeekendDays(s, s + 3) == [s, s + 1, s + 2];
    assert WeekendDays(s, s + 4) == [s, s + 1, s + 2];
    assert WeekendDays(s, s + 5) == [s, s + 1, s + 2];
    assert WeekendDays(s, s + 6) == [s, s + 1, s + 2];
  }

  /** The range's last six days, Fri 26 to Wed 31 July, hold three weekend days. */
  lemma InitialLastDays()
    ensures |WeekendDays(InitialStart + 28, InitialEnd)| == 3
  {
    var s := InitialStart + 28;
    WeekendDaysPerWeek(s);
    WeekendDaysSplit(s, InitialEnd, s + 6);
    assert !IsWeekendDay(s + 6);
  }

  /**
   * The initial range, 2024-06-28 to 2024-07-31, shows fifteen weekend
   * days, starting Fri 28, Sat 29 and Sun 30 June and Fri 5 July.
   */
  lemma InitialDays()
    ensures |WeekendDays(InitialStart, InitialEnd)| == 15
    ensures WeekendDays(InitialStart, InitialEnd)[..4] == [19902, 19903, 19904, 19909]
  {
    var s, e := InitialStart, InitialEnd;
    InitialFirstWeek();
    WeekendDaysSplit(s, s + 7, e);
    WeekendDaysSplit(s, s + 6, e);
    WeekendDaysSplit(s + 7, s + 13, e);
    WeekendDaysSplit(s + 14, s + 20, e);
    WeekendDaysSplit(s + 21, s + 27, e);
    WeekendDaysPerWeek(s);
    WeekendDaysPerWeek(s + 7);
    WeekendDaysPerWeek(s + 14);
    WeekendDaysPerWeek(s + 21);
    InitialLastDays();
  }

  class Register {
    var students: seq<Student>
    var newStudentIndex: Option<nat>
    var startDate: int
    var endDate: int
    var days: seq<int>
    var dateError: string
    var importMessage: string

    /** The last range that was accepted: `days` is always derived from it. */
    ghost var shownStart: int
    ghost var shownEnd: int

    /** `days` holds the weekend days of the last accepted range. */
    ghost predicate DaysDerived()
      reads this
    {
      shownStart <= shownEnd && days == WeekendDays(shownStart, shownEnd)
    }

    /**
     * A well-ordered range is the one shown, with no error; a reversed
     * range keeps the previous days and shows the range error.
     */
    ghost predicate Valid()
      reads this
    {
      && DaysDerived()
      && (startDate <= endDate ==> shownStart == startDate && shownEnd == endDate && dateError == "")
      && (endDate < startDate ==> dateError == RangeErrorMessage)
    }

    /** The component's first render, with the roster restored from storage. */
    constructor (persisted: seq<Student>)
      ensures Valid()
      ensures students == persisted && newStudentIndex == None
      ensures startDate == InitialStart && endDate == InitialEnd
      ensures days == WeekendDays(InitialStart, InitialEnd)
      ensures dateError == "" && importMessage == ""
    {
      var initialDays := GetWeekendDays(InitialStart, InitialEnd);
      students := persisted;
      newStudentIndex := None;
      startDate, endDate := InitialStart, InitialEnd;
      days := initialDays;
      dateError, importMessage := "", "";
      shownStart, shownEnd := InitialStart, InitialEnd;
    }

    /** The effect that runs whenever startDate or endDate changes. */
    method SyncDays()
      requires DaysDerived()
      modifies this
      ensures Valid()
      ensures old(startDate) <= old(endDate) ==>
        days == WeekendDays(startDate, endDate) && dateError == ""
      ensures old(endDate) < old(startDate) ==>
        days == old(days) && dateError == RangeErrorMessage
      ensures startDate == old(startDate) && endDate == old(endDate)
      ensures students == old(students) && newStudentIndex == old(newStudentIndex)
      ensures importMessage == old(importMessage)
    {
      if startDate <= endDate {
        days := GetWeekendDays(startDate, endDate);
        dateError := "";
        shownStart, shownEnd := startDate, endDate;
      } else {
        dateError := RangeErrorMessage;
      }
    }

    /** The start date picker's onChange, followed by the range effect. */
    method SetStartDate(d: int)
      requires Valid()
      modifies this
      ensures Valid()
      ensures startDate == d && endDate == old(endDate)
      ensures d <= endDate ==> days == WeekendDays(d, endDate) && dateError == ""
      ensures endDate < d ==> days == old(days) && dateError == RangeErrorMessage
      ensures students == old(students) && newStudentIndex == old(newStudentIndex)
      ensures importMessage == old(importMessage)
    {
      startDate := d;
      SyncDays();
    }

    /** The end date picker's onChange, followed by the range effect. */
    method SetEndDate(d: int)
      requires Valid()
      modifies this
      ensures Valid()
      ensures endDate == d && startDate == old(startDate)
      ensures startDate <= d ==> days == WeekendDays(startDate, d) && dateError == ""
      ensures d < startDate ==> days == old(days) && dateError == RangeErrorMessage
      ensures students == old(students) && newStudentIndex == old(newStudentIndex)
      ensures importMessage == old(importMessage)
    {
      endDate := d;
      SyncDays();
    }

    /** Typing in a name field: only that record's name changes. */
    method HandleInputChange(index: nat, value: string)
      requires Valid()
      requires index < |students|
      modifies this
      ensures Valid()
      ensures |students| == |old(students)|
      ensures students[index] == Student(value, old(students)[index].attendance)
      ensures forall k :: 0 <= k < |students| && k != index ==> students[k] == old(students)[k]
      ensures days == old(days) && dateError == old(dateError) && importMessage == old(importMessage)
      ensures startDate == old(startDate) && endDate == old(endDate)
      ensures newStudentIndex == old(newStudentIndex)
    {
      students := students[index := students[index].(name := value)];
    }

    /**
     * A name field losing focus: the roster is sorted by name (a stable
     * permutation) and no field is marked for focus any more. The index of
     * the field is not used.
     */
    method HandleInputBlur()
      requires Valid()
      modifies this
      ensures Valid()
      ensures students == SortByName(old(students))
      ensures SortedByName(students)
      ensures multiset(students) == multiset(old(students))
      ensures forall k :: WithName(students, k) == WithName(old(students), k)
      ensures newStudentIndex == None
      ensures days == old(days) && dateError == old(dateError) && importMessage == old(importMessage)
      ensures startDate == old(startDate) && endDate == old(endDate)
    {
      var copy := students;
      var a := new Student[|copy|](k requires 0 <= k < |copy| => copy[k]);
      assert a[..] == copy;
      SortStudents(a);
      students := a[..];
      newStudentIndex := None;
      SortByNameSorted(copy);
      SortByNamePermutes(copy);
      forall k
        ensures WithName(students, k) == WithName(copy, k)
      {
        SortByNameStable(copy, k);
      }
    }

    /** "Add Student": one blank record at the end, marked for focus. */
    method HandleAddStudent()
      requires Valid()
      modifies this
      ensures Valid()
      ensures students == old(students) + [NewStudent(|days|)]
      ensures newStudentIndex == Some(|old(students)|)
      ensures days == old(days) && dateError == old(dateError) && importMessage == old(importMessage)
      ensures startDate == old(startDate) && endDate == old(endDate)
    {
      students := students + [NewStudent(|days|)];
      newStudentIndex := Some(|students| - 1);
    }

    /** A checkbox click: only one attendance cell of one record flips. */
    method HandleAttendanceChange(studentIndex: nat, dayIndex: nat)
      requires Valid()
      requires studentIndex < |students|
      modifies this
      ensures Valid()
      ensures |students| == |old(students)|
      ensures students[studentIndex] ==
        Student(old(students)[studentIndex].name, Toggled(old(students)[studentIndex].attendance, dayIndex))
      ensures forall k :: 0 <= k < |students| && k != studentIndex ==> students[k] == old(students)[k]
      ensures days == old(days) && dateError == old(dateError) && importMessage == old(importMessage)
      ensures startDate == old(startDate) && endDate == old(endDate)
      ensures newStudentIndex == old(newStudentIndex)
    {
      var st := students[studentIndex];
      students := students[studentIndex := st.(attendance := Toggled(st.attendance, dayIndex))];
    }

    /** "Delete": the record at `index` goes, the others keep their order. */
    method HandleDeleteStudent(index: int)
      requires Valid()
      modifies this
      ensures Valid()
      ensures students == DropIndex(old(students), index)
      ensures students ==
        if 0 <= index < |old(students)| then old(students)[..index] + old(students)[index + 1..]
        else old(students)
      ensures days == old(days) && dateError == old(dateError) && importMessage == old(importMessage)
      ensures startDate == old(startDate) && endDate == old(endDate)
      ensures newStudentIndex == old(newStudentIndex)
    {
      DropIndexRemovesOne(students, index);
      students := DropIndex(students, index);
    }

    /**
     * "Export to CSV": the header line, then one line per student, each
     * appended to the text in turn.
     */
    method ExportToCsv(dayString: int -> string, percentText: (nat, nat) -> string)
      returns (csv: string)
      ensures csv == ExportText(students, days, dayString, percentText)
    {
      var roster, shown := students, days;
      ghost var rows := ExportRows(roster, shown, dayString, percentText);
      var header := HeaderRow(shown, dayString);
      csv := Join(header, ',') + "\n";
      CsvTextPrefix(rows, 0);
      var k := 0;
      while k < |roster|
        invariant 0 <= k <= |roster|
        invariant csv == CsvText(rows[..k + 1])
      {
        var row := StudentRow(roster[k], |shown|, percentText);
        CsvTextPrefix(rows, k + 1);
        csv := csv + Join(row, ',') + "\n";
        k := k + 1;
      }
      assert rows[..|roster| + 1] == rows;
    }

    /**
     * The `complete` callback of the import over the parsed rows: validate
     * the header, then every data row in turn, stopping at the first
     * failure; only a file that passes both replaces the roster.
     */
    method ImportFromCsv(rows: seq<seq<string>>)
      requires Valid()
      modifies this
      ensures Valid()
      ensures match ImportRows(rows, |days|)
        case Imported(roster) => students == roster && importMessage == SuccessMessage
        case Rejected(e) => students == old(students) && importMessage == ErrorMessage(e)
        case NoHeaderRow => students == old(students) && importMessage == old(importMessage)
      ensures days == old(days) && dateError == old(dateError)
      ensures startDate == old(startDate) && endDate == old(endDate)
      ensures newStudentIndex == old(newStudentIndex)
    {
      if |rows| == 0 {
        return;
      }
      var header := rows[0];
      if |header| != |days| + 1 || header[0] != "Name" {
        importMessage := ErrorMessage(InvalidFormat);
        return;
      }
      var data, dayCount := rows[1..], |days|;
      var k := 0;
      while k < |data|
        invariant 0 <= k <= |data|
        invariant forall j :: 0 <= j < k ==> |data[j]| == |header|
      {
        if |data[k]| != |header| {
          importMessage := ErrorMessage(InconsistentRowLength);
          return;
        }
        k := k + 1;
      }
      students := seq(|data|, j requires 0 <= j < |data| => ToStudent(data[j], dayCount));
      importMessage := SuccessMessage;
      assert RowsOfLength(data, |header|);
      assert forall j :: 0 <= j < |data| ==> data[j] == rows[j + 1];
    }
  }
}
