# Attendance register — a Dafny model of its core

The attendance register is a single React component (`src/App.jsx`) that shows a
table of students against the Fridays, Saturdays and Sundays of a chosen date
range. Each cell is a checkbox for "present". Per-student totals are derived,
and the table can be exported to and imported from CSV. Below, N is the number of
weekend days shown and S the number of students.

This project models the logic inside that component:

- **Weekend-day derivation** (`Calendar`): `getWeekendDays` walks the range day by
  day and keeps the days whose weekday is 0, 5 or 6. Dates are local calendar days
  numbered from 1970-01-01 (day 0, a Thursday). `Weekday` follows `getDay`.
  `GetWeekendDays` is the loop; `WeekendDays` is the function it is proved against.
- **Name order** (`NameOrder`): `localeCompare` is replaced by lexicographic order on
  Unicode code points, `NameLe`, which is proved to be a total order.
- **Roster** (`Roster`): the record type `Student(name, attendance)`, the blank
  record that "Add Student" appends, toggling one cell, deletion by index (the
  `filter`), and the sort on blur. `Array.prototype.sort` is stable, so the sort is
  an in-place stable insertion sort on an `array<Student>` (`SortStudents`). It is
  proved equal to the functional `SortByName`, which is shown to be sorted, a
  permutation and stable.
- **Totals** (`Totals`): the day count, the present count and the absent count.
- **CSV export** (`Csv`, `Export`): the header row, the student rows, and the text
  built line by line. `Split`/`ReadRows` are a reference reader for unquoted text. It
  is not code of the application. It shows that the text encodes exactly the rows
  when no field holds a comma or a line break.
- **CSV import** (`CsvImport`): what the `complete` callback does with the parsed
  rows. It checks the header, then each row's length, then builds the records.
- **Component state** (`AttendanceApp.Register`): a class whose fields are the
  component's state (`students`, `newStudentIndex`, `startDate`, `endDate`, `days`,
  `dateError`, `importMessage`). It has one method per handler. The date-range
  effect is `SyncDays`, run by both date setters. The class invariant `Valid()`
  states that `days` always holds the weekend days of the last accepted range.
  When the range is in order, that range is the current one and there is no error.
  When it is reversed, the range error is shown and the old days stay.

Where the code and the intended design disagree, the model follows the code:

- **Export and import do not round-trip.** The export header has N + 5 fields
  (`src/App.jsx:91`), while the import demands exactly N + 1 (`src/App.jsx:128`).
  `CsvImport.ExportThenImportRejected` proves that importing an exported file is
  rejected as an invalid format, leaving the roster as it was. This holds whatever
  the names and percentage texts contain. It assumes only that no day label holds a
  comma or a line break, and no `toDateString` result does.
- **A trailing line break defeats the import.** The export ends every line with a
  line break. A parser then yields a last row `[""]`. With at least one day shown,
  that row fails the row-length check, or the header check when it is the only
  row (`CsvImport.TrailingEmptyRowRejected`). With
  no day shown, it is imported as a nameless student
  (`CsvImport.TrailingEmptyRowWithoutDays`).
- **The day count can differ from the record length.** Records are not resized
  when the range changes. So `totalAbsent` = N − present can be negative, and
  a checkbox past the end of a record extends it (`Roster.Toggled`).

## Model

| member | source | states |
|---|---|---|
| `Calendar.Weekday` | src/App.jsx:10 | a day's weekday is in 0..6, Sunday being 0 |
| `Calendar.GetWeekendDays` | src/App.jsx:7-16 | the loop returns `WeekendDays(s, e)`: only Fridays, Saturdays and Sundays within [s, e], strictly increasing, every such day present, empty when s > e |
| `Calendar.WeekendDayNumbers` | src/App.jsx:10-11 | a day passes the weekday test exactly when its number is 1, 2 or 3 modulo 7: the Friday-to-Sunday block, day 1 being a Friday |
| `Calendar.WeekendDays` | src/App.jsx:7-16 | the days kept from [s, e] are never more than the days in the range, and none for a reversed range |
| `Calendar.WeekendDaysSound` | src/App.jsx:9-11 | every returned day lies in [s, e] and is a weekend day |
| `Calendar.WeekendDaysIncreasing` | src/App.jsx:9-13 | the returned days are strictly increasing |
| `Calendar.WeekendDaysOccurrences` | src/App.jsx:9-13 | a day occurs exactly once if it is a weekend day in [s, e], otherwise never (agrees with day-by-day classification) |
| `Calendar.WeekendDaysSplit` | src/App.jsx:9 | splitting the range at any day splits the result at the same place |
| `Calendar.KeptPerWeek` | src/App.jsx:9-11 | among any seven consecutive days exactly three pass the weekday test |
| `Calendar.WeekendDaysPerWeek` | src/App.jsx:11 | any seven consecutive days contain exactly three weekend days |
| `AttendanceApp.InitialDays` | src/App.jsx:24-26 | the initial range 2024-06-28..2024-07-31 shows 15 days, starting Fri 28, Sat 29, Sun 30 June, Fri 5 July |
| `NameOrder.NameLeReflexive` | src/App.jsx:79 | every name compares as not after itself |
| `NameOrder.NameLeTotal` | src/App.jsx:79 | any two names are comparable |
| `NameOrder.NameLeTransitive` | src/App.jsx:79 | the name order is transitive |
| `NameOrder.NameLeAntisymmetric` | src/App.jsx:79 | names that sort before each other are equal |
| `Roster.NewStudent` | src/App.jsx:62 | the added record has name "" and N absent marks |
| `Roster.Toggled` | src/App.jsx:69 | only cell d changes, to its negation; a cell past the end becomes true and the record grows to d + 1, the gap absent |
| `Roster.ToggleTwice` | src/App.jsx:69 | toggling an existing cell twice restores the record |
| `Roster.ToggleTwicePastEnd` | src/App.jsx:69 | toggling a cell past the end twice leaves the record padded with absences |
| `Roster.DropIndex` | src/App.jsx:74 | the filter leaves one record fewer when the index is inside the roster, and all of them otherwise |
| `Roster.DropIndexRemovesOne` | src/App.jsx:74 | the filter removes exactly position `index` and keeps the rest in order; an index outside the roster removes nothing |
| `Roster.InsertByName` | src/App.jsx:79 | one insertion step makes the sorted part one record longer |
| `Roster.SortByName` | src/App.jsx:79 | the sort keeps the roster's length |
| `Roster.InsertByNameAt` | src/App.jsx:79 | the record goes right after the last record whose name does not sort after it, with nothing else moved: `t[..j] + [x] + t[j..]` |
| `Roster.InsertByNamePermutes` | src/App.jsx:79 | inserting a record adds exactly that record |
| `Roster.SortByNamePermutes` | src/App.jsx:79 | the sort is a permutation of the roster |
| `Roster.InsertByNameSorted` | src/App.jsx:79 | inserting into a sorted roster keeps it sorted |
| `Roster.SortByNameSorted` | src/App.jsx:79 | after the sort, names are non-decreasing |
| `Roster.InsertByNameStable` | src/App.jsx:79 | insertion places the record after all earlier records of the same name |
| `Roster.SortByNameStable` | src/App.jsx:79 | records sharing a name keep their relative order |
| `Roster.SortByNameKeepsSorted` | src/App.jsx:79 | a roster already in order is unchanged by the sort |
| `Roster.SortByNameIdempotent` | src/App.jsx:55-59 | blurring twice sorts no further than blurring once |
| `Roster.InsertIntoPrefix` | src/App.jsx:79 | shifting records right inserts the record into the sorted prefix in place |
| `Roster.SortStudents` | src/App.jsx:78-80 | the in-place sort leaves the array equal to `SortByName` of its old contents |
| `Totals.CountPresent` | src/App.jsx:84 | the present count is at most the number of marks |
| `Totals.CountPresentIsTrueMarks` | src/App.jsx:84 | the present count is the number of `true` marks |
| `Totals.TrueAndFalseMarks` | src/App.jsx:84-85 | present and absent marks together are all the marks |
| `Totals.CalculateTotals` | src/App.jsx:82-88 | totalDays = number of days shown; totalPresent = number of true marks; totalPresent + totalAbsent = totalDays; absent = false marks when the record has one mark per day |
| `Totals.TotalsAllAbsent` | src/App.jsx:82-88 | an all-absent record of n days totals (n, 0, n) |
| `Totals.TotalsAllPresent` | src/App.jsx:82-88 | an all-present record of n days totals (n, n, 0) |
| `Csv.Join` | src/App.jsx:105-107 | no fields join to ""; the line starts with the first field, and with two or more fields a separator follows it |
| `Csv.SplitJoin` | src/App.jsx:105 | joining separator-free fields and splitting gives the fields back |
| `Csv.SplitAtSep` | src/App.jsx:105-107 | a separator splits the text into the pieces of either side |
| `Csv.CsvTextAppend` | src/App.jsx:106-108 | appending a row appends one joined, newline-terminated line |
| `Csv.CsvText` | src/App.jsx:104-108 | the text is empty exactly when there are no rows, and otherwise ends with a line break |
| `Csv.ReadRowsFirstLine` | src/App.jsx:105 | the first line reads back as the first row whenever that row's fields are clean, whatever the later lines hold |
| `Csv.SplitCsvText` | src/App.jsx:105-107 | rows whose fields hold no line break, commas allowed, are written as one joined line each, followed by the empty piece after the last line break |
| `Csv.ReadRowsCsvText` | src/App.jsx:104-108 | clean rows written as text read back as those rows plus one empty row |
| `Csv.NatToDecimal` | src/App.jsx:97-99 | a count is written as a non-empty string of digits |
| `Csv.IntToDecimal` | src/App.jsx:97-99 | an integer total is written without comma or line break, with "-" exactly when negative |
| `Csv.NatToDecimalValue` | src/App.jsx:97-98 | the digits written for a count read back as that count |
| `Csv.IntToDecimalValue` | src/App.jsx:97-99 | every integer, negative ones included, is written in a form that reads back as itself |
| `Export.HeaderRow` | src/App.jsx:91 | the header has N + 5 fields: "Name", one day label per day in order, then the four totals labels |
| `Export.Mark` | src/App.jsx:96 | a mark is "Present" exactly when attended and "Absent" exactly when not |
| `Export.TotalsFields` | src/App.jsx:97-100 | the totals fields are four: the day count and the present count, the absent count read back with its sign (negative ones included), then the percentage text of present over days; the three counts hold no comma or line break |
| `Export.StudentRow` | src/App.jsx:94-101 | a student's row has one field per mark plus five |
| `Export.StudentRowParts` | src/App.jsx:94-101 | the row is the name, one mark per attendance cell, then exactly the four totals fields of the record |
| `Export.StudentRowLayout` | src/App.jsx:92-102 | field 0 is the name, field 1 + i is "Present" iff attendance[i] (else "Absent"), then the day count N, the present count, the absent count N − present read with its sign, and the percentage text of present over N |
| `Export.ExportRows` | src/App.jsx:91-102 | one header row, then one row per student in roster order |
| `Export.ExportRowsClean` | src/App.jsx:91-102 | with clean names, day labels and percentages, every exported field is free of commas and line breaks |
| `Export.ExportText` | src/App.jsx:104-108 | the text starts with the joined header line and ends with a line break |
| `Export.ExportLines` | src/App.jsx:104-108 | when no name, day label or percentage text holds a line break (commas allowed), the export is exactly 1 + S newline-terminated lines: the joined header, then each student's joined row in roster order |
| `Export.ExportTextReadsBack` | src/App.jsx:104-108 | with clean names, day labels and percentage texts (no comma, no line break), the export is 1 + S newline-terminated lines, which read back field by field as the exported rows |
| `CsvImport.ErrorMessage` | src/App.jsx:129-136 | each rejection message starts with "Error: " and differs from the success message |
| `CsvImport.HeaderAccepted` | src/App.jsx:128 | an accepted header starts with "Name"; a header of N + 5 fields, the export's, is never accepted |
| `CsvImport.RowsOfLength` | src/App.jsx:134-139 | the data check passes exactly when every data row has the required length |
| `CsvImport.ToStudent` | src/App.jsx:141-145 | the record's name is row[0]; attendance has N cells, cell i true iff row[i + 1] is "Present" |
| `CsvImport.ImportRows` | src/App.jsx:124-148 | an import succeeds only with an accepted header and every row of header length, giving one record per data row |
| `CsvImport.ImportRowsOutcome` | src/App.jsx:124-145 | no rows, invalid format (wrong header length or first label) and inconsistent row length each happen exactly when their condition holds; otherwise each record reproduces its row |
| `CsvImport.ExportedRowDecodes` | src/App.jsx:141-145 | the import's reading of name and marks inverts the export's row layout |
| `CsvImport.ExportedHeaderRejected` | src/App.jsx:128 | a file beginning with an exported header is rejected as an invalid format |
| `CsvImport.ExportThenImportRejected` | src/App.jsx:91-131 | when no day label holds a comma or a line break, importing the exported text is rejected as an invalid format, whatever the names and percentage texts hold |
| `CsvImport.TrailingEmptyRowRejected` | src/App.jsx:128-139 | with at least one day shown, a trailing empty row makes every import fail, including the file that is only that row |
| `CsvImport.TrailingEmptyRowWithoutDays` | src/App.jsx:141-145 | with no day shown, a trailing empty row is imported as a nameless record |
| `AttendanceApp.Register.constructor` | src/App.jsx:18-28 | starts from the persisted roster, no focus index, the initial range and its weekend days, no messages |
| `AttendanceApp.Register.SyncDays` | src/App.jsx:40-47 | if start <= end, days become the range's weekend days and the error clears; otherwise days stay and the range error is set; the roster is untouched |
| `AttendanceApp.Register.SetStartDate` | src/App.jsx:163 | sets the start date and runs the range effect, keeping the invariant |
| `AttendanceApp.Register.SetEndDate` | src/App.jsx:172 | sets the end date and runs the range effect, keeping the invariant |
| `AttendanceApp.Register.HandleInputChange` | src/App.jsx:49-53 | only students[index].name changes, to the typed value |
| `AttendanceApp.Register.HandleInputBlur` | src/App.jsx:55-59 | the roster becomes its stable sort by name: sorted, a permutation, same-name order kept; the focus index is cleared |
| `AttendanceApp.Register.HandleAddStudent` | src/App.jsx:61-65 | appends one blank record with N absences, earlier records unchanged, focus index = old length |
| `AttendanceApp.Register.HandleAttendanceChange` | src/App.jsx:67-71 | only the one cell of the one record flips; names, other records and the roster length stay |
| `AttendanceApp.Register.HandleDeleteStudent` | src/App.jsx:73-76 | removes only position `index`, survivors in order; an index out of range changes nothing |
| `AttendanceApp.Register.ExportToCsv` | src/App.jsx:90-108 | the accumulated text equals the header line followed by one line per student |
| `AttendanceApp.Register.ImportFromCsv` | src/App.jsx:123-149 | on success the roster is replaced and the success message set; on a rejection the roster stays and the matching error message is set; with no rows nothing changes |

## Left out

- Rendering, the JSX table and the focus effect through `inputRef` (src/App.jsx:34-38, 157-262) are user interface.
- Reading and writing `localStorage` (src/App.jsx:18, 30-32) is I/O. The constructor takes the restored roster as a parameter.
- `Date` arithmetic, time zones and `setDate` are not modelled. Days are integers, and `date <= endDate` compares whole days. `new Date('2024-06-28')` is UTC midnight, so west of UTC the first local day differs. A date picker that is cleared (null) is not modelled either.
- `toDateString` is the opaque parameter `dayString` of the export.
- The percentage (`toFixed(2)` of a floating-point division; NaN or Infinity when no day is shown) is the opaque parameter `percentText`.
- `localeCompare` is replaced by code-point lexicographic order. Locale collation is not modelled.
- Strings are sequences of Unicode scalar values. A lone surrogate, which a JavaScript string can hold, cannot be represented. Characters above U+FFFF sort by code point, after U+E000..U+FFFF, where UTF-16 code-unit comparison would put them before.
- The tokenising by `Papa.parse`, the file read, the "no file chosen" return and the `error` callback (src/App.jsx:119-122, 151-153) belong to a foreign library. The import starts from the parsed rows.
- The data-URI prefix, `encodeURI` and the download link (src/App.jsx:104, 110-115) are browser I/O. `ExportToCsv` returns the text after the prefix.
- AttendanceApp.Register.HandleInputChange: only the `name` key is modelled, the only key the table passes. It requires an index inside the roster; the source would throw a TypeError otherwise, and the table never passes one.
- AttendanceApp.Register.HandleAttendanceChange: it requires a student index inside the roster, for the same reason. A toggle past the end of a record leaves array holes in the source; the model stores them as `false`. The totals and checkboxes agree, but an export made before reloading would print an empty field for a hole, not "Absent".
- The handlers assign fields of record objects that the previous state array shares. The model uses values, so that aliasing is not captured; the previous array is discarded by the source anyway.
- The `index` argument of `handleInputBlur` is unused by the source and is not a parameter of `HandleInputBlur`.
