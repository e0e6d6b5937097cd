/**
 * The text layer of the CSV export: `Array.prototype.join`, the decimal
 * form of the integer totals, and the lines the export appends one by one.
 * `Split` and `ReadRows` are a reference reader for the unquoted text the
 * export writes: they undo the joins when no field holds a comma or a
 * line break.
 */
module Csv {

  /** `fields.join(sep)` */
  function Join(fields: seq<string>, sep: char): (r: string)
    ensures |fields| == 0 ==> r == ""
    ensures |fields| >= 1 ==> fields[0] <= r
    ensures |fields| >= 2 ==> |r| > |fields[0]| && r[|fields[0]|] == sep
  {
    if |fields| == 0 then ""
    else if |fields| == 1 then fields[0]
    else fields[0] + [sep] + Join(fields[1..], sep)
  }

  /**
   * The reference reader's splitter: the pieces of `s` between occurrences of
   * `sep`, always at least one.
   */
  function Split(s: string, sep: char): (r: seq<string>)
    ensures |r| >= 1
  {
    if |s| == 0 then [""]
    else if s[0] == sep then [""] + Split(s[1..], sep)
    else
      var rest := Split(s[1..], sep);
      [[s[0]] + rest[0]] + rest[1..]
  }

  lemma {:induction false} SplitWithoutSep(f: string, sep: char)
    requires sep !in f
    ensures Split(f, sep) == [f]
  {
    if |f| > 0 {
      SplitWithoutSep(f[1..], sep);
      assert f == [f[0]] + f[1..];
    }
  }

  /** Split, unfolded once on a text that starts with `c`. */
  lemma SplitCons(c: char, t: string, sep: char)
    ensures Split([c] + t, sep) ==
      if c == sep then [""] + Split(t, sep)
      else [[c] + Split(t, sep)[0]] + Split(t, sep)[1..]
  {
    assert ([c] + t)[0] == c && ([c] + t)[1..] == t;
  }

  /** A piece put before `a + b` is put before `a`. */
  lemma PrependPiece(p: string, a: seq<string>, b: seq<string>)
    ensures [p] + (a + b) == ([p] + a) + b
  {
  }

  /** The inductive step of SplitAtSep when the leading character is a separator. */
  lemma SplitAtSepStepSep(u: string, y: string, sep: char)
    requires Split(u + [sep] + y, sep) == Split(u, sep) + Split(y, sep)
    ensures Split([sep] + u + [sep] + y, sep) == Split([sep] + u, sep) + Split(y, sep)
  {
    var t := u + [sep] + y;
    assert [sep] + u + [sep] + y == [sep] + t;
    SplitCons(sep, t, sep);
    SplitCons(sep, u, sep);
    PrependPiece("", Split(u, sep), Split(y, sep));
  }

  /** Extending the first piece of `a + b` extends the first piece of `a`. */
  lemma PrependToFirst(c: char, a: seq<string>, b: seq<string>)
    requires |a| >= 1
    ensures [[c] + (a + b)[0]] + (a + b)[1..] == ([[c] + a[0]] + a[1..]) + b
  {
    assert (a + b)[0] == a[0] && (a + b)[1..] == a[1..] + b;
  }

  /** The inductive step of SplitAtSep when the leading character is not a separator. */
  lemma SplitAtSepStepOther(c: char, u: string, y: string, sep: char)
    requires c != sep
    requires Split(u + [sep] + y, sep) == Split(u, sep) + Split(y, sep)
    ensures Split([c] + u + [sep] + y, sep) == Split([c] + u, sep) + Split(y, sep)
  {
    var t := u + [sep] + y;
    assert [c] + u + [sep] + y == [c] + t;
    SplitCons(c, t, sep);
    SplitCons(c, u, sep);
    PrependToFirst(c, Split(u, sep), Split(y, sep));
  }

  /** A separator cuts the text into the pieces of either side. */
  lemma {:induction false} SplitAtSep(x: string, y: string, sep: char)
    ensures Split(x + [sep] + y, sep) == Split(x, sep) + Split(y, sep)
  {
    if |x| == 0 {
      assert x + [sep] + y == [sep] + y;
      SplitCons(sep, y, sep);
    } else {
      SplitAtSep(x[1..], y, sep);
      if x[0] == sep {
        SplitAtSepStepSep(x[1..], y, sep);
      } else {
        SplitAtSepStepOther(x[0], x[1..], y, sep);
      }
      assert x == [x[0]] + x[1..];
    }
  }

  lemma {:induction false} JoinAvoids(fields: seq<string>, sep: char, c: char)
    requires c != sep
    requires forall i :: 0 <= i < |fields| ==> c !in fields[i]
    ensures c !in Join(fields, sep)
  {
    if |fields| > 1 {
      JoinAvoids(fields[1..], sep, c);
    }
  }

  /** Joining separator-free fields and splitting again gives the fields back. */
  lemma {:induction false} SplitJoin(fields: seq<string>, sep: char)
    requires |fields| >= 1
    requires forall i :: 0 <= i < |fields| ==> sep !in fields[i]
    ensures Split(Join(fields, sep), sep) == fields
  {
    if |fields| == 1 {
      SplitWithoutSep(fields[0], sep);
    } else {
      SplitJoin(fields[1..], sep);
      SplitAtSep(fields[0], Join(fields[1..], sep), sep);
      SplitWithoutSep(fields[0], sep);
      assert fields == [fields[0]] + fields[1..];
    }
  }

  /** Each row written as its comma-joined fields followed by "\n". */
  function CsvText(rows: seq<seq<string>>): (text: string)
    ensures text == "" <==> |rows| == 0
    ensures |rows| > 0 ==> text[|text| - 1] == '\n'
  {
    if |rows| == 0 then ""
    else Join(rows[0], ',') + "\n" + CsvText(rows[1..])
  }

  /** Appending a row appends one line. */
  lemma {:induction false} CsvTextAppend(rows: seq<seq<string>>, row: seq<string>)
    ensures CsvText(rows + [row]) == CsvText(rows) + Join(row, ',') + "\n"
  {
    var all := rows + [row];
    if |rows| == 0 {
      assert all == [row] && all[1..] == [];
    } else {
      CsvTextAppend(rows[1..], row);
      var head := Join(rows[0], ',') + "\n";
      assert all[0] == rows[0] && all[1..] == rows[1..] + [row];
      assert CsvText(all) == head + CsvText(rows[1..] + [row]);
      var tail, line := CsvText(rows[1..]), Join(row, ',');
      assert head + ((tail + line) + "\n") == ((head + tail) + line) + "\n";
    }
  }

  /** The text of the first k + 1 rows extends that of the first k by one line. */
  lemma CsvTextPrefix(rows: seq<seq<string>>, k: nat)
    requires k < |rows|
    ensures CsvText(rows[..k + 1]) == CsvText(rows[..k]) + Join(rows[k], ',') + "\n"
  {
    assert rows[..k + 1] == rows[..k] + [rows[k]];
    CsvTextAppend(rows[..k], rows[k]);
  }

  /** A field the unquoted format can carry: no comma and no line break. */
  predicate CleanField(f: string) {
    ',' !in f && '\n' !in f
  }

  predicate CleanRows(rows: seq<seq<string>>) {
    forall r :: 0 <= r < |rows| ==>
      |rows[r]| >= 1 && forall i :: 0 <= i < |rows[r]| ==> CleanField(rows[r][i])
  }

  /** Rows none of whose fields holds a line break, so each is written as one line. */
  predicate LineBreakFree(rows: seq<seq<string>>) {
    forall r, i :: 0 <= r < |rows| && 0 <= i < |rows[r]| ==> '\n' !in rows[r][i]
  }

  /** Reference reader: split the text into lines, then each line into fields. */
  function ReadRows(text: string): (rows: seq<seq<string>>)
    ensures |rows| == |Split(text, '\n')|
  {
    var lines := Split(text, '\n');
    seq(|lines|, i requires 0 <= i < |lines| => Split(lines[i], ','))
  }

  /**
   * The text of rows whose fields hold no line break, commas allowed, splits
   * into one line per row, each the row's joined fields, and the empty piece
   * after the last line break.
   */
  lemma {:induction false} SplitCsvText(rows: seq<seq<string>>)
    requires LineBreakFree(rows)
    ensures Split(CsvText(rows), '\n') ==
      seq(|rows|, r requires 0 <= r < |rows| => Join(rows[r], ',')) + [""]
  {
    if |rows| > 0 {
      assert LineBreakFree(rows[1..]) by {
        forall r, i | 0 <= r < |rows| - 1 && 0 <= i < |rows[1..][r]|
          ensures '\n' !in rows[1..][r][i]
        {
          assert rows[1..][r] == rows[r + 1];
        }
      }
      SplitCsvText(rows[1..]);
      var line := Join(rows[0], ',');
      JoinAvoids(rows[0], ',', '\n');
      SplitWithoutSep(line, '\n');
      SplitAtSep(line, CsvText(rows[1..]), '\n');
      assert line + "\n" + CsvText(rows[1..]) == line + ['\n'] + CsvText(rows[1..]);
    }
  }

  /**
   * The text of clean rows reads back as those rows, followed by the one
   * empty row that the final line break leaves.
   */
  lemma ReadRowsCsvText(rows: seq<seq<string>>)
    requires CleanRows(rows)
    ensures ReadRows(CsvText(rows)) == rows + [[""]]
  {
    assert LineBreakFree(rows);
    SplitCsvText(rows);
    var lines := Split(CsvText(rows), '\n');
    forall r | 0 <= r < |rows|
      ensures Split(lines[r], ',') == rows[r]
    {
      SplitJoin(rows[r], ',');
    }
  }

  /**
   * The first line reads back as the first row as soon as that row's own
   * fields are clean, whatever the later rows hold.
   */
  lemma ReadRowsFirstLine(rows: seq<seq<string>>)
    requires |rows| >= 1 && |rows[0]| >= 1
    requires forall i :: 0 <= i < |rows[0]| ==> CleanField(rows[0][i])
    ensures |ReadRows(CsvText(rows))| >= 2
    ensures ReadRows(CsvText(rows))[0] == rows[0]
  {
    var line := Join(rows[0], ',');
    var rest := CsvText(rows[1..]);
    JoinAvoids(rows[0], ',', '\n');
    SplitWithoutSep(line, '\n');
    assert CsvText(rows) == line + ['\n'] + rest;
    SplitAtSep(line, rest, '\n');
    assert Split(CsvText(rows), '\n')[0] == line;
    SplitJoin(rows[0], ',');
  }

  function DigitChar(d: nat): (c: char)
    requires d < 10
    ensures '0' <= c <= '9'
  {
    ('0' as int + d) as char
  }

  /** The decimal digits of n, as JavaScript writes an integer. */
  function NatToDecimal(n: nat): (s: string)
    ensures |s| >= 1
    ensures forall i :: 0 <= i < |s| ==> '0' <= s[i] <= '9'
  {
    if n < 10 then [DigitChar(n)]
    else NatToDecimal(n / 10) + [DigitChar(n % 10)]
  }

  /** Integers are joined into a row in their decimal form, with "-" when negative. */
  function IntToDecimal(n: int): (s: string)
    ensures CleanField(s) && |s| >= 1
    ensures s[0] == '-' <==> n < 0
  {
    if n < 0 then "-" + NatToDecimal(-n) else NatToDecimal(n)
  }

  /** The value of a string of decimal digits. */
  function DecimalValue(s: string): int
  {
    if |s| == 0 then 0
    else DecimalValue(s[..|s| - 1]) * 10 + (s[|s| - 1] as int - '0' as int)
  }

  /** The value of an integer's text: a leading "-" negates the digits after it. */
  function SignedDecimalValue(s: string): int
  {
    if |s| > 0 && s[0] == '-' then -DecimalValue(s[1..]) else DecimalValue(s)
  }

  /** An integer written by IntToDecimal, negative ones included, reads back as itself. */
  lemma IntToDecimalValue(n: int)
    ensures SignedDecimalValue(IntToDecimal(n)) == n
  {
    var s := IntToDecimal(n);
    if n < 0 {
      NatToDecimalValue(-n);
      assert s[1..] == NatToDecimal(-n);
    } else {
      NatToDecimalValue(n);
    }
  }

  /** The digits written for n read back as n. */
  lemma {:induction false} NatToDecimalValue(n: nat)
    ensures DecimalValue(NatToDecimal(n)) == n
  {
    var s := NatToDecimal(n);
    if n >= 10 {
      NatToDecimalValue(n / 10);
      assert s[..|s| - 1] == NatToDecimal(n / 10);
      assert s[|s| - 1] as int - '0' as int == n % 10;
      assert DecimalValue(s) == (n / 10) * 10 + n % 10;
    } else {
      assert s[..0] == [];
    }
  }
}
