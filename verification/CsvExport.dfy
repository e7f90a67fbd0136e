/** CSV export of console rows, and a reader that follows the quoting rules of
    section 2 of RFC 4180 with LF line breaks. */
module CsvExport {
  import opened Basics

  // ---------------------------------------------------------------- printing

  predicate NeedsQuotes(value: string)
  {
    '"' in value || ',' in value || '\n' in value || '\r' in value
  }

  function DoubleQuotes(value: string): string
  {
    if value == [] then []
    else (if value[0] == '"' then ['"', '"'] else [value[0]]) + DoubleQuotes(value[1..])
  }

  /** `csvEscape` */
  function Escape(value: string): string
  {
    if NeedsQuotes(value) then ['"'] + DoubleQuotes(value) + ['"'] else value
  }

  function PrintRow(cells: seq<string>): string
    requires cells != []
  {
    if |cells| == 1 then Escape(cells[0]) else Escape(cells[0]) + [','] + PrintRow(cells[1..])
  }

  ghost predicate Table(rows: seq<seq<string>>)
  {
    forall i :: 0 <= i < |rows| ==> rows[i] != []
  }

  function PrintTable(rows: seq<seq<string>>): string
    requires rows != [] && forall i :: 0 <= i < |rows| ==> rows[i] != []
  {
    if |rows| == 1 then PrintRow(rows[0]) else PrintRow(rows[0]) + ['\n'] + PrintTable(rows[1..])
  }

  // ---------------------------------------------------------------- reading

  /** A quoted cell, after its opening quote: its text and what follows. */
  function ReadQuoted(s: string): (r: (string, string))
    ensures |r.1| <= |s|
  {
    if s == [] then ([], [])
    else if s[0] != '"' then
      var r := ReadQuoted(s[1..]);
      ([s[0]] + r.0, r.1)
    else if |s| > 1 && s[1] == '"' then
      var r := ReadQuoted(s[2..]);
      (['"'] + r.0, r.1)
    else ([], s[1..])
  }

  predicate EndsCell(s: string)
  {
    s == [] || s[0] == ',' || s[0] == '\n'
  }

  function ReadPlain(s: string): (r: (string, string))
    ensures |r.1| <= |s|
  {
    if EndsCell(s) then ([], s)
    else
      var r := ReadPlain(s[1..]);
      ([s[0]] + r.0, r.1)
  }

  function ReadCell(s: string): (r: (string, string))
    ensures |r.1| <= |s|
  {
    if s != [] && s[0] == '"' then ReadQuoted(s[1..]) else ReadPlain(s)
  }

  function ReadRow(s: string): (r: (seq<string>, string))
    ensures |r.1| <= |s|
    decreases |s|
  {
    var c := ReadCell(s);
    if c.1 != [] && c.1[0] == ',' then
      var r := ReadRow(c.1[1..]);
      ([c.0] + r.0, r.1)
    else ([c.0], c.1)
  }

  function ReadTable(s: string): seq<seq<string>>
    decreases |s|
  {
    var r := ReadRow(s);
    if r.1 != [] && r.1[0] == '\n' then [r.0] + ReadTable(r.1[1..]) else [r.0]
  }

  // ---------------------------------------------------------------- round trip

  lemma {:induction false} QuotedReadsBack(value: string, rest: string)
    requires rest == [] || rest[0] != '"'
    ensures ReadQuoted(DoubleQuotes(value) + ['"'] + rest) == (value, rest)
    decreases |value|
  {
    var s := DoubleQuotes(value) + ['"'] + rest;
    if value == [] {
      assert s == ['"'] + rest;
      assert s[1..] == rest;
    } else {
      var tail := DoubleQuotes(value[1..]) + ['"'] + rest;
      QuotedReadsBack(value[1..], rest);
      if value[0] == '"' {
        assert s == ['"', '"'] + tail;
        assert s[2..] == tail;
      } else {
        assert s == [value[0]] + tail;
        assert s[1..] == tail;
      }
      assert [value[0]] + value[1..] == value;
    }
  }

  lemma {:induction false} PlainReadsBack(value: string, rest: string)
    requires ',' !in value && '\n' !in value && EndsCell(rest)
    ensures ReadPlain(value + rest) == (value, rest)
    decreases |value|
  {
    if value == [] {
      assert value + rest == rest;
    } else {
      assert (value + rest)[1..] == value[1..] + rest;
      PlainReadsBack(value[1..], rest);
      assert [value[0]] + value[1..] == value;
    }
  }

  lemma CellReadsBack(value: string, rest: string)
    requires EndsCell(rest)
    ensures ReadCell(Escape(value) + rest) == (value, rest)
  {
    if NeedsQuotes(value) {
      var s := Escape(value) + rest;
      assert s == ['"'] + (DoubleQuotes(value) + ['"'] + rest);
      assert s[1..] == DoubleQuotes(value) + ['"'] + rest;
      QuotedReadsBack(value, rest);
    } else {
      PlainReadsBack(value, rest);
      assert value != [] ==> (value + rest)[0] == value[0];
    }
  }

  /** A cell is quoted only if it must be. */
  lemma PlainIffNothingToQuote(value: string)
    ensures Escape(value) == value <==> '"' !in value && ',' !in value && '\n' !in value && '\r' !in value
  {
    if NeedsQuotes(value) {
      assert |Escape(value)| >= |value| + 2 by { DoublingLengthens(value); }
    }
  }

  lemma {:induction false} DoublingLengthens(value: string)
    ensures |DoubleQuotes(value)| >= |value|
    decreases |value|
  {
    if value != [] {
      DoublingLengthens(value[1..]);
    }
  }

  lemma {:induction false} RowReadsBack(cells: seq<string>, rest: string)
    requires cells != [] && (rest == [] || rest[0] == '\n')
    ensures ReadRow(PrintRow(cells) + rest) == (cells, rest)
    decreases |cells|
  {
    if |cells| == 1 {
      CellReadsBack(cells[0], rest);
      assert cells == [cells[0]];
    } else {
      var more := PrintRow(cells[1..]) + rest;
      assert PrintRow(cells) + rest == Escape(cells[0]) + ([','] + more);
      RowReadsBack(cells[1..], rest);
      FirstCellReadsBack(cells[0], more);
      assert [cells[0]] + cells[1..] == cells;
    }
  }

  lemma FirstCellReadsBack(cell: string, more: string)
    ensures ReadRow(Escape(cell) + ([','] + more)) == ([cell] + ReadRow(more).0, ReadRow(more).1)
  {
    var tail := [','] + more;
    CellReadsBack(cell, tail);
    assert tail[1..] == more;
  }

  /** Printed CSV is uniquely decodable: the reader recovers exactly the cells,
      including cells with quotes, commas and line breaks, empty cells and
      tables of one column. */
  lemma {:induction false} TableReadsBack(rows: seq<seq<string>>)
    requires rows != [] && Table(rows)
    ensures ReadTable(PrintTable(rows)) == rows
    decreases |rows|
  {
    if |rows| == 1 {
      RowReadsBack(rows[0], []);
      assert PrintRow(rows[0]) + [] == PrintRow(rows[0]);
    } else {
      var more := PrintTable(rows[1..]);
      assert PrintTable(rows) == PrintRow(rows[0]) + (['\n'] + more);
      FirstRowReadsBack(rows[0], more);
      TableReadsBack(rows[1..]);
      assert [rows[0]] + rows[1..] == rows;
    }
  }

  lemma FirstRowReadsBack(cells: seq<string>, more: string)
    requires cells != []
    ensures ReadTable(PrintRow(cells) + (['\n'] + more)) == [cells] + ReadTable(more)
  {
    var tail := ['\n'] + more;
    RowReadsBack(cells, tail);
    assert tail[1..] == more;
  }

  // ---------------------------------------------------------------- exporting records

  /** A record's fields in order; None is null or undefined. */
  type Record = seq<(string, Option<string>)>

  ghost predicate DistinctFields(row: Record)
  {
    forall i, j :: 0 <= i < j < |row| ==> row[i].0 != row[j].0
  }

  predicate HasField(row: Record, column: string)
  {
    exists i :: 0 <= i < |row| && row[i].0 == column
  }

  /** `formatExportValue(row[column])` */
  function Cell(row: Record, column: string): string
  {
    if row == [] then ""
    else if row[0].0 == column then (if row[0].1.Some? then row[0].1.value else "")
    else Cell(row[1..], column)
  }

  /** What the cell of a column must be: the value of the record's field of that
      name, and empty when there is no such field or it has no value. */
  ghost predicate ShowsField(row: Record, column: string, cell: string)
  {
    && (forall v :: (column, Some(v)) in row ==> cell == v)
    && ((forall v :: (column, Some(v)) !in row) ==> cell == "")
  }

  lemma {:induction false} CellShowsField(row: Record, column: string)
    requires DistinctFields(row)
    ensures ShowsField(row, column, Cell(row, column))
    decreases |row|
  {
    if row != [] {
      assert row == [row[0]] + row[1..];
      CellShowsField(row[1..], column);
      if row[0].0 == column {
        forall v | (column, v) in row
          ensures v == row[0].1
        {
          var i :| 0 <= i < |row| && row[i] == (column, v);
        }
        assert row[0] == (column, row[0].1);
      } else {
        forall v
          ensures (column, Some(v)) in row <==> (column, Some(v)) in row[1..]
        {
        }
      }
    }
  }

  /** The lines read back show each record's fields under the header. */
  ghost predicate ShowsRecords(rows: seq<Record>, columns: seq<string>, lines: seq<seq<string>>)
  {
    && |lines| == |rows| + 1 && lines[0] == columns
    && (forall k :: 0 <= k < |lines| ==> |lines[k]| == |columns|)
    && (forall i, j :: 0 <= i < |rows| && 0 <= j < |columns| ==> ShowsField(rows[i], columns[j], lines[i + 1][j]))
  }

  lemma LinesShowRecords(rows: seq<Record>, columns: seq<string>)
    requires forall i :: 0 <= i < |rows| ==> DistinctFields(rows[i])
    ensures ShowsRecords(rows, columns, [columns] + LinesOf(rows, columns))
  {
    var lines := [columns] + LinesOf(rows, columns);
    forall i, j | 0 <= i < |rows| && 0 <= j < |columns|
      ensures ShowsField(rows[i], columns[j], lines[i + 1][j])
    {
      assert lines[i + 1] == CellsOf(rows[i], columns);
      CellShowsField(rows[i], columns[j]);
    }
  }

  function CellsOf(row: Record, columns: seq<string>): (cells: seq<string>)
    ensures |cells| == |columns|
  {
    seq(|columns|, i requires 0 <= i < |columns| => Cell(row, columns[i]))
  }

  function LinesOf(rows: seq<Record>, columns: seq<string>): (lines: seq<seq<string>>)
    ensures |lines| == |rows|
    ensures forall i :: 0 <= i < |rows| ==> lines[i] == CellsOf(rows[i], columns)
  {
    seq(|rows|, i requires 0 <= i < |rows| => CellsOf(rows[i], columns))
  }

  ghost predicate FieldOfFirst(rows: seq<Record>, n: nat, column: string)
    requires n <= |rows|
  {
    exists i :: 0 <= i < n && HasField(rows[i], column)
  }

  /** The distinct fields of the first n records. */
  ghost predicate ColumnsOf(rows: seq<Record>, n: nat, columns: seq<string>)
    requires n <= |rows|
  {
    && (forall i, j :: 0 <= i < j < |columns| ==> columns[i] != columns[j])
    && (forall c :: c in columns <==> FieldOfFirst(rows, n, c))
  }

  /** The columns with the first k fields of a record added. */
  function Extended(columns: seq<string>, row: Record, k: nat): seq<string>
    requires k <= |row|
  {
    if k == 0 then columns
    else
      var c := Extended(columns, row, k - 1);
      if row[k - 1].0 in c then c else c + [row[k - 1].0]
  }

  /** Fields in the order in which they first occur. */
  function Header(rows: seq<Record>, n: nat): seq<string>
    requires n <= |rows|
  {
    if n == 0 then [] else Extended(Header(rows, n - 1), rows[n - 1], |rows[n - 1]|)
  }

  function Names(row: Record): seq<string>
  {
    seq(|row|, i requires 0 <= i < |row| => row[i].0)
  }

  lemma {:induction false} ExtendedAppends(columns: seq<string>, row: Record, k: nat)
    requires k <= |row|
    ensures columns <= Extended(columns, row, k)
    ensures columns == [] && DistinctFields(row) ==> Extended(columns, row, k) == Names(row)[..k]
    decreases k
  {
    if k > 0 {
      ExtendedAppends(columns, row, k - 1);
      if columns == [] && DistinctFields(row) {
        assert forall i :: 0 <= i < k - 1 ==> Names(row)[..k - 1][i] == row[i].0;
        assert row[k - 1].0 !in Names(row)[..k - 1];
      }
    }
  }

  /** The first record's fields come first and in its order; later records only
      append columns. */
  lemma HeaderOrder(rows: seq<Record>, n: nat)
    requires n < |rows|
    ensures Header(rows, n) <= Header(rows, n + 1)
    ensures n == 0 && DistinctFields(rows[0]) ==> Header(rows, 1) == Names(rows[0])
  {
    ExtendedAppends(Header(rows, n), rows[n], |rows[n]|);
  }

  method CollectColumns(rows: seq<Record>) returns (columns: seq<string>)
    ensures ColumnsOf(rows, |rows|, columns) && columns == Header(rows, |rows|)
  {
    columns := [];
    for i := 0 to |rows|
      invariant ColumnsOf(rows, i, columns) && columns == Header(rows, i)
    {
      ghost var before := columns;
      for k := 0 to |rows[i]|
        invariant columns == Extended(before, rows[i], k)
        invariant forall x, y :: 0 <= x < y < |columns| ==> columns[x] != columns[y]
        invariant forall c :: c in columns <==> c in before || exists j :: 0 <= j < k && rows[i][j].0 == c
      {
        if rows[i][k].0 !in columns {
          columns := columns + [rows[i][k].0];
        }
      }
    }
  }

  /** `rowsToCsv`: reading the text back gives the header and, for every
      record, its cells in header order. */
  method RowsToCsv(rows: seq<Record>) returns (text: string, columns: seq<string>)
    ensures ColumnsOf(rows, |rows|, columns) && columns == Header(rows, |rows|)
    ensures rows == [] ==> text == ""
    ensures columns == [] ==> text == Repeat('\n', |rows|)
    ensures rows != [] && columns != [] ==> ReadTable(text) == [columns] + LinesOf(rows, columns)
    ensures rows != [] && columns != [] && (forall i :: 0 <= i < |rows| ==> DistinctFields(rows[i])) ==>
      ShowsRecords(rows, columns, ReadTable(text))
  {
    columns := CollectColumns(rows);
    if rows == [] {
      return "", columns;
    }
    if columns == [] {
      text := Repeat('\n', |rows|);
      return;
    }
    text := PrintRow(columns);
    ghost var printed := [columns];
    for i := 0 to |rows|
      invariant printed == [columns] + LinesOf(rows, columns)[..i]
      invariant Table(printed) && text == PrintTable(printed)
    {
      var cells := CellsOf(rows[i], columns);
      PrintAppends(printed, cells);
      text := text + ['\n'] + PrintRow(cells);
      printed := printed + [cells];
    }
    TableReadsBack(printed);
    assert LinesOf(rows, columns)[..|rows|] == LinesOf(rows, columns);
    if forall i :: 0 <= i < |rows| ==> DistinctFields(rows[i]) {
      LinesShowRecords(rows, columns);
    }
  }

  /** Records without fields print as empty lines. */
  function Repeat(c: char, n: nat): string
  {
    seq(n, _ => c)
  }

  lemma {:induction false} PrintAppends(rows: seq<seq<string>>, cells: seq<string>)
    requires rows != [] && Table(rows) && cells != []
    ensures Table(rows + [cells])
    ensures PrintTable(rows + [cells]) == PrintTable(rows) + ['\n'] + PrintRow(cells)
    decreases |rows|
  {
    var all := rows + [cells];
    assert all[0] == rows[0];
    if |rows| == 1 {
      assert all[1..] == [cells];
    } else {
      assert all[1..] == rows[1..] + [cells];
      PrintAppends(rows[1..], cells);
      assert PrintRow(rows[0]) + ['\n'] + (PrintTable(rows[1..]) + ['\n'] + PrintRow(cells))
          == (PrintRow(rows[0]) + ['\n'] + PrintTable(rows[1..])) + ['\n'] + PrintRow(cells);
    }
  }
}
