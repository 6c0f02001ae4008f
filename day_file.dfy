/** The attendance record and the per-day file that mirrors the table: a file
    is either absent or a sequence of rows of text fields, the first of which
    is skipped on load. The CSV quoting and escaping is below this level: a
    row here is the list of fields the `csv` module writes and reads back. */
module DayFile {

  datatype Option<T> = None | Some(value: T)

  /** One line of the day file, as a list of fields. */
  type Row = seq<string>

  /** The choices of the form's read-only status selector. */
  datatype Status = Present | Absent | Late {
    function Name(): (s: string)
      ensures s != []
    {
      match this
      case Present => "Present"
      case Absent => "Absent"
      case Late => "Late"
    }
  }

  /** One attendance entry, the five values of a table row. The status is
      text: a row loaded from the file may carry any status. */
  datatype Record = Record(id: string, name: string, dept: string, status: string, time: string)

  /** The five-column header written ahead of the data rows. */
  const HEADER: Row := ["Student ID", "Name", "Department", "Status", "Time"]

  /** The row written for a record: its five values in column order. */
  function ToRow(r: Record): (row: Row)
    ensures |row| == 5
  {
    [r.id, r.name, r.dept, r.status, r.time]
  }

  /** The record loaded from a five-field row; the inverse of `ToRow`. */
  function FromRow(row: Row): (r: Record)
    requires |row| == 5
    ensures ToRow(r) == row
  {
    Record(row[0], row[1], row[2], row[3], row[4])
  }

  /** The rows written for a table, one per record, in table order. */
  function RowsOf(t: seq<Record>): (rows: seq<Row>)
    ensures |rows| == |t|
    ensures forall i :: 0 <= i < |t| ==> rows[i] == ToRow(t[i])
  {
    if t == [] then [] else RowsOf(t[..|t| - 1]) + [ToRow(t[|t| - 1])]
  }

  /** The lines after the first one, which loading skips as the header. */
  function DataRows(lines: seq<Row>): (data: seq<Row>)
    ensures lines != [] ==> [lines[0]] + data == lines
    ensures lines == [] ==> data == []
  {
    if lines == [] then [] else lines[1..]
  }

  /** The records loaded from data rows: every row of exactly five fields, in
      file order; rows of any other length are dropped. */
  function Parsed(rows: seq<Row>): (t: seq<Record>)
    ensures |t| <= |rows|
  {
    if rows == [] then []
    else
      var init, last := rows[..|rows| - 1], rows[|rows| - 1];
      Parsed(init) + (if |last| == 5 then [FromRow(last)] else [])
  }

  /** Loading one more row adds its record when it has five fields. */
  lemma ParsedSnoc(rows: seq<Row>, row: Row)
    ensures Parsed(rows + [row]) == Parsed(rows) + (if |row| == 5 then [FromRow(row)] else [])
  {
    assert (rows + [row])[..|rows|] == rows;
  }

  /** Loading the rows up to and including row `i` adds that row's record to
      what the rows before it give, when it has five fields. */
  lemma ParsedPrefix(rows: seq<Row>, i: nat)
    requires i < |rows|
    ensures Parsed(rows[..i + 1]) == Parsed(rows[..i]) + (if |rows[i]| == 5 then [FromRow(rows[i])] else [])
  {
    assert rows[..i + 1] == rows[..i] + [rows[i]];
    ParsedSnoc(rows[..i], rows[i]);
  }

  /** A record is loaded exactly when its row is among the data rows. */
  lemma {:induction false} ParsedMembers(rows: seq<Row>)
    ensures forall r :: r in Parsed(rows) <==> ToRow(r) in rows
  {
    if rows != [] {
      var init, last := rows[..|rows| - 1], rows[|rows| - 1];
      ParsedMembers(init);
      assert rows == init + [last];
    }
  }

  /** The records a day file holds: none when it is absent. */
  function Contents(f: Option<seq<Row>>): (t: seq<Record>)
    ensures f.None? ==> t == []
    ensures f.Some? && f.value != [] ==> |t| < |f.value|
    ensures f == Some([]) ==> t == []
  {
    match f
    case None => []
    case Some(lines) => Parsed(DataRows(lines))
  }

  /** The day file after one row is appended to it: the header goes first
      when the file did not exist. */
  function Appended(f: Option<seq<Row>>, row: Row): (g: Option<seq<Row>>)
    ensures g.Some? && g.value != [] && g.value[|g.value| - 1] == row
    ensures f.None? ==> |g.value| == 2 && g.value[0] == HEADER
    ensures f.Some? ==> |g.value| == |f.value| + 1 && g.value[..|f.value|] == f.value
  {
    match f
    case None => Some([HEADER, row])
    case Some(lines) => Some(lines + [row])
  }

  /** Loading is compositional: the records of two runs of rows are those of
      the first run followed by those of the second. */
  lemma {:induction false} ParsedConcat(a: seq<Row>, b: seq<Row>)
    ensures Parsed(a + b) == Parsed(a) + Parsed(b)
  {
    if b == [] {
      assert a + b == a;
    } else {
      var init := b[..|b| - 1];
      ParsedConcat(a, init);
      assert (a + b)[..|a + b| - 1] == a + init;
    }
  }

  /** A row whose field count is not five contributes nothing to a load,
      wherever it stands. */
  lemma {:induction false} ParsedDropsMalformed(a: seq<Row>, row: Row, b: seq<Row>)
    requires |row| != 5
    ensures Parsed(a + [row] + b) == Parsed(a + b)
  {
    ParsedConcat(a + [row], b);
    ParsedConcat(a, [row]);
    ParsedConcat(a, b);
    assert Parsed([row]) == Parsed([]) + [];
  }

  /** Rows of five fields are all kept, in order, and writing the loaded table
      back reproduces them exactly. */
  lemma {:induction false} ParsedKeepsWellFormed(rows: seq<Row>)
    requires forall i :: 0 <= i < |rows| ==> |rows[i]| == 5
    ensures |Parsed(rows)| == |rows|
    ensures RowsOf(Parsed(rows)) == rows
  {
    if rows != [] {
      var init, last := rows[..|rows| - 1], rows[|rows| - 1];
      ParsedKeepsWellFormed(init);
      assert rows == init + [last];
      ParsedSnoc(init, last);
      RowsOfSnoc(Parsed(init), FromRow(last));
    }
  }

  /** Writing one more record writes one more row. */
  lemma RowsOfSnoc(t: seq<Record>, r: Record)
    ensures RowsOf(t + [r]) == RowsOf(t) + [ToRow(r)]
  {
    assert (t + [r])[..|t|] == t;
  }

  /** Loading the rows written for a table gives back that table. */
  lemma {:induction false} ParsedRowsOf(t: seq<Record>)
    ensures Parsed(RowsOf(t)) == t
  {
    if t != [] {
      var init, last := t[..|t| - 1], t[|t| - 1];
      ParsedRowsOf(init);
      assert RowsOf(t) == RowsOf(init) + [ToRow(last)];
      ParsedSnoc(RowsOf(init), ToRow(last));
      assert FromRow(ToRow(last)) == last;
      assert t == init + [last];
    }
  }

  /** The rewrite/load round trip: a file rewritten from a table holds exactly
      that table. */
  lemma LoadAfterRewrite(t: seq<Record>)
    ensures Contents(Some([HEADER] + RowsOf(t))) == t
  {
    assert DataRows([HEADER] + RowsOf(t)) == RowsOf(t);
    ParsedRowsOf(t);
  }

  /** Appending a record's row to a file (absent, or holding at least a
      header line) adds exactly that record at the end of what a load gives. */
  lemma LoadAfterAppend(f: Option<seq<Row>>, r: Record)
    requires f.Some? ==> f.value != []
    ensures Contents(Appended(f, ToRow(r))) == Contents(f) + [r]
  {
    match f
    case None =>
      assert DataRows([HEADER, ToRow(r)]) == [ToRow(r)];
      assert Parsed([ToRow(r)]) == Parsed([]) + [r];
    case Some(lines) =>
      var data := DataRows(lines);
      assert DataRows(lines + [ToRow(r)]) == data + [ToRow(r)];
      ParsedConcat(data, [ToRow(r)]);
      assert Parsed([ToRow(r)]) == Parsed([]) + [r];
  }

  /** Appending to a day file that exists but is empty writes no header, so
      the next load skips the appended row as if it were the header and the
      record is lost. */
  lemma AppendToEmptyFileLosesRecord(r: Record)
    ensures Contents(Appended(Some([]), ToRow(r))) == []
    ensures Contents(Appended(Some([]), ToRow(r))) != Contents(Some([])) + [r]
  {
    assert DataRows([ToRow(r)]) == [];
  }

  /** The append as evidently intended: the header goes first whenever the
      file has no first line, whether it is absent or empty. */
  function AppendedWithHeader(f: Option<seq<Row>>, row: Row): (g: Option<seq<Row>>)
    ensures g.Some? && g.value != [] && g.value[|g.value| - 1] == row
    ensures f.Some? && f.value != [] ==> g == Appended(f, row)
  {
    match f
    case None => Some([HEADER, row])
    case Some(lines) => if lines == [] then Some([HEADER, row]) else Some(lines + [row])
  }

  /** With the intended append, a record appended to any day file loads back
      at the end of what the file held. */
  lemma LoadAfterAppendWithHeader(f: Option<seq<Row>>, r: Record)
    ensures Contents(AppendedWithHeader(f, ToRow(r))) == Contents(f) + [r]
  {
    if f.Some? && f.value != [] {
      LoadAfterAppend(f, r);
    } else {
      LoadAfterAppend(None, r);
    }
  }

  /** The day file after a run of submits, one appended row per record,
      starting from the file `f`. */
  ghost function AppendedAll(f: Option<seq<Row>>, t: seq<Record>): Option<seq<Row>> {
    if t == [] then f else Appended(AppendedAll(f, t[..|t| - 1]), ToRow(t[|t| - 1]))
  }

  /** Submitting records one after another into an absent file writes the same
      file as a rewrite from those records. */
  lemma {:induction false} AppendsEqualRewrite(t: seq<Record>)
    requires t != []
    ensures AppendedAll(None, t) == Some([HEADER] + RowsOf(t))
  {
    var init := t[..|t| - 1];
    if init == [] {
      assert AppendedAll(None, init) == None;
      assert AppendedAll(None, t) == Some([HEADER, ToRow(t[0])]);
      assert RowsOf(t) == [ToRow(t[0])];
      assert [HEADER] + RowsOf(t) == [HEADER, ToRow(t[0])];
    } else {
      AppendsEqualRewrite(init);
      assert RowsOf(t) == RowsOf(init) + [ToRow(t[|t| - 1])];
      assert [HEADER] + RowsOf(t) == ([HEADER] + RowsOf(init)) + [ToRow(t[|t| - 1])];
    }
  }

  /** Records submitted into an absent file load back in insertion order with
      identical values. */
  lemma LoadAfterSubmits(t: seq<Record>)
    ensures Contents(AppendedAll(None, t)) == t
  {
    if t != [] {
      AppendsEqualRewrite(t);
      LoadAfterRewrite(t);
    }
  }
}
