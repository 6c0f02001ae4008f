/** The attendance application's record store: the day's table (the main
    Treeview), the day file that mirrors it, and the filtered view of the
    search window. Dialogs become outcomes and parameters: the clock reading,
    the user's delete confirmation and whether the day file can be opened
    for writing are passed in. */
module AttendanceApp {
  import opened Text
  import opened DayFile
  import opened RecordTable

  /** How a user action ended. Every value but `Success` names the warning or
      error the application shows instead of doing its work, or the exception
      the source raises instead: a submit's `StorageError` (the append has no
      handler), `ItemNotFound` (the Treeview refuses a deleted item) and
      `MissingHeader` (skipping the header of an empty file). */
  datatype Outcome =
    | Success
    | InputError        // "Student ID and Name are required!"
    | NoSelection       // delete with nothing selected
    | InvalidSelection  // edit with zero or several rows selected
    | Declined          // the delete confirmation was answered "no"
    | NothingToExport   // export of an empty table
    | ItemNotFound      // the edited row no longer exists
    | StorageError      // the day file could not be opened for writing
    | MissingHeader     // the day file exists but has no first line

  class AttendanceSystem {
    /** The main table's rows, top to bottom. */
    var items: seq<Item>
    /** The Treeview's counter for fresh row identifiers. */
    var nextIid: nat
    /** The day file: absent, or its lines split into fields. */
    var file: Option<seq<Row>>
    /** The search window's table. */
    var view: seq<Record>

    /** Row identifiers are unique and all were handed out by the counter. */
    ghost predicate Valid()
      reads this
    {
      UniqueIds(items) && forall i :: 0 <= i < |items| ==> items[i].iid < nextIid
    }

    /** The records of the main table, in display order. */
    function Table(): seq<Record>
      reads this
    {
      Values(items)
    }

    /** The day file mirrors the table: loading it would give the table back. */
    ghost predicate InSync()
      reads this
    {
      (file.Some? ==> file.value != []) && Contents(file) == Table()
    }

    /** Start-up: an empty table, then a load of the day file. A day file that
        exists but is empty makes the start-up itself fail. */
    constructor (dayFile: Option<seq<Row>>)
      requires dayFile.Some? ==> dayFile.value != []
      ensures Valid() && file == dayFile && view == []
      ensures Table() == Contents(dayFile) && InSync()
    {
      items, nextIid, file, view := [], 0, dayFile, [];
      new;
      var _ := LoadRecords();
    }

    /** Appends a row with a fresh identifier at the end of the table. */
    method Insert(r: Record)
      requires Valid()
      modifies this`items, this`nextIid
      ensures Valid()
      ensures items != [] && items[..|items| - 1] == old(items) && items[|items| - 1] == Item(old(nextIid), r)
      ensures nextIid == old(nextIid) + 1
      ensures Table() == old(Table()) + [r]
    {
      items := items + [Item(nextIid, r)];
      nextIid := nextIid + 1;
    }

    /** Submit: strips the id, name and department, refuses an empty id or
        name, otherwise inserts the record at the end of the table and appends
        its row to the day file. */
    method SubmitAttendance(idText: string, nameText: string, deptText: string, status: Status,
                            now: string, writable: bool) returns (outcome: Outcome)
      requires Valid()
      modifies this`items, this`nextIid, this`file
      ensures Valid()
      ensures outcome == if Strip(idText) == [] || Strip(nameText) == [] then InputError
                         else if writable then Success else StorageError
      ensures outcome == InputError ==>
        items == old(items) && nextIid == old(nextIid) && file == old(file)
      ensures outcome != InputError ==>
        var r := Record(Strip(idText), Strip(nameText), Strip(deptText), status.Name(), now);
        |items| == |old(items)| + 1 && items[..|old(items)|] == old(items) &&
        items[|old(items)|] == Item(old(nextIid), r) && nextIid == old(nextIid) + 1 &&
        Table() == old(Table()) + [r] &&
        file == if writable then Appended(old(file), ToRow(r)) else old(file)
      ensures old(InSync()) && outcome == Success ==> InSync()
    {
      var id := Strip(idText);
      var name := Strip(nameText);
      var dept := Strip(deptText);
      if id == [] || name == [] {
        return InputError;
      }
      var r := Record(id, name, dept, status.Name(), now);
      outcome := AddRecord(r, writable);
    }

    /** The second half of a submit: inserts the record at the end of the
        table, then appends its row to the day file. */
    method AddRecord(r: Record, writable: bool) returns (outcome: Outcome)
      requires Valid()
      modifies this`items, this`nextIid, this`file
      ensures Valid()
      ensures outcome == if writable then Success else StorageError
      ensures |items| == |old(items)| + 1 && items[..|old(items)|] == old(items)
      ensures items[|old(items)|] == Item(old(nextIid), r) && nextIid == old(nextIid) + 1
      ensures Table() == old(Table()) + [r]
      ensures file == if writable then Appended(old(file), ToRow(r)) else old(file)
      ensures old(InSync()) && outcome == Success ==> InSync()
    {
      ghost var before, table := file, Table();
      ghost var synced := InSync();
      Insert(r);
      var written := SaveToCsv(ToRow(r), writable);
      outcome := if written then Success else StorageError;
      if written && synced {
        LoadAfterAppend(before, r);
      }
    }

    /** Appends one row to the day file, writing the header first when the
        file does not exist yet. */
    method SaveToCsv(row: Row, writable: bool) returns (written: bool)
      modifies this`file
      ensures written == writable
      ensures file == if writable then Appended(old(file), row) else old(file)
    {
      if !writable {
        return false;
      }
      var existed := file.Some?;
      var lines := if existed then file.value else [];
      if !existed {
        lines := lines + [HEADER];
      }
      lines := lines + [row];
      assert lines == if existed then old(file).value + [row] else [HEADER, row];
      file := Some(lines);
      written := true;
    }

    /** Replaces the table with the day file's records: nothing happens when
        the file is absent; otherwise the table is cleared, the first line is
        skipped and every five-field row is inserted in file order. */
    method LoadRecords() returns (outcome: Outcome)
      requires Valid()
      modifies this`items, this`nextIid
      ensures Valid()
      ensures outcome == if file == Some([]) then MissingHeader else Success
      ensures file.None? ==> items == old(items) && nextIid == old(nextIid)
      ensures file.Some? ==> Table() == Contents(file)
      ensures outcome == Success && file.Some? ==> InSync()
    {
      if file.None? {
        return Success;
      }
      items := [];
      var lines := file.value;
      if lines == [] {
        return MissingHeader;
      }
      InsertRows(DataRows(lines));
      outcome := Success;
    }

    /** Inserts, in order, the record of every row of exactly five fields. */
    method InsertRows(rows: seq<Row>)
      requires Valid()
      modifies this`items, this`nextIid
      ensures Valid()
      ensures |items| >= |old(items)| && items[..|old(items)|] == old(items)
      ensures Table() == old(Table()) + Parsed(rows)
    {
      ghost var before := Table();
      var i := 0;
      while i < |rows|
        invariant 0 <= i <= |rows|
        invariant Valid()
        invariant |items| >= |old(items)| && items[..|old(items)|] == old(items)
        invariant Table() == before + Parsed(rows[..i])
      {
        var row := rows[i];
        ParsedPrefix(rows, i);
        if |row| == 5 {
          Insert(FromRow(row));
          assert Table() == before + (Parsed(rows[..i]) + [FromRow(row)]);
        }
        i := i + 1;
      }
      assert rows[..i] == rows;
    }

    /** Truncates the day file and writes the header and then every table row
        in order; when the file cannot be opened nothing changes. */
    method RewriteCsvFile(writable: bool) returns (written: bool)
      modifies this`file
      ensures written == writable
      ensures file == if writable then Some([HEADER] + RowsOf(Table())) else old(file)
      ensures written ==> InSync()
    {
      if !writable {
        return false;
      }
      file := Some([HEADER]);
      var i := 0;
      while i < |items|
        invariant 0 <= i <= |items|
        invariant file.Some? && |file.value| == i + 1 && file.value[0] == HEADER
        invariant forall k :: 0 <= k < i ==> file.value[k + 1] == ToRow(items[k].values)
      {
        file := Some(file.value + [ToRow(items[i].values)]);
        i := i + 1;
      }
      assert file.value == [HEADER] + RowsOf(Table());
      LoadAfterRewrite(Table());
      written := true;
    }

    /** Export: refuses an empty table; otherwise rewrites the day file from
        the table. */
    method ExportToCsv(writable: bool) returns (outcome: Outcome)
      modifies this`file
      ensures outcome == if items == [] then NothingToExport
                         else if writable then Success else StorageError
      ensures file == if outcome == Success then Some([HEADER] + RowsOf(Table())) else old(file)
      ensures outcome == Success ==> InSync()
    {
      if items == [] {
        return NothingToExport;
      }
      var written := RewriteCsvFile(writable);
      outcome := if written then Success else StorageError;
    }

    /** Delete: with a non-empty selection and the user's confirmation, removes
        every selected row, keeps the others in order and rewrites the file.
        `written` is false after a `Success` when the rewrite failed: the
        application then shows its save error and still reports the deletion. */
    method DeleteSelectedRecords(selection: seq<nat>, confirmed: bool, writable: bool)
      returns (outcome: Outcome, written: bool)
      requires Valid()
      requires Distinct(selection)
      requires forall k :: 0 <= k < |selection| ==> selection[k] in Ids(items)
      modifies this`items, this`file
      ensures Valid()
      ensures outcome == if selection == [] then NoSelection
                         else if !confirmed then Declined else Success
      ensures written <==> outcome == Success && writable
      ensures outcome != Success ==> items == old(items) && file == old(file)
      ensures outcome == Success ==>
        items == Keep(old(items), Elems(selection)) &&
        file == if writable then Some([HEADER] + RowsOf(Table())) else old(file)
      ensures outcome == Success && writable ==> InSync()
    {
      if selection == [] {
        return NoSelection, false;
      }
      if !confirmed {
        return Declined, false;
      }
      RemoveItems(selection);
      written := RewriteCsvFile(writable);
      outcome := Success;
    }

    /** Removes the selected rows one at a time. */
    method RemoveItems(selection: seq<nat>)
      requires Valid()
      requires Distinct(selection)
      requires forall k :: 0 <= k < |selection| ==> selection[k] in Ids(items)
      modifies this`items
      ensures Valid()
      ensures items == Keep(old(items), Elems(selection))
    {
      ghost var before := items;
      var k := 0;
      assert Elems(selection[..0]) == {};
      KeepNothing(items);
      while k < |selection|
        invariant 0 <= k <= |selection|
        invariant items == Keep(before, Elems(selection[..k]))
      {
        KeepTwice(before, Elems(selection[..k]), selection[k]);
        assert Elems(selection[..k + 1]) == Elems(selection[..k]) + {selection[k]};
        items := Keep(items, {selection[k]});
        k := k + 1;
      }
      assert selection[..k] == selection;
      assert items == Keep(before, Elems(selection));
      KeepSelection(before, selection);
      KeepBounded(before, Elems(selection), nextIid);
    }

    /** Edit, first step: only a selection of exactly one row opens the edit
        form, prefilled with that row. */
    method EditSelectedRecord(selection: seq<nat>) returns (outcome: Outcome, target: Option<Item>)
      requires forall k :: 0 <= k < |selection| ==> selection[k] in Ids(items)
      ensures outcome == if |selection| == 1 then Success else InvalidSelection
      ensures target.Some? <==> outcome == Success
      ensures target.Some? ==> target.value.iid == selection[0] && target.value in items
    {
      if |selection| != 1 {
        return InvalidSelection, None;
      }
      var k := Find(items, selection[0]).value;
      return Success, Some(items[k]);
    }

    /** Edit, second step: refuses an empty id or name (nothing is stripped
        here); otherwise replaces the row's values in place, with the time
        reset to `now`, and rewrites the day file. `written` is false after a
        `Success` when the rewrite failed: the application then shows its save
        error and still reports the update. */
    method SaveEditedRecord(iid: nat, id: string, name: string, dept: string, status: string,
                            now: string, writable: bool) returns (outcome: Outcome, written: bool)
      requires Valid()
      modifies this`items, this`file
      ensures Valid()
      ensures outcome == if id == [] || name == [] then InputError
                         else if iid !in Ids(old(items)) then ItemNotFound else Success
      ensures written <==> outcome == Success && writable
      ensures outcome != Success ==> items == old(items) && file == old(file)
      ensures outcome == Success ==>
        var k := Find(old(items), iid).value;
        var r := Record(id, name, dept, status, now);
        items == old(items)[k := Item(iid, r)] &&
        Table() == old(Table())[k := r] &&
        file == if writable then Some([HEADER] + RowsOf(Table())) else old(file)
      ensures outcome == Success && writable ==> InSync()
    {
      if id == [] || name == [] {
        return InputError, false;
      }
      var found := Find(items, iid);
      if found.None? {
        return ItemNotFound, false;
      }
      var k := found.value;
      var r := Record(id, name, dept, status, now);
      items := items[k := Item(iid, r)];
      written := RewriteCsvFile(writable);
      outcome := Success;
    }

    /** Shows every table row in the search window, in table order. */
    method ClearSearch()
      modifies this`view
      ensures view == Table()
    {
      view := [];
      var i := 0;
      while i < |items|
        invariant 0 <= i <= |items|
        invariant |view| == i
        invariant forall k :: 0 <= k < i ==> view[k] == items[k].values
      {
        view := view + [items[i].values];
        i := i + 1;
      }
    }

    /** Opens the search window showing the whole table; an empty table opens
        nothing. */
    method ViewRecords() returns (shown: bool)
      modifies this`view
      ensures shown <==> items != []
      ensures view == if shown then Table() else old(view)
    {
      if items == [] {
        return false;
      }
      ClearSearch();
      shown := true;
    }

    /** Search: an empty term shows the whole table; otherwise the search
        window shows, in table order, the rows whose id, name, department or
        status contains the lowercased term. `noMatches` reports the "No
        matches found." notice. */
    method SearchRecords(term: string) returns (noMatches: bool)
      modifies this`view
      ensures view == if term == [] then Table() else Matching(Table(), Lower(term))
      ensures noMatches <==> term != [] && view == []
    {
      var lowered := Lower(term);
      if lowered == [] {
        ClearSearch();
        return false;
      }
      view := [];
      var i := 0;
      while i < |items|
        invariant 0 <= i <= |items|
        invariant view == Matching(Values(items[..i]), lowered)
      {
        var r := items[i].values;
        assert Values(items[..i + 1]) == Values(items[..i]) + [r] by {
          assert items[..i + 1][..i] == items[..i];
        }
        if Matches(r, lowered) {
          view := view + [r];
        }
        i := i + 1;
      }
      assert items[..i] == items;
      noMatches := view == [];
    }
  }
}
