# Attendance record store

A Dafny model of the record store of the Smart Attendance System
(`AttendanceSystem` in `student_management.py`). The store has three parts:

- **The day's table.** This is the main Treeview: an ordered sequence of
  rows. Each row has a Treeview item identifier and five text values: id,
  name, department, status and time.
- **The day file.** It is either absent or a sequence of lines, each a list
  of fields. Submitting appends one line, writing the header first when the
  file is new. Rewriting and exporting truncate the file and write the header
  and then every table row. Loading skips the first line and keeps the lines
  of exactly five fields.
- **The search window's table.** Searching filters the day's table by a
  lowercased term and keeps table order. Clearing the search shows
  everything.

The model is the class `AttendanceApp.AttendanceSystem`, whose methods
update its fields (`items`, `nextIid`, `file`, `view`) step by step, with
the same loops as the source. Three modules hold the specification
functions the methods are proved against, and the lemmas about them:

- `Text`: Python's `strip()`, ASCII `lower()` and the substring test.
- `DayFile`: records, rows, and what a load gives back from a file.
- `RecordTable`: the table rows with identifiers, removal of a selection,
  and the search filter.

Dialogs become parameters and outcomes. The user's answer to the delete
confirmation is the parameter `confirmed`. The clock reading is the
parameter `now`. Whether the day file can be opened for writing is the
parameter `writable`. A warning or error box that ends a user action is an
`Outcome` value. Three boxes are booleans instead:

- The "No attendance records found" notice is `ViewRecords` returning
  `shown` false.
- The "No matches found." notice is `SearchRecords` returning `noMatches`.
- The save error that a failed rewrite shows after a delete or an edit is
  `written` false. The action itself still ends in `Success`, as in the
  source, which shows its success box after the error.

Where the code and its documentation differ, the model follows the code:

- Loading an absent file leaves the table as it was.
- Exporting refuses an empty table.
- A loaded or edited status is arbitrary text, not one of the three choices.
- Saving an edit does not strip its inputs.

## Model

| member | source | states |
|---|---|---|
| Text.Strip | student_management.py:376-378 | the stripped text is no longer than the input and neither starts nor ends with whitespace |
| Text.StripEmpty | student_management.py:376-382 | stripping gives the empty string exactly when every character of the input is whitespace, which is when the required-field check rejects it |
| Text.StripIsTrimmedSlice | student_management.py:376-378 | the stripped text occurs in the input at some position, and everything before and after it is whitespace |
| Text.StripTrimmed | student_management.py:376-378 | text that neither starts nor ends with whitespace is returned unchanged |
| Text.StripIdempotent | student_management.py:376-378 | stripping twice gives the same as stripping once |
| Text.LowerChar | student_management.py:530 | a lowered character is never an upper-case ASCII letter; upper-case letters map to their lower-case form and all other characters are kept |
| Text.Lower | student_management.py:530 | lowering keeps the length and lowers every character in its place |
| Text.Contains | student_management.py:541-544 | `sub in s` holds exactly when `sub` occurs in `s` at some position |
| DayFile.Status.Name | student_management.py:121-126 | each status choice of the form has a non-empty label |
| DayFile.ToRow | student_management.py:421 | the row written for a record has five fields |
| DayFile.FromRow | student_management.py:435-440 | the record loaded from a five-field row writes back as that same row |
| DayFile.RowsOf | student_management.py:369-370 | a rewrite writes one row per table record, in table order |
| DayFile.DataRows | student_management.py:432 | the header skip drops exactly the first line |
| DayFile.Parsed | student_management.py:434-440 | a load never gives more records than the file has data rows |
| DayFile.ParsedSnoc | student_management.py:434-440 | reading one more row adds its record exactly when it has five fields |
| DayFile.ParsedPrefix | student_management.py:434-440 | the records of the rows read so far grow by the next row's record exactly when it has five fields |
| DayFile.ParsedMembers | student_management.py:434-440 | a record is loaded exactly when its row is among the data rows |
| DayFile.ParsedConcat | student_management.py:434-440 | loading two runs of rows gives the first run's records followed by the second's |
| DayFile.ParsedDropsMalformed | student_management.py:435 | a row with a field count other than five contributes nothing to a load, wherever it stands |
| DayFile.ParsedKeepsWellFormed | student_management.py:434-440 | when every data row has five fields, all are loaded, in order, and writing them back gives the same rows |
| DayFile.RowsOfSnoc | student_management.py:369-370 | writing one more record writes exactly one more row, at the end |
| DayFile.ParsedRowsOf | student_management.py:362-370 | loading the rows written for a table gives back that table |
| DayFile.Appended | student_management.py:410-421 | an append adds the row as the last line, writes the header first when the file was absent, and keeps every earlier line |
| DayFile.LoadAfterRewrite | student_management.py:362-370 | a rewrite followed by a load gives back the original table |
| DayFile.LoadAfterAppend | student_management.py:410-421 | appending a record's row to a file that is absent or has a first line adds exactly that record at the end of what a load gives; an existing empty file is the exception recorded under Findings |
| DayFile.Contents | student_management.py:423-440 | an absent file or an empty one loads no records, and a present file never loads more records than it has lines after the first |
| DayFile.AppendToEmptyFileLosesRecord | student_management.py:410-432 | appending a record to an existing empty file, then loading, gives no records: the record is lost |
| DayFile.AppendedWithHeader | student_management.py:410-421 | the intended append writes the row last and agrees with the source's append on every file that has a first line |
| DayFile.LoadAfterAppendWithHeader | student_management.py:410-440 | with the intended append, a record appended to any day file loads back at the end of what the file held |
| DayFile.AppendsEqualRewrite | student_management.py:392-399 | submitting records one by one into an absent file writes the same file as a rewrite from those records |
| DayFile.LoadAfterSubmits | student_management.py:392-399 | records submitted into an absent file load back in insertion order with identical values |
| RecordTable.Values | student_management.py:369 | the table's records are its rows' values, position by position |
| RecordTable.Ids | student_management.py:257 | every row's identifier belongs to the table's identifiers |
| RecordTable.IdsNameRows | student_management.py:257 | every identifier of the table names one of its rows |
| RecordTable.Find | student_management.py:350-353 | the row of an identifier is found exactly when the table holds that identifier |
| RecordTable.Keep | student_management.py:269-270 | removing rows never lengthens the table |
| RecordTable.KeepMembers | student_management.py:269-270 | a row survives a removal exactly when it was in the table and its identifier was not removed |
| RecordTable.KeepNothing | student_management.py:269-270 | removing no identifiers leaves the table as it is |
| RecordTable.KeepBounded | student_management.py:269-270 | removal keeps every remaining identifier below the bound the identifiers were below |
| RecordTable.KeepTwice | student_management.py:269-270 | removing the selected rows one at a time removes them all together |
| RecordTable.KeepCount | student_management.py:269-270 | with unique identifiers, a removal removes as many rows as the removed set shares with the table |
| RecordTable.CommonWithOneMore | student_management.py:269-270 | a fresh identifier adds to what a removal set shares with the table exactly when the set holds it |
| RecordTable.LastIdFresh | student_management.py:269-270 | helper for KeepCount: with unique identifiers, the last row's identifier is new to the rows before it |
| RecordTable.KeepIsSubsequence | student_management.py:269-270 | removal keeps the remaining rows in their original relative order |
| RecordTable.KeepUnique | student_management.py:269-270 | removal keeps the identifiers unique |
| RecordTable.DistinctElems | student_management.py:257 | a selection without repeats has as many identifiers as entries |
| RecordTable.KeepSelection | student_management.py:257-273 | removing N distinct selected rows from M leaves M - N rows, in their original order, with unique identifiers |
| RecordTable.Matches | student_management.py:541-544 | the empty term matches every row, and a matching term is no longer than at least one of the id, name, department and status |
| RecordTable.Matching | student_management.py:538-546 | a search never shows more rows than the table has |
| RecordTable.MatchingMembers | student_management.py:538-546 | a row is shown exactly when it is in the table and its id, name, department or status contains the term |
| RecordTable.MatchingConcat | student_management.py:538-546 | the rows shown for two runs of rows are those shown for the first followed by those shown for the second, so a matching row is shown once per occurrence, duplicates included |
| RecordTable.MatchingIsSubsequence | student_management.py:538-546 | the search result keeps table order |
| RecordTable.MatchingEmptyTerm | student_management.py:519-534 | the empty term matches every row, so filtering by it shows the whole table |
| RecordTable.MatchingNone | student_management.py:548-549 | a term that no row matches shows nothing |
| RecordTable.MatchingUnique | student_management.py:538-546 | a term that exactly one row matches shows that row alone |
| RecordTable.MatchIgnoresTime | student_management.py:541-544 | changing a row's time never changes whether a search shows it |
| AttendanceApp.AttendanceSystem.constructor | student_management.py:9-25 | start-up loads the day file: the table is the file's records, the file mirrors it, and the search view is empty |
| AttendanceApp.AttendanceSystem.Insert | student_management.py:392-396 | an insert adds a row with a fresh identifier at the end of the table and keeps identifiers unique |
| AttendanceApp.AttendanceSystem.SubmitAttendance | student_management.py:374-408 | an empty stripped id or name changes nothing, counter included; otherwise every earlier row keeps its identifier and values, the stripped record is added at the end under a fresh identifier, the file gains its row when it can be written (otherwise it is left as it was), and after a `Success` a file that mirrored the table still does |
| AttendanceApp.AttendanceSystem.AddRecord | student_management.py:392-399 | every earlier row keeps its identifier and values, the record ends the table under a fresh identifier, its row ends the file when the file can be written (otherwise the file is left as it was), and after a `Success` a file that mirrored the table still does |
| AttendanceApp.AttendanceSystem.SaveToCsv | student_management.py:410-421 | the file becomes the old file with the row appended, with the header first when it was absent; a failed open changes nothing |
| AttendanceApp.AttendanceSystem.LoadRecords | student_management.py:423-440 | an absent file leaves the table alone; a present file replaces the table with its records, and a file with no first line is reported |
| AttendanceApp.AttendanceSystem.InsertRows | student_management.py:434-440 | the rows already in the table keep their identifiers and values, and the table gains after them, in order, the records of the five-field rows |
| AttendanceApp.AttendanceSystem.RewriteCsvFile | student_management.py:362-372 | the file becomes the header followed by every table row in table order, so it mirrors the table; a failed open changes nothing |
| AttendanceApp.AttendanceSystem.ExportToCsv | student_management.py:551-579 | an empty table is refused and the file is untouched; otherwise the file is rewritten from the table |
| AttendanceApp.AttendanceSystem.DeleteSelectedRecords | student_management.py:255-278 | an empty or declined selection changes nothing; otherwise exactly the selected rows are removed and the file is rewritten to mirror the table, with `written` reporting whether the rewrite succeeded |
| AttendanceApp.AttendanceSystem.RemoveItems | student_management.py:269-270 | removing the selected rows one by one leaves exactly the unselected rows and keeps identifiers unique |
| AttendanceApp.AttendanceSystem.EditSelectedRecord | student_management.py:280-291 | the edit form opens only for a selection of exactly one row, prefilled with that row |
| AttendanceApp.AttendanceSystem.SaveEditedRecord | student_management.py:343-360 | an empty id or name changes nothing; otherwise only the edited row changes, at its position, with the new time, and the file is rewritten, with `written` reporting whether the rewrite succeeded |
| AttendanceApp.AttendanceSystem.ClearSearch | student_management.py:519-526 | the search window shows every table row in table order |
| AttendanceApp.AttendanceSystem.ViewRecords | student_management.py:442-455 | the search window opens, showing the whole table, exactly when the table is not empty |
| AttendanceApp.AttendanceSystem.SearchRecords | student_management.py:528-549 | an empty term shows the whole table; otherwise the window shows the matching rows in table order, and the notice appears exactly when none match |

## Left out

- Widget construction, styling, layout, window centring and the context
  menu (`show_context_menu`, `center_window`) are user interface only.
- `clear_fields` only resets the entry widgets after a submit. No record
  state depends on it.
- `clear_search` also empties the search entry. The entry's text is not
  part of the model.
- Message boxes are not modelled as windows. The delete confirmation is the
  `confirmed` parameter. The other boxes are `Outcome` values or the boolean
  results `shown`, `noMatches` and `written`, as described above.
- `datetime.now()` is the `now` parameter. The date-derived file name and
  the creation of the data directory are not modelled.
- The `csv` module's quoting and escaping are not modelled. A file line is
  the list of fields it encodes.
- The Treeview converts numeric-looking values to integers. This foreign
  library behaviour is not modelled, so values are kept as written.
- Text.Lower: lowers ASCII letters only, not the full Unicode case mapping of
  `str.lower()`.
- Text.LowerChar: maps only the ASCII capitals A to Z to lower case. The
  search test `RecordTable.Matches` and the search lemmas inherit this.
- A write that fails partway through, which leaves a truncated file, is not
  modelled. A failed open (`writable` false) leaves the file as it was.
- A failure to open an existing file for reading is not modelled.
- AttendanceApp.AttendanceSystem.constructor: requires that an existing day
  file has at least one line. On an existing empty file the source's
  start-up raises `StopIteration` while skipping the header. A later reload
  of such a file is modelled as the `MissingHeader` outcome.
- Treeview selections are modelled as sequences of distinct identifiers of
  rows in the table, as the widget provides them.

## Findings

| source | as written | input that shows it | evidently intended | confidence | as-written member | corrected member |
|---|---|---|---|---|---|---|
| student_management.py:412-419 | the header is written only when the file does not exist | a day file that exists but is empty (for example, one emptied while the application runs), then one submit: the record becomes line 1 and the next load skips it as the header | write the header whenever the file has no first line | medium, not executed | DayFile.AppendToEmptyFileLosesRecord | DayFile.AppendedWithHeader |

`DayFile.LoadAfterAppendWithHeader` proves the intended property for every
day file. `AttendanceSystem.SaveToCsv` keeps the source's append. The two
appends agree on every file the class can hold while the file mirrors the
table (`InSync` requires a present file to have a first line). An existing
empty file also makes start-up fail, as the constructor entry under
"## Left out" says.
