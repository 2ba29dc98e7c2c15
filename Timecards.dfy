/** The rows of a timecard file, the lookup of the four columns the analyser
    reads (`set_column_indices`), the filter that drops rows without a shift,
    and the field reads the three detectors make. A row is the list of strings
    the CSV reader yields; reading a column the row does not have is Python's
    IndexError and aborts the analysis. */
module Timecards {
  import opened Wrappers
  import opened Timestamps

  type Row = seq<string>

  const PositionIdHeader: string := "Position ID"
  const EmployeeNameHeader: string := "Employee Name"
  const TimeInHeader: string := "Time"
  const TimeOutHeader: string := "Time Out"

  /** Where the four columns sit in a row. */
  datatype Columns = Columns(positionId: nat, employeeName: nat, timeIn: nat, timeOut: nat)

  // ---------------------------------------------------------------------------
  // Header lookup

  /** `i` is where `name` first occurs in `header`. */
  predicate FirstIndex(header: seq<string>, name: string, i: nat) {
    i < |header| && header[i] == name && forall j :: 0 <= j < i ==> header[j] != name
  }

  /** `header.index(name)`; `None` is the ValueError for a missing name. */
  function IndexOf(header: seq<string>, name: string): (r: Option<nat>)
    ensures r.Some? <==> name in header
    ensures r.Some? ==> FirstIndex(header, name, r.value)
  {
    if |header| == 0 then None
    else if header[0] == name then Some(0)
    else match IndexOf(header[1..], name)
      case None => None
      case Some(i) => Some(i + 1)
  }

  /** `set_column_indices`, returning the indices instead of setting globals. */
  function LookupColumns(header: seq<string>): (r: Option<Columns>)
    ensures r.Some? <==>
      PositionIdHeader in header && EmployeeNameHeader in header
      && TimeInHeader in header && TimeOutHeader in header
    ensures r.Some? ==>
      FirstIndex(header, PositionIdHeader, r.value.positionId)
      && FirstIndex(header, EmployeeNameHeader, r.value.employeeName)
      && FirstIndex(header, TimeInHeader, r.value.timeIn)
      && FirstIndex(header, TimeOutHeader, r.value.timeOut)
  {
    var positionId :- IndexOf(header, PositionIdHeader);
    var employeeName :- IndexOf(header, EmployeeNameHeader);
    var timeIn :- IndexOf(header, TimeInHeader);
    var timeOut :- IndexOf(header, TimeOutHeader);
    Some(Columns(positionId, employeeName, timeIn, timeOut))
  }

  // ---------------------------------------------------------------------------
  // The row filter

  /** The filter can test the row without an IndexError: the time-in column
      exists, and the time-out column exists whenever the test reaches it
      (`and` does not read it after an empty time-in field). */
  predicate Testable(row: Row, cols: Columns) {
    cols.timeIn < |row| && (row[cols.timeIn] != "" ==> cols.timeOut < |row|)
  }

  /** The row records a shift: both time fields are non-empty strings. A field
      of spaces is not empty. */
  predicate HasShift(row: Row, cols: Columns) {
    cols.timeIn < |row| && cols.timeOut < |row| && row[cols.timeIn] != "" && row[cols.timeOut] != ""
  }

  /** The comprehension that keeps the rows with a shift. */
  function FilterRows(rows: seq<Row>, cols: Columns): (r: Option<seq<Row>>)
    ensures r.Some? <==> forall i :: 0 <= i < |rows| ==> Testable(rows[i], cols)
    ensures r.Some? ==> |r.value| <= |rows|
    ensures r.Some? ==> forall row :: row in r.value ==> row in rows && HasShift(row, cols)
    ensures r.Some? ==> forall row :: row in rows && HasShift(row, cols) ==> row in r.value
  {
    if |rows| == 0 then Some([])
    else
      var front :- FilterRows(rows[..|rows| - 1], cols);
      var last := rows[|rows| - 1];
      if !Testable(last, cols) then None
      else if HasShift(last, cols) then Some(front + [last])
      else Some(front)
  }

  /** The filter works row by row and keeps the order of the rows it keeps:
      filtering a concatenation is concatenating the filtered parts. */
  lemma {:induction false} FilterConcat(a: seq<Row>, b: seq<Row>, cols: Columns)
    ensures FilterRows(a + b, cols) ==
      match (FilterRows(a, cols), FilterRows(b, cols))
      case (Some(fa), Some(fb)) => Some(fa + fb)
      case _ => None
    decreases |b|
  {
    if |b| == 0 {
      assert a + b == a;
      if FilterRows(a, cols).Some? {
        assert FilterRows(a, cols).value + [] == FilterRows(a, cols).value;
      }
    } else {
      var b', last := b[..|b| - 1], b[|b| - 1];
      assert (a + b)[..|a + b| - 1] == a + b';
      assert (a + b)[|a + b| - 1] == last;
      FilterConcat(a, b', cols);
      match (FilterRows(a, cols), FilterRows(b', cols))
      case (Some(fa), Some(fb)) =>
        if Testable(last, cols) && HasShift(last, cols) {
          assert fa + (fb + [last]) == (fa + fb) + [last];
        }
      case _ =>
    }
  }

  /** A single row is kept exactly when it records a shift. */
  lemma {:induction false} FilterOne(row: Row, cols: Columns)
    ensures FilterRows([row], cols) ==
      if !Testable(row, cols) then None
      else if HasShift(row, cols) then Some([row])
      else Some([])
  {
    assert [row][..0] == [];
    assert [] + [row] == [row];
  }

  /** A time field made of a space is kept by the filter and reaches the
      detectors, where strptime rejects it. */
  lemma {:induction false} BlankFieldIsKept()
    ensures FilterRows([["P1", "Ann", " ", " "]], Columns(0, 1, 2, 3)) == Some([["P1", "Ann", " ", " "]])
    ensures ParseTimestamp(" ") == None
  {
    FilterOne(["P1", "Ann", " ", " "], Columns(0, 1, 2, 3));
  }

  // ---------------------------------------------------------------------------
  // Field reads of the detectors

  predicate HasName(row: Row, cols: Columns) {
    cols.employeeName < |row|
  }

  function Name(row: Row, cols: Columns): string
    requires HasName(row, cols)
  {
    row[cols.employeeName]
  }

  /** `strptime(row[TIME_INDEX], ...)` as an integer. */
  function TimeIn(row: Row, cols: Columns): Option<int> {
    if cols.timeIn < |row| then ParseTimestamp(row[cols.timeIn]) else None
  }

  /** `strptime(row[TIME_OUT_INDEX], ...)` as an integer. */
  function TimeOut(row: Row, cols: Columns): Option<int> {
    if cols.timeOut < |row| then ParseTimestamp(row[cols.timeOut]) else None
  }

  /** The row has the sort key of the consecutive-day pass: a name and a
      time-in that strptime accepts. */
  predicate HasKey(row: Row, cols: Columns) {
    HasName(row, cols) && TimeIn(row, cols).Some?
  }

  predicate AllKeyed(s: seq<Row>, cols: Columns) {
    forall i :: 0 <= i < |s| ==> HasKey(s[i], cols)
  }

  /** Every field any detector reads from the row can be read. */
  predicate WellFormed(row: Row, cols: Columns) {
    HasKey(row, cols) && TimeOut(row, cols).Some?
  }
}
