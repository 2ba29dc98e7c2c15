/** `analyze_file`: look the four columns up in the header, keep the rows that
    record a shift, run the three passes in the order of the source on the
    same list (the first pass sorts it in place), and report the three sets
    of names. Any exception along the way aborts the whole analysis: there is
    either a full report or none. Opening and reading the CSV file and
    printing the report are not part of this model; the header and the rows
    are given as already split into fields. */
module Analyzer {
  import opened Wrappers
  import opened Timestamps
  import opened Timecards
  import opened ShiftOrder
  import opened Detectors

  datatype Report = Report(consecutiveDays: set<string>, shortRest: set<string>, longShift: set<string>)

  /** What `analyze_file` reports for a file with this header and these rows. */
  function Analysis(header: seq<string>, rows: seq<Row>): Option<Report> {
    var cols :- LookupColumns(header);
    var kept :- FilterRows(rows, cols);
    if !AllKeyed(kept, cols) then None
    else
      var sorted := SortRows(kept, cols);
      var v := Readings(sorted, cols);
      KeyedReadings(sorted, cols);
      SortedRowsReadable(v);
      if AllReadable(ShortRest, v) && AllReadable(LongShift, v) then
        Some(Report(Flagged(ConsecutiveDays, v), Flagged(ShortRest, v), Flagged(LongShift, v)))
      else None
  }

  method AnalyzeFile(header: seq<string>, rows: seq<Row>) returns (r: Option<Report>)
    ensures r == Analysis(header, rows)
  {
    var cols :- LookupColumns(header);
    var kept :- FilterRows(rows, cols);
    var employees := new Row[|kept|](i requires 0 <= i < |kept| => kept[i]);
    assert employees[..] == kept;
    var consecutiveDays :- CheckConsecutiveDays(employees, cols);
    var shortRest :- CheckHoursBetweenShifts(employees[..], cols);
    var longShift :- CheckSingleShiftDuration(employees[..], cols);
    return Some(Report(consecutiveDays, shortRest, longShift));
  }

  // ---------------------------------------------------------------------------
  // When there is a report

  /** Every field a pass can read is there and parses. */
  predicate Complete(x: Reading) {
    x.name.Some? && x.timeIn.Some? && x.timeOut.Some?
  }

  lemma {:induction false} WellFormedReading(row: Row, cols: Columns)
    ensures WellFormed(row, cols) <==> Complete(ReadRow(row, cols))
    ensures HasKey(row, cols) <==> ReadRow(row, cols).name.Some? && ReadRow(row, cols).timeIn.Some?
  {
  }

  /** The passes after a successful sort get through exactly when every row
      has a parsable time-out too: the shift pass reads every time-out. */
  lemma {:induction false} ReadableIffComplete(v: seq<Reading>)
    requires AllNamedAndStarted(v)
    ensures AllReadable(ShortRest, v) && AllReadable(LongShift, v) <==>
      forall i :: 0 <= i < |v| ==> Complete(v[i])
  {
    if AllReadable(LongShift, v) {
      forall i | 0 <= i < |v|
        ensures Complete(v[i])
      {
        assert Readable(LongShift, v, i);
      }
    }
  }

  /** A list of rows and its readings agree on which rows are well formed. */
  lemma {:induction false} WellFormedRows(s: seq<Row>, cols: Columns)
    ensures (forall i :: 0 <= i < |s| ==> WellFormed(s[i], cols)) ==>
      forall i :: 0 <= i < |s| ==> Complete(Readings(s, cols)[i])
    ensures (forall i :: 0 <= i < |s| ==> Complete(Readings(s, cols)[i])) ==>
      forall i :: 0 <= i < |s| ==> WellFormed(s[i], cols)
  {
    var v := Readings(s, cols);
    if forall i :: 0 <= i < |s| ==> Complete(v[i]) {
      forall i | 0 <= i < |s|
        ensures WellFormed(s[i], cols)
      {
        ReadingAt(s, cols, i);
        WellFormedReading(s[i], cols);
      }
    }
    if forall i :: 0 <= i < |s| ==> WellFormed(s[i], cols) {
      forall i | 0 <= i < |s|
        ensures Complete(v[i])
      {
        ReadingAt(s, cols, i);
        WellFormedReading(s[i], cols);
      }
    }
  }

  /** The analysis reports exactly when the header names the four columns,
      every row is long enough for the filter, and every row that records a
      shift has a name and two timestamps strptime accepts. A single bad row
      loses the whole report. */
  lemma {:induction false} AnalysisSucceeds(header: seq<string>, rows: seq<Row>)
    ensures Analysis(header, rows).Some? <==>
      PositionIdHeader in header && EmployeeNameHeader in header
      && TimeInHeader in header && TimeOutHeader in header
      && var cols := LookupColumns(header).value;
         (forall i :: 0 <= i < |rows| ==> Testable(rows[i], cols))
         && forall i :: 0 <= i < |rows| && HasShift(rows[i], cols) ==> WellFormed(rows[i], cols)
  {
    var lookup := LookupColumns(header);
    if lookup.Some? {
      var cols := lookup.value;
      var filtered := FilterRows(rows, cols);
      if filtered.Some? {
        var kept := filtered.value;
        KeptWellFormed(rows, kept, cols);
        if AllKeyed(kept, cols) {
          var sorted := SortRows(kept, cols);
          var v := Readings(sorted, cols);
          KeyedReadings(sorted, cols);
          ReadableIffComplete(v);
          WellFormedRows(sorted, cols);
          SameRowsWellFormed(kept, sorted, cols);
        } else {
          assert !forall i :: 0 <= i < |kept| ==> WellFormed(kept[i], cols);
        }
      }
    }
  }

  /** The kept rows are well formed exactly when every row with a shift is. */
  lemma {:induction false} KeptWellFormed(rows: seq<Row>, kept: seq<Row>, cols: Columns)
    requires FilterRows(rows, cols) == Some(kept)
    ensures (forall i :: 0 <= i < |kept| ==> WellFormed(kept[i], cols)) <==>
      forall i :: 0 <= i < |rows| && HasShift(rows[i], cols) ==> WellFormed(rows[i], cols)
  {
    if forall i :: 0 <= i < |kept| ==> WellFormed(kept[i], cols) {
      forall i | 0 <= i < |rows| && HasShift(rows[i], cols)
        ensures WellFormed(rows[i], cols)
      {
        assert rows[i] in kept;
      }
    }
    if forall i :: 0 <= i < |rows| && HasShift(rows[i], cols) ==> WellFormed(rows[i], cols) {
      forall i | 0 <= i < |kept|
        ensures WellFormed(kept[i], cols)
      {
        assert kept[i] in rows;
      }
    }
  }

  lemma {:induction false} SameRowsWellFormed(s: seq<Row>, t: seq<Row>, cols: Columns)
    requires multiset(s) == multiset(t)
    ensures (forall i :: 0 <= i < |s| ==> WellFormed(s[i], cols)) <==>
      forall i :: 0 <= i < |t| ==> WellFormed(t[i], cols)
  {
    if forall i :: 0 <= i < |s| ==> WellFormed(s[i], cols) {
      forall j | 0 <= j < |t|
        ensures WellFormed(t[j], cols)
      {
        assert t[j] in multiset(s);
      }
    }
    if forall i :: 0 <= i < |t| ==> WellFormed(t[i], cols) {
      forall j | 0 <= j < |s|
        ensures WellFormed(s[j], cols)
      {
        assert s[j] in multiset(t);
      }
    }
  }

  /** A header without one of the four names gives no report, whatever the rows. */
  lemma {:induction false} MissingColumnAborts(header: seq<string>, rows: seq<Row>)
    requires !(PositionIdHeader in header && EmployeeNameHeader in header
               && TimeInHeader in header && TimeOutHeader in header)
    ensures Analysis(header, rows) == None
  {
    AnalysisSucceeds(header, rows);
  }

  /** Every reported name is the name of a row of the file that records a
      shift. */
  lemma {:induction false} ReportedNamesAreEmployees(header: seq<string>, rows: seq<Row>)
    requires Analysis(header, rows).Some?
    ensures var report := Analysis(header, rows).value;
      var cols := LookupColumns(header).value;
      forall name :: name in report.consecutiveDays + report.shortRest + report.longShift ==>
        exists i :: 0 <= i < |rows| && HasShift(rows[i], cols) && HasName(rows[i], cols) && Name(rows[i], cols) == name
  {
    var report := Analysis(header, rows).value;
    var cols := LookupColumns(header).value;
    var kept := FilterRows(rows, cols).value;
    var sorted := SortRows(kept, cols);
    var v := Readings(sorted, cols);
    KeyedReadings(sorted, cols);
    SortedRowsReadable(v);
    FlaggedAreNames(ConsecutiveDays, v);
    FlaggedAreNames(ShortRest, v);
    FlaggedAreNames(LongShift, v);
    forall name | name in report.consecutiveDays + report.shortRest + report.longShift
      ensures exists i :: 0 <= i < |rows| && HasShift(rows[i], cols) && HasName(rows[i], cols) && Name(rows[i], cols) == name
    {
      var j :| 0 <= j < |v| && v[j].name == Some(name);
      ReadingAt(sorted, cols, j);
      assert sorted[j] in multiset(kept);
      assert sorted[j] in rows;
      var i :| 0 <= i < |rows| && rows[i] == sorted[j];
    }
  }

  /** The shift pass runs after the sort, but reports what it would on the
      rows in the order of the file. */
  lemma {:induction false} LongShiftReportIgnoresSort(header: seq<string>, rows: seq<Row>)
    requires Analysis(header, rows).Some?
    ensures var cols := LookupColumns(header).value;
      var kept := FilterRows(rows, cols).value;
      AllReadable(LongShift, Readings(kept, cols))
      && Analysis(header, rows).value.longShift == Flagged(LongShift, Readings(kept, cols))
  {
    var cols := LookupColumns(header).value;
    var kept := FilterRows(rows, cols).value;
    var sorted := SortRows(kept, cols);
    ReadingsPermutation(sorted, kept, cols);
    LongShiftIgnoresOrder(Readings(sorted, cols), Readings(kept, cols));
  }
}
