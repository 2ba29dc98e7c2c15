/** The three compliance passes of the analyser. Each walks the list of kept
    rows and collects the names of the employees it flags into a set:

    - `check_consecutive_days` sorts the list in place by (name, time-in) and
      flags a row whose predecessor has the same name and started between 24
      and 48 hours earlier (`timedelta.days == 1`);
    - `check_hours_between_shifts` flags a row whose time-in lies more than one
      and less than ten hours, modulo a day, after the previous row's time-out,
      whoever that previous row belongs to;
    - `check_single_shift_duration` flags a row whose shift lasts more than 14
      hours, modulo a day.

    Each pass is a method with the loop of the source, proved equal to a fold
    (`Flagged`) over the rows; the lemmas below state what the fold means. */
module Detectors {
  import opened Wrappers
  import opened Timestamps
  import opened Timecards
  import opened ShiftOrder

  /** `1 < timedelta.seconds / 3600 < 10`, on the whole seconds the division
      is exact for. */
  predicate IsShortRest(seconds: int) {
    SecondsPerHour < seconds < 10 * SecondsPerHour
  }

  /** `timedelta.seconds / 3600 > 14`. */
  predicate IsLongShift(seconds: int) {
    seconds > 14 * SecondsPerHour
  }

  /** What the passes read from one row: its name and its two timestamps,
      each absent when the column is missing or strptime rejects the field. */
  datatype Reading = Reading(name: Option<string>, timeIn: Option<int>, timeOut: Option<int>)

  function ReadRow(row: Row, cols: Columns): Reading {
    Reading(if HasName(row, cols) then Some(Name(row, cols)) else None, TimeIn(row, cols), TimeOut(row, cols))
  }

  /** The readings of every row, in the order of the rows. */
  function Readings(s: seq<Row>, cols: Columns): (v: seq<Reading>)
    ensures |v| == |s|
  {
    if |s| == 0 then [] else Readings(s[..|s| - 1], cols) + [ReadRow(s[|s| - 1], cols)]
  }

  lemma {:induction false} ReadingAt(s: seq<Row>, cols: Columns, i: nat)
    requires i < |s|
    ensures Readings(s, cols)[i] == ReadRow(s[i], cols)
    decreases |s|
  {
    if i < |s| - 1 {
      ReadingAt(s[..|s| - 1], cols, i);
    }
  }

  lemma {:induction false} ReadingsConcat(s: seq<Row>, t: seq<Row>, cols: Columns)
    ensures Readings(s + t, cols) == Readings(s, cols) + Readings(t, cols)
    decreases |t|
  {
    if |t| == 0 {
      assert s + t == s;
    } else {
      assert (s + t)[..|s + t| - 1] == s + t[..|t| - 1];
      ReadingsConcat(s, t[..|t| - 1], cols);
    }
  }

  /** The readings of a list split around one row. */
  lemma {:induction false} ReadingsAround(p: seq<Row>, row: Row, q: seq<Row>, cols: Columns)
    ensures Readings(p + [row] + q, cols) == Readings(p, cols) + [ReadRow(row, cols)] + Readings(q, cols)
  {
    assert Readings([row], cols) == [ReadRow(row, cols)];
    ReadingsConcat(p + [row], q, cols);
    ReadingsConcat(p, [row], cols);
  }

  /** Permuting the rows permutes their readings. */
  lemma {:induction false} ReadingsPermutation(s: seq<Row>, t: seq<Row>, cols: Columns)
    requires multiset(s) == multiset(t)
    ensures multiset(Readings(s, cols)) == multiset(Readings(t, cols))
    decreases |s|
  {
    if |s| > 0 {
      var j := PickLast(s, t);
      var front, row, p, q := s[..|s| - 1], s[|s| - 1], t[..j], t[j + 1..];
      ReadingsPermutation(front, p + q, cols);
      ReadingsConcat(p, q, cols);
      ReadingsAround(p, row, q, cols);
      MoveLast(Readings(front, cols), ReadRow(row, cols), Readings(p, cols), Readings(q, cols));
    } else {
      assert |t| == |multiset(t)| == 0;
    }
  }

  /** Every row has a name and a parsable time-in: what the sort demands. */
  predicate AllNamedAndStarted(v: seq<Reading>) {
    forall i :: 0 <= i < |v| ==> v[i].name.Some? && v[i].timeIn.Some?
  }

  lemma {:induction false} KeyedReadings(s: seq<Row>, cols: Columns)
    requires AllKeyed(s, cols)
    ensures AllNamedAndStarted(Readings(s, cols))
  {
    forall i | 0 <= i < |s|
      ensures Readings(s, cols)[i].name.Some? && Readings(s, cols)[i].timeIn.Some?
    {
      ReadingAt(s, cols, i);
    }
  }

  datatype Rule = ConsecutiveDays | ShortRest | LongShift

  /** The first index the pass looks at: the two pair passes start at 1. */
  function First(rule: Rule): nat {
    if rule == LongShift then 0 else 1
  }

  /** The timestamps the pass parses at index `i` are there and strptime
      accepts them; the consecutive-day pass has also read both names in its
      sort. */
  predicate TimesParse(rule: Rule, v: seq<Reading>, i: nat)
    requires First(rule) <= i < |v|
  {
    match rule
    case ConsecutiveDays =>
      v[i - 1].name.Some? && v[i - 1].timeIn.Some? && v[i].name.Some? && v[i].timeIn.Some?
    case ShortRest => v[i].timeIn.Some? && v[i - 1].timeOut.Some?
    case LongShift => v[i].timeIn.Some? && v[i].timeOut.Some?
  }

  /** The pass flags the row at index `i`. */
  predicate Fires(rule: Rule, v: seq<Reading>, i: nat)
    requires First(rule) <= i < |v|
  {
    TimesParse(rule, v, i) &&
    match rule
    case ConsecutiveDays =>
      v[i].name.value == v[i - 1].name.value
      && DeltaDays(v[i].timeIn.value - v[i - 1].timeIn.value) == 1
    case ShortRest => IsShortRest(DeltaSeconds(v[i].timeIn.value - v[i - 1].timeOut.value))
    case LongShift => IsLongShift(DeltaSeconds(v[i].timeOut.value - v[i].timeIn.value))
  }

  /** The pass gets through index `i` without an exception: the timestamps
      parse, and the name is there when the row is flagged. */
  predicate Readable(rule: Rule, v: seq<Reading>, i: nat)
    requires First(rule) <= i < |v|
  {
    TimesParse(rule, v, i) && (Fires(rule, v, i) ==> v[i].name.Some?)
  }

  predicate AllReadable(rule: Rule, v: seq<Reading>) {
    forall i :: First(rule) <= i < |v| ==> Readable(rule, v, i)
  }

  /** The pass gets through one more index. */
  lemma {:induction false} ReadableExtend(rule: Rule, v: seq<Reading>, n: nat)
    requires First(rule) <= n < |v|
    requires forall i :: First(rule) <= i < n ==> Readable(rule, v, i)
    requires Readable(rule, v, n)
    ensures forall i :: First(rule) <= i < n + 1 ==> Readable(rule, v, i)
  {
  }

  /** The names the pass has collected after looking at the indices below `n`. */
  function FlaggedUpTo(rule: Rule, v: seq<Reading>, n: nat): set<string>
    requires n <= |v|
    requires forall i :: First(rule) <= i < n ==> Readable(rule, v, i)
  {
    if n <= First(rule) then {}
    else
      assert Readable(rule, v, n - 1);
      FlaggedUpTo(rule, v, n - 1)
      + if Fires(rule, v, n - 1) then {v[n - 1].name.value} else {}
  }

  /** The set the pass returns. */
  function Flagged(rule: Rule, v: seq<Reading>): set<string>
    requires AllReadable(rule, v)
  {
    FlaggedUpTo(rule, v, |v|)
  }

  // ---------------------------------------------------------------------------
  // What the sets mean

  /** A name is collected exactly when some looked-at row that fires has it. */
  lemma {:induction false} FlaggedUpToMeaning(rule: Rule, v: seq<Reading>, n: nat, name: string)
    requires n <= |v|
    requires forall i :: First(rule) <= i < n ==> Readable(rule, v, i)
    ensures name in FlaggedUpTo(rule, v, n) <==>
      exists i :: First(rule) <= i < n && Fires(rule, v, i) && v[i].name == Some(name)
  {
    if n > First(rule) {
      FlaggedUpToMeaning(rule, v, n - 1, name);
      assert Readable(rule, v, n - 1);
      if name in FlaggedUpTo(rule, v, n) && name !in FlaggedUpTo(rule, v, n - 1) {
        assert Fires(rule, v, n - 1) && v[n - 1].name == Some(name);
      }
      if exists i :: First(rule) <= i < n && Fires(rule, v, i) && v[i].name == Some(name) {
        var i :| First(rule) <= i < n && Fires(rule, v, i) && v[i].name == Some(name);
        if i < n - 1 {
          assert name in FlaggedUpTo(rule, v, n - 1);
        }
      }
    }
  }

  lemma {:induction false} DeltaDaysOne(delta: int)
    ensures DeltaDays(delta) == 1 <==> SecondsPerDay <= delta < 2 * SecondsPerDay
  {
    var d := DeltaDays(delta);
    if d < 1 {
      assert (d + 1) * SecondsPerDay <= SecondsPerDay;
    } else if d > 1 {
      assert d * SecondsPerDay >= 2 * SecondsPerDay;
    }
  }

  /** The consecutive-day pass cannot fail once the sort has succeeded. */
  lemma {:induction false} SortedRowsReadable(v: seq<Reading>)
    requires AllNamedAndStarted(v)
    ensures AllReadable(ConsecutiveDays, v)
  {
  }

  /** The consecutive-day pass, on rows that all have a name and a time-in,
      flags exactly the names with two adjacent rows whose start times are at
      least one and less than two days apart. */
  lemma {:induction false} ConsecutiveDaysMeaning(v: seq<Reading>, name: string)
    requires AllNamedAndStarted(v)
    ensures AllReadable(ConsecutiveDays, v)
    ensures name in Flagged(ConsecutiveDays, v) <==>
      exists i :: 1 <= i < |v| && v[i - 1].name == Some(name) && v[i].name == Some(name)
        && v[i].timeIn.Some? && v[i - 1].timeIn.Some?
        && SecondsPerDay <= v[i].timeIn.value - v[i - 1].timeIn.value < 2 * SecondsPerDay
  {
    FlaggedUpToMeaning(ConsecutiveDays, v, |v|, name);
    forall i | 1 <= i < |v|
      ensures DeltaDays(v[i].timeIn.value - v[i - 1].timeIn.value) == 1 <==>
        SecondsPerDay <= v[i].timeIn.value - v[i - 1].timeIn.value < 2 * SecondsPerDay
    {
      DeltaDaysOne(v[i].timeIn.value - v[i - 1].timeIn.value);
    }
  }

  /** The rest pass flags exactly the names of rows whose time-in lies more
      than one and less than ten hours, modulo a day, after the time-out of the
      row before; the name of that row does not enter. */
  lemma {:induction false} ShortRestMeaning(v: seq<Reading>, name: string)
    requires AllReadable(ShortRest, v)
    ensures name in Flagged(ShortRest, v) <==>
      exists i :: 1 <= i < |v| && v[i].name == Some(name)
        && v[i].timeIn.Some? && v[i - 1].timeOut.Some?
        && SecondsPerHour < (v[i].timeIn.value - v[i - 1].timeOut.value) % SecondsPerDay < 10 * SecondsPerHour
  {
    FlaggedUpToMeaning(ShortRest, v, |v|, name);
  }

  /** The shift pass flags exactly the names of rows whose time-out lies more
      than 14 hours, modulo a day, after their time-in. */
  lemma {:induction false} LongShiftMeaning(v: seq<Reading>, name: string)
    requires AllReadable(LongShift, v)
    ensures name in Flagged(LongShift, v) <==>
      exists i :: 0 <= i < |v| && v[i].name == Some(name)
        && v[i].timeIn.Some? && v[i].timeOut.Some?
        && (v[i].timeOut.value - v[i].timeIn.value) % SecondsPerDay > 14 * SecondsPerHour
  {
    FlaggedUpToMeaning(LongShift, v, |v|, name);
  }

  /** Every flagged name is the name of one of the rows. */
  lemma {:induction false} FlaggedAreNames(rule: Rule, v: seq<Reading>)
    requires AllReadable(rule, v)
    ensures forall name :: name in Flagged(rule, v) ==>
      exists i :: 0 <= i < |v| && v[i].name == Some(name)
  {
    forall name | name in Flagged(rule, v)
      ensures exists i :: 0 <= i < |v| && v[i].name == Some(name)
    {
      FlaggedUpToMeaning(rule, v, |v|, name);
    }
  }

  /** The two pair passes find nothing in a list of fewer than two rows. */
  lemma {:induction false} PairsNeedTwoRows(rule: Rule, v: seq<Reading>)
    requires rule != LongShift && |v| <= 1
    ensures AllReadable(rule, v) && Flagged(rule, v) == {}
  {
  }

  lemma {:induction false} LongShiftReadablePermuted(v: seq<Reading>, w: seq<Reading>)
    requires multiset(v) == multiset(w)
    requires AllReadable(LongShift, v)
    ensures AllReadable(LongShift, w)
  {
    forall j | 0 <= j < |w|
      ensures Readable(LongShift, w, j)
    {
      assert w[j] in multiset(v);
      var i :| 0 <= i < |v| && v[i] == w[j];
      assert Readable(LongShift, v, i);
    }
  }

  lemma {:induction false} LongShiftFlaggedPermuted(v: seq<Reading>, w: seq<Reading>)
    requires multiset(v) == multiset(w)
    requires AllReadable(LongShift, v) && AllReadable(LongShift, w)
    ensures Flagged(LongShift, v) <= Flagged(LongShift, w)
  {
    forall name | name in Flagged(LongShift, v)
      ensures name in Flagged(LongShift, w)
    {
      FlaggedUpToMeaning(LongShift, v, |v|, name);
      var i :| 0 <= i < |v| && Fires(LongShift, v, i) && v[i].name == Some(name);
      assert v[i] in multiset(w);
      var j :| 0 <= j < |w| && w[j] == v[i];
      assert Fires(LongShift, w, j);
      FlaggedUpToMeaning(LongShift, w, |w|, name);
    }
  }

  /** The shift pass looks at each row on its own, so the order of the rows
      does not matter to it: in particular, running it after the in-place sort
      gives what it would give on the file's order. */
  lemma {:induction false} LongShiftIgnoresOrder(v: seq<Reading>, w: seq<Reading>)
    requires multiset(v) == multiset(w)
    requires AllReadable(LongShift, v)
    ensures AllReadable(LongShift, w)
    ensures Flagged(LongShift, v) == Flagged(LongShift, w)
  {
    LongShiftReadablePermuted(v, w);
    LongShiftFlaggedPermuted(v, w);
    LongShiftFlaggedPermuted(w, v);
  }

  // ---------------------------------------------------------------------------
  // Worked examples, on the readings strptime gives for the timestamps shown
  // (`ParseFormat` connects each `DateTime` to its text)

  /** A moment of January 2024. */
  function At(month: int, day: int, hour: int, minute: int, meridiem: Meridiem): int
    requires month == 1 && 1 <= day <= 31 && 1 <= hour <= 12 && 0 <= minute <= 59
  {
    ToSeconds(DateTime(2024, month, day, hour, minute, meridiem))
  }

  /** Bob starts at 3 AM, seven hours after Ann left at 8 PM: Bob is flagged
      although the rest was Ann's shift ending, not his. */
  lemma {:induction false} RestAcrossEmployees()
    ensures var v := [Reading(Some("Ann"), Some(At(1, 1, 8, 0, AM)), Some(At(1, 1, 8, 0, PM))),
                      Reading(Some("Bob"), Some(At(1, 2, 3, 0, AM)), Some(At(1, 2, 11, 0, AM)))];
      AllReadable(ShortRest, v) && Flagged(ShortRest, v) == {"Bob"}
  {
  }

  /** A rest of exactly one hour or exactly ten hours is not flagged. */
  lemma {:induction false} RestBoundsAreStrict()
    ensures var v := [Reading(Some("Ann"), Some(At(1, 1, 12, 0, AM)), Some(At(1, 1, 8, 0, AM))),
                      Reading(Some("Ann"), Some(At(1, 1, 9, 0, AM)), Some(At(1, 1, 10, 0, AM))),
                      Reading(Some("Ann"), Some(At(1, 1, 8, 0, PM)), Some(At(1, 1, 11, 0, PM)))];
      AllReadable(ShortRest, v) && Flagged(ShortRest, v) == {}
  {
    var v := [Reading(Some("Ann"), Some(At(1, 1, 12, 0, AM)), Some(At(1, 1, 8, 0, AM))),
              Reading(Some("Ann"), Some(At(1, 1, 9, 0, AM)), Some(At(1, 1, 10, 0, AM))),
              Reading(Some("Ann"), Some(At(1, 1, 8, 0, PM)), Some(At(1, 1, 11, 0, PM)))];
    assert At(1, 1, 9, 0, AM) - At(1, 1, 8, 0, AM) == SecondsPerHour;
    assert At(1, 1, 8, 0, PM) - At(1, 1, 10, 0, AM) == 10 * SecondsPerHour;
    assert FlaggedUpTo(ShortRest, v, 2) == {};
  }

  /** 6 AM to 9 PM is flagged; 6 AM to 8 PM, exactly 14 hours, is not; 6 AM
      to 7 AM the next day, 25 hours, wraps round to one hour and is not. */
  lemma {:induction false} ShiftLengths()
    ensures var v := [Reading(Some("Ann"), Some(At(1, 1, 6, 0, AM)), Some(At(1, 1, 9, 0, PM))),
                      Reading(Some("Bob"), Some(At(1, 1, 6, 0, AM)), Some(At(1, 1, 8, 0, PM))),
                      Reading(Some("Cid"), Some(At(1, 1, 6, 0, AM)), Some(At(1, 2, 7, 0, AM)))];
      AllReadable(LongShift, v) && Flagged(LongShift, v) == {"Ann"}
  {
    var v := [Reading(Some("Ann"), Some(At(1, 1, 6, 0, AM)), Some(At(1, 1, 9, 0, PM))),
              Reading(Some("Bob"), Some(At(1, 1, 6, 0, AM)), Some(At(1, 1, 8, 0, PM))),
              Reading(Some("Cid"), Some(At(1, 1, 6, 0, AM)), Some(At(1, 2, 7, 0, AM)))];
    assert At(1, 1, 9, 0, PM) - At(1, 1, 6, 0, AM) == 15 * SecondsPerHour;
    assert At(1, 1, 8, 0, PM) - At(1, 1, 6, 0, AM) == 14 * SecondsPerHour;
    assert At(1, 2, 7, 0, AM) - At(1, 1, 6, 0, AM) == 25 * SecondsPerHour;
    assert DeltaSeconds(25 * SecondsPerHour) == SecondsPerHour;
    assert FlaggedUpTo(LongShift, v, 1) == {"Ann"};
    assert FlaggedUpTo(LongShift, v, 2) == {"Ann"};
  }

  /** Ann's starts at 11 PM and at 1 AM the next day are two hours apart and
      not flagged; Bob's at 8 AM and at 7 AM two days later are 47 hours apart
      and flagged. */
  lemma {:induction false} ElapsedNotCalendarDays()
    ensures var v := [Reading(Some("Ann"), Some(At(1, 1, 11, 0, PM)), Some(At(1, 1, 11, 30, PM))),
                      Reading(Some("Ann"), Some(At(1, 2, 1, 0, AM)), Some(At(1, 2, 9, 0, AM))),
                      Reading(Some("Bob"), Some(At(1, 1, 8, 0, AM)), Some(At(1, 1, 4, 0, PM))),
                      Reading(Some("Bob"), Some(At(1, 3, 7, 0, AM)), Some(At(1, 3, 3, 0, PM)))];
      AllReadable(ConsecutiveDays, v) && Flagged(ConsecutiveDays, v) == {"Bob"}
  {
  }

  // ---------------------------------------------------------------------------
  // The passes

  /** The fields the pass reads from the row at index `i`: each strptime call
      of the source at that row, and the name. */
  method ReadFields(s: seq<Row>, cols: Columns, i: nat) returns (x: Reading)
    requires i < |s|
    ensures x == Readings(s, cols)[i]
  {
    x := ReadRow(s[i], cols);
    ReadingAt(s, cols, i);
  }

  /** `check_consecutive_days`: sorts the caller's list in place, then scans
      adjacent rows. A row without a name or a parsable time-in aborts the
      sort and leaves the list as it was. */
  method CheckConsecutiveDays(a: array<Row>, cols: Columns) returns (r: Option<set<string>>)
    modifies a
    ensures r.Some? <==> AllKeyed(old(a[..]), cols)
    ensures r.None? ==> a[..] == old(a[..])
    ensures r.Some? ==>
      a[..] == SortRows(old(a[..]), cols)
      && AllReadable(ConsecutiveDays, Readings(a[..], cols))
      && r.value == Flagged(ConsecutiveDays, Readings(a[..], cols))
  {
    var ok := SortInPlace(a, cols);
    if !ok {
      return None;
    }
    KeyedReadings(a[..], cols);
    var found := ScanAdjacentDays(a[..], cols);
    return Some(found);
  }

  /** The loop of `check_consecutive_days`, over rows the sort has already
      read a name and a time-in from. */
  method ScanAdjacentDays(s: seq<Row>, cols: Columns) returns (found: set<string>)
    requires AllNamedAndStarted(Readings(s, cols))
    ensures AllReadable(ConsecutiveDays, Readings(s, cols))
    ensures found == Flagged(ConsecutiveDays, Readings(s, cols))
  {
    ghost var v := Readings(s, cols);
    SortedRowsReadable(v);
    found := {};
    var i := 1;
    while i < |s|
      invariant 1 <= i && (i <= |s| || |s| == 0)
      invariant found == FlaggedUpTo(ConsecutiveDays, v, if |s| == 0 then 0 else i)
    {
      var current := ReadFields(s, cols, i);
      var previous := ReadFields(s, cols, i - 1);
      var currentDate, previousDate := current.timeIn.value, previous.timeIn.value;
      if current.name.value == previous.name.value && DeltaDays(currentDate - previousDate) == 1 {
        found := found + {current.name.value};
      }
      assert Readable(ConsecutiveDays, v, i);
      i := i + 1;
    }
  }

  /** `check_hours_between_shifts`, on the list as the consecutive-day pass
      left it. */
  method CheckHoursBetweenShifts(s: seq<Row>, cols: Columns) returns (r: Option<set<string>>)
    ensures r.Some? <==> AllReadable(ShortRest, Readings(s, cols))
    ensures r.Some? ==> r.value == Flagged(ShortRest, Readings(s, cols))
  {
    ghost var v := Readings(s, cols);
    var found := {};
    var i := 1;
    while i < |s|
      invariant 1 <= i && (i <= |s| || |s| == 0)
      invariant forall k :: 1 <= k < i && k < |v| ==> Readable(ShortRest, v, k)
      invariant found == FlaggedUpTo(ShortRest, v, if |s| == 0 then 0 else i)
    {
      var current := ReadFields(s, cols, i);
      var previous := ReadFields(s, cols, i - 1);
      if current.timeIn.None? || previous.timeOut.None? {
        assert !Readable(ShortRest, v, i);
        return None;
      }
      if IsShortRest(DeltaSeconds(current.timeIn.value - previous.timeOut.value)) {
        if current.name.None? {
          assert !Readable(ShortRest, v, i);
          return None;
        }
        found := found + {current.name.value};
      }
      ReadableExtend(ShortRest, v, i);
      i := i + 1;
    }
    return Some(found);
  }

  /** `check_single_shift_duration`. */
  method CheckSingleShiftDuration(s: seq<Row>, cols: Columns) returns (r: Option<set<string>>)
    ensures r.Some? <==> AllReadable(LongShift, Readings(s, cols))
    ensures r.Some? ==> r.value == Flagged(LongShift, Readings(s, cols))
  {
    ghost var v := Readings(s, cols);
    var found := {};
    var i := 0;
    while i < |s|
      invariant i <= |s|
      invariant forall k :: 0 <= k < i ==> Readable(LongShift, v, k)
      invariant found == FlaggedUpTo(LongShift, v, i)
    {
      var employee := ReadFields(s, cols, i);
      if employee.timeIn.None? || employee.timeOut.None? {
        assert !Readable(LongShift, v, i);
        return None;
      }
      if IsLongShift(DeltaSeconds(employee.timeOut.value - employee.timeIn.value)) {
        if employee.name.None? {
          assert !Readable(LongShift, v, i);
          return None;
        }
        found := found + {employee.name.value};
      }
      ReadableExtend(LongShift, v, i);
      i := i + 1;
    }
    return Some(found);
  }
}
