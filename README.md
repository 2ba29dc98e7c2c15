# Timecard compliance analyser, modelled in Dafny

`EmployeeAnalyzer.py` reads a CSV export of timecards. It finds the columns
"Position ID", "Employee Name", "Time" and "Time Out" in the header. It keeps
the rows whose two time fields are non-empty. Then it reports three sets of
employee names:

- **Consecutive days**: the list is sorted in place by (name, time-in). A name
  is flagged when two adjacent rows have that name and their start times are
  one `timedelta.days` apart, that is, at least 24 and less than 48 hours.
- **Short rest**: for each adjacent pair of the same (now sorted) list, the
  later row's name is flagged when its time-in lies more than 1 and less
  than 10 hours, modulo a day, after the earlier row's time-out.
- **Long shift**: a row's name is flagged when its time-out lies more than
  14 hours, modulo a day, after its time-in.

Any exception aborts the whole analysis with a single error line, so the
model returns either a full `Report` or `None`. Examples of such exceptions
are a missing column name, a short row, or a timestamp that
`strptime("%m/%d/%Y %I:%M %p")` rejects.

The modules, in dependency order:

- `Wrappers`: `Option`, used with `:-` for every step that can abort.
- `Timestamps`: the proleptic Gregorian calendar and the 12-hour clock. A
  timestamp becomes integer seconds counted from the midnight that begins
  day 0, so 0001-01-01 is day 1 as in `toordinal`; only differences of these
  values are ever used. The module also has `timedelta.days` and
  `timedelta.seconds` as floor division and non-negative remainder by
  86400, and a parser and formatter for the timestamp format.
- `Timecards`: rows, header lookup, the row filter, and the field reads
  (a missing column is Python's IndexError).
- `ShiftOrder`: Python's string order and the (name, time-in) sort key. It
  has a functional stable insertion sort used as the specification,
  proved sorted, a permutation, stable, and the only stable sort. It also
  has the in-place sort of the caller's list over an `array`. As CPython
  does for `list.sort(key=...)`, the keys are computed first, and a key
  that raises leaves the list unchanged.
- `Detectors`: the three passes, as methods with the loops of the source.
  Each is proved equal to a fold `Flagged` over the rows' readings (name,
  time-in, time-out), with lemmas stating what the fold flags.
- `Analyzer`: `analyze_file` as a method over an array built from the kept
  rows, proved equal to the function `Analysis`, and lemmas about when
  there is a report and what is in it.

The code differs from what its names and comments suggest in four places.
The model follows the code:

- The time-in column is the one headed "Time".
- The filter is described as dropping rows with "empty or improperly
  formatted" time values, but it drops only empty strings. A field made of
  spaces, or any malformed timestamp, is kept. It reaches the passes,
  strptime rejects it, and the whole analysis aborts.
- The "7 consecutive days" test is on elapsed time between two adjacent
  starts (24 to 48 hours), not on calendar dates. It checks one pair, not a
  run of seven days.
- The rest pass does not see the file's order. It sees the list the
  consecutive-day pass has just sorted in place, because both calls get the
  same list object. The previous row may belong to another employee.

## Model

| member | source | states |
|---|---|---|
| Timecards.IndexOf | EmployeeAnalyzer.py:49-52 | `header.index(name)`: present exactly when the name is in the header, and then it is the first position holding it |
| Timecards.LookupColumns | EmployeeAnalyzer.py:47-52 | the lookup succeeds exactly when all four names are in the header, and each index is the first occurrence of its name |
| Timecards.FilterRows | EmployeeAnalyzer.py:23-25 | no IndexError exactly when every row is long enough for the test; then the kept rows are exactly the rows of the input whose two time fields are non-empty |
| Timecards.Testable | EmployeeAnalyzer.py:24 | definition: the test `row[TIME_INDEX] and row[TIME_OUT_INDEX]` raises no IndexError: the time-in column exists, and the time-out column exists whenever the time-in field is non-empty, since `and` stops at an empty string |
| Timecards.HasShift | EmployeeAnalyzer.py:24 | definition: the test keeps the row: both time fields exist and are non-empty strings, whitespace counting as non-empty |
| Timecards.FilterConcat | EmployeeAnalyzer.py:23-25 | the filter works row by row and keeps the relative order: filtering a concatenation concatenates the filtered parts, and an error in either part is an error |
| Timecards.FilterOne | EmployeeAnalyzer.py:24 | a single row: an error when too short, kept when both time fields are non-empty, dropped otherwise |
| Timecards.BlankFieldIsKept | EmployeeAnalyzer.py:24 | a row whose time fields are a space is kept, and strptime rejects that field |
| Timecards.TimeIn | EmployeeAnalyzer.py:60 | definition: `strptime(row[TIME_INDEX], ...)` as seconds, absent when the column is missing or strptime raises |
| Timecards.TimeOut | EmployeeAnalyzer.py:113 | definition: `strptime(row[TIME_OUT_INDEX], ...)` as seconds, absent when the column is missing or strptime raises |
| Timecards.HasKey | EmployeeAnalyzer.py:58-61 | definition: the key lambda does not raise on the row: the name column exists and strptime accepts the time-in field |
| Timestamps.IsLeapYear | EmployeeAnalyzer.py:60 | definition: the Gregorian leap-year rule of the calendar `datetime` checks dates against and `toordinal` counts in: divisible by 4, and not by 100 unless by 400 |
| Timestamps.ValidDate | EmployeeAnalyzer.py:60 | definition: the range check `datetime` makes when strptime builds its result: year 1 to 9999, month 1 to 12, day within the month, so `02/30` or year `0000` raises ValueError |
| Timestamps.Valid | EmployeeAnalyzer.py:60 | definition: a reading strptime can return: a valid date, an hour 1 to 12 as `%I` accepts it and a minute 0 to 59 as `%M` accepts it |
| Timestamps.DaysBeforeYear | EmployeeAnalyzer.py:79 | definition: the days in the years before a year, the closed form `toordinal` uses (365 a year plus the leap days) |
| Timestamps.DaysBeforeMonth | EmployeeAnalyzer.py:79 | definition: the days in the months of the year before a month, the cumulative month table `toordinal` uses, one more after February in a leap year |
| Timestamps.DaysInMonth | EmployeeAnalyzer.py:60 | a month has 28 to 31 days, and 29 exactly for February of a leap year |
| Timestamps.Hour24 | EmployeeAnalyzer.py:60 | `%I %p`: the hour is in 0..23, agrees with the 12-hour value modulo 12, and is before noon exactly for AM (12 AM is 0, 12 PM is 12) |
| Timestamps.ClockSeconds | EmployeeAnalyzer.py:60 | the time of day is less than one day of seconds |
| Timestamps.Ordinal | EmployeeAnalyzer.py:79 | definition: `date.toordinal()`, the day number with 0001-01-01 as day 1, from the closed form for the days before a year and the month table |
| Timestamps.ToSeconds | EmployeeAnalyzer.py:79 | definition: day number times 86400 plus seconds since midnight, so the difference of two values is the total seconds of `current_date - previous_date` (also lines 101 and 116) |
| Timestamps.DeltaDays | EmployeeAnalyzer.py:79 | `timedelta.days` is the floor of the difference in days: days whole days fit in it and days + 1 do not |
| Timestamps.DeltaSeconds | EmployeeAnalyzer.py:101 | `timedelta.seconds` is in 0..86399, even for a negative difference, and days * 86400 + seconds is the difference (also line 116) |
| Timestamps.YearStep | EmployeeAnalyzer.py:60 | the days before the next year are the days before this year plus this year's length |
| Timestamps.MonthStep | EmployeeAnalyzer.py:60 | the days before the next month are the days before this month plus this month's length |
| Timestamps.YearEnd | EmployeeAnalyzer.py:60 | the twelve months add up to the year's length |
| Timestamps.MonthsOrdered | EmployeeAnalyzer.py:60 | an earlier month ends no later than a later month begins |
| Timestamps.YearsOrdered | EmployeeAnalyzer.py:60 | an earlier year ends no later than a later year begins |
| Timestamps.OrdinalWithinYear | EmployeeAnalyzer.py:60 | a date's day number lies within its own year's range of day numbers |
| Timestamps.OrdinalMonotone | EmployeeAnalyzer.py:57-62 | a date before another in (year, month, day) order has the smaller day number |
| Timestamps.OrdinalOrder | EmployeeAnalyzer.py:57-62 | day numbers compare exactly as dates do |
| Timestamps.Earlier | EmployeeAnalyzer.py:57-62 | definition: datetime `<`, the order the sort key's second component compares in: by date, then by the hour of the 24-hour day, then by minute; `ToSecondsOrder` proves the integer order equal to it |
| Timestamps.ToSecondsOrder | EmployeeAnalyzer.py:57-62 | seconds compare exactly as the datetimes do, so sorting by seconds is sorting by datetime |
| Timestamps.ToSecondsInjective | EmployeeAnalyzer.py:57-62 | two valid datetimes with the same seconds are the same datetime |
| Timestamps.NextDaySeconds | EmployeeAnalyzer.py:79 | the same clock time on the next calendar day is exactly 86400 seconds later |
| Timestamps.DigitRun | EmployeeAnalyzer.py:60 | a numeric field takes the maximal run of digits at its position |
| Timestamps.Number | EmployeeAnalyzer.py:60 | a numeric field, when accepted, has between the minimum and maximum number of digits |
| Timestamps.MeridiemAt | EmployeeAnalyzer.py:60 | definition: the `%p` directive at the end of the field: `AM` or `PM` in either case, and nothing may follow it |
| Timestamps.Literal | EmployeeAnalyzer.py:60 | a literal of the format, when matched, takes exactly one character |
| Timestamps.ParseDateTime | EmployeeAnalyzer.py:60 | strptime, at every call (also lines 68-73, 93-98, 112-113), accepts only a date that exists and a time on the 12-hour clock |
| Timestamps.ParseTimestamp | EmployeeAnalyzer.py:60 | definition: a field strptime accepts becomes its `ToSeconds` value, and a field it rejects (the ValueError) becomes `None` |
| Timestamps.DigitChar | EmployeeAnalyzer.py:60 | a digit written is a digit read with the same value |
| Timestamps.Format | EmployeeAnalyzer.py:60 | a timestamp written in the format is 19 characters long |
| Timestamps.DigitRunExact | EmployeeAnalyzer.py:60 | a run of digits followed by a non-digit is read in full |
| Timestamps.NumberAt | EmployeeAnalyzer.py:60 | a field of the right width is read as its decimal value, and the reading moves past it |
| Timestamps.TwoDigitsValue | EmployeeAnalyzer.py:60 | two zero-padded digits read back as the number written |
| Timestamps.FourDigitsValue | EmployeeAnalyzer.py:60 | four zero-padded digits read back as the number written |
| Timestamps.FormatLayout | EmployeeAnalyzer.py:60 | where each field and separator sits in a written timestamp |
| Timestamps.ParseFormat | EmployeeAnalyzer.py:60 | round trip: strptime of a formatted valid datetime gives it back, and its seconds |
| ShiftOrder.Precedes | EmployeeAnalyzer.py:59 | definition: Python's `str <`: compares code points left to right, and a proper prefix comes first |
| ShiftOrder.PrecedesIrreflexive | EmployeeAnalyzer.py:59 | no name sorts before itself |
| ShiftOrder.PrecedesTransitive | EmployeeAnalyzer.py:59 | Python's string order is transitive |
| ShiftOrder.PrecedesTotal | EmployeeAnalyzer.py:59 | of two different names, one sorts before the other |
| ShiftOrder.PrecedesAsymmetric | EmployeeAnalyzer.py:59 | two names never each sort before the other |
| ShiftOrder.KeyOrder | EmployeeAnalyzer.py:58-61 | the (name, time-in) tuple order is a strict total order |
| ShiftOrder.KeyOf | EmployeeAnalyzer.py:58-61 | definition: the key lambda, the pair (name, parsed time-in); it is defined only on rows where neither read raises |
| ShiftOrder.KeyBefore | EmployeeAnalyzer.py:58-61 | definition: tuple comparison: names first, and the earlier time-in when the names are equal |
| ShiftOrder.Decorate | EmployeeAnalyzer.py:57-62 | definition: the key pass of `list.sort`: each row paired with the key the lambda computes for it, in the list's order (its stated property is the round trip `DecorateRows`) |
| ShiftOrder.Rows | EmployeeAnalyzer.py:57-62 | definition: the write-back of `list.sort`: the rows of the sorted pairs, keys dropped, in order (its stated properties are `DecorateRows`, `RowsConcat` and `RowsPermutation`) |
| ShiftOrder.DecorateRows | EmployeeAnalyzer.py:57-62 | round trip: dropping the computed keys gives back the caller's rows unchanged |
| ShiftOrder.Insert | EmployeeAnalyzer.py:57-62 | insertion adds exactly the one element |
| ShiftOrder.SortByKey | EmployeeAnalyzer.py:57-62 | the sort is a permutation of its input |
| ShiftOrder.InsertSorted | EmployeeAnalyzer.py:57-62 | inserting into a sorted list keeps it sorted |
| ShiftOrder.SortByKeySorted | EmployeeAnalyzer.py:57-62 | the sort's output is in non-decreasing key order |
| ShiftOrder.WithKeyAppend | EmployeeAnalyzer.py:57-62 | the elements with one key, after appending, are the old ones plus the new one if it has that key |
| ShiftOrder.InsertWithKey | EmployeeAnalyzer.py:57-62 | insertion places the element after every element with the same key |
| ShiftOrder.SortByKeyStable | EmployeeAnalyzer.py:57-62 | stability: the elements with any one key come out in their input order |
| ShiftOrder.WithKeyMember | EmployeeAnalyzer.py:57-62 | a key with elements occurs in the list |
| ShiftOrder.SortedLastIsGreatest | EmployeeAnalyzer.py:57-62 | the last element of a sorted list has a key no smaller than any other |
| ShiftOrder.LastKeyPresent | EmployeeAnalyzer.py:57-62 | the last element's key has at least one element |
| ShiftOrder.StableSortUnique | EmployeeAnalyzer.py:57-62 | two sorted lists with the same elements per key, in the same order, are equal |
| ShiftOrder.SortByKeyIsTheStableSort | EmployeeAnalyzer.py:57-62 | any sorted arrangement that keeps each key's input order is this sort's output, so the sort used (Timsort) gives the same list |
| ShiftOrder.RowsConcat | EmployeeAnalyzer.py:57-62 | dropping keys distributes over concatenation |
| ShiftOrder.RowsPermutation | EmployeeAnalyzer.py:57-62 | permuting the pairs permutes their rows |
| ShiftOrder.SortRows | EmployeeAnalyzer.py:57-62 | the sorted list is a permutation of the input, every row in it has a key, and adjacent rows are in (name, time-in) order |
| ShiftOrder.RowsWithKey | EmployeeAnalyzer.py:58-61 | definition: the rows of a list whose sort key is a given key, in list order |
| ShiftOrder.RowsOfWithKey | EmployeeAnalyzer.py:57-62 | on pairs that carry their own rows' keys, choosing the pairs with a key and dropping the keys chooses the rows with that key |
| ShiftOrder.SortRowsStable | EmployeeAnalyzer.py:57-62 | `list.sort` is stable on the rows themselves: for every key, the rows with that key leave the sort in the order they entered it, which decides which time-out the rest pass pairs with a row |
| ShiftOrder.SortInPlace | EmployeeAnalyzer.py:57-62 | `employees.sort(key=...)`: succeeds exactly when every row has a name and a parsable time-in; then the array holds the stable sort of its old contents, otherwise it is unchanged |
| ShiftOrder.StripKeys | EmployeeAnalyzer.py:57-62 | the sort's write-back into the caller's list: afterwards the list holds exactly the rows of the sorted pairs, in their order |
| ShiftOrder.KeysPresent | EmployeeAnalyzer.py:58-61 | computing the keys of the sort gets through exactly when every row has a name and a time-in strptime accepts |
| ShiftOrder.InsertionSort | EmployeeAnalyzer.py:57-62 | the in-place sort of the key/row pairs leaves the array equal to the stable sort of its old contents |
| ShiftOrder.SortStep | EmployeeAnalyzer.py:57-62 | one outer step of the in-place sort extends the sorted prefix by one element |
| ShiftOrder.InsertShift | EmployeeAnalyzer.py:57-62 | moving the element past a larger key does not change the insertion's result |
| ShiftOrder.InsertStop | EmployeeAnalyzer.py:57-62 | the element stops behind the first key that is not larger |
| ShiftOrder.FillHole | EmployeeAnalyzer.py:57-62 | writing into the gap of the array replaces exactly that element |
| ShiftOrder.MoveHole | EmployeeAnalyzer.py:57-62 | shifting one element right moves the gap one place left |
| ShiftOrder.InsertLast | EmployeeAnalyzer.py:57-62 | one inner pass of the in-place sort inserts the element into the sorted prefix and leaves the rest alone |
| Detectors.ReadRow | EmployeeAnalyzer.py:112-113 | definition: the name and the two strptime results the passes read from one row, each absent where the read raises (as at lines 68-73 and 93-98) |
| Detectors.Readings | EmployeeAnalyzer.py:65-73 | one reading per row |
| Detectors.ReadingAt | EmployeeAnalyzer.py:65-73 | the reading at a position is what the passes read from the row there |
| Detectors.ReadingsConcat | EmployeeAnalyzer.py:65-73 | the readings of a concatenation concatenate the readings |
| Detectors.ReadingsPermutation | EmployeeAnalyzer.py:57-62 | permuting the rows permutes their readings |
| Detectors.KeyedReadings | EmployeeAnalyzer.py:57-62 | after the sort, every reading has a name and a time-in |
| Detectors.IsShortRest | EmployeeAnalyzer.py:101-102 | definition: `1 < seconds / 3600 < 10` on whole seconds, which is `3600 < seconds < 36000` |
| Detectors.IsLongShift | EmployeeAnalyzer.py:116-117 | definition: `seconds / 3600 > 14` on whole seconds, which is `seconds > 50400` |
| Detectors.TimesParse | EmployeeAnalyzer.py:68-73 | definition: the reads a pass makes at index i succeed: the two time-ins for consecutive days (lines 68-73, and the names the sort read), time-in of row i and time-out of row i-1 for rests (lines 93-98), time-in and time-out of row i for shifts (lines 112-113) |
| Detectors.Readable | EmployeeAnalyzer.py:93-103 | definition: the pass gets past index i without raising: the strptime calls succeed, and the name read by `add` exists when the row fires (also lines 81 and 112-118) |
| Detectors.AllReadable | EmployeeAnalyzer.py:89-103 | definition: the whole loop gets through: every index from the pass's first (1 for `range(1, len)`, 0 for `for employee in`) is readable (also lines 64-81 and 111-118) |
| Detectors.Fires | EmployeeAnalyzer.py:76-80 | definition: the `if` of each pass at one index: same name and `.days == 1` for consecutive days (lines 76-80), `IsShortRest` of the rest for rests (line 102), `IsLongShift` of the shift for shifts (line 117), each only where the timestamps it reads parse |
| Detectors.Flagged | EmployeeAnalyzer.py:64-118 | definition: the set each pass builds with `set.add`: the names of the flagged indices, one index after another |
| Detectors.FlaggedUpToMeaning | EmployeeAnalyzer.py:64-118 | a name is collected exactly when some row the pass has looked at fires and has that name |
| Detectors.DeltaDaysOne | EmployeeAnalyzer.py:79 | `timedelta.days == 1` exactly when the difference is at least 24 and less than 48 hours |
| Detectors.SortedRowsReadable | EmployeeAnalyzer.py:64-81 | once the sort has succeeded, the consecutive-day loop cannot raise |
| Detectors.ConsecutiveDaysMeaning | EmployeeAnalyzer.py:64-81 | a name is flagged exactly when two adjacent rows both have it and their start times are 24 to 48 hours apart; pairs with different names never count |
| Detectors.ShortRestMeaning | EmployeeAnalyzer.py:89-103 | a name is flagged exactly when a row i ≥ 1 with it starts more than 3600 and less than 36000 seconds, modulo a day, after row i-1 ends, whoever row i-1 belongs to |
| Detectors.LongShiftMeaning | EmployeeAnalyzer.py:111-118 | a name is flagged exactly when a row with it ends more than 50400 seconds, modulo a day, after it starts |
| Detectors.FlaggedAreNames | EmployeeAnalyzer.py:81-118 | every flagged name is the name of one of the rows |
| Detectors.PairsNeedTwoRows | EmployeeAnalyzer.py:64-89 | a list of fewer than two rows gives empty consecutive-day and rest sets |
| Detectors.LongShiftReadablePermuted | EmployeeAnalyzer.py:111-113 | whether the shift pass raises does not depend on row order |
| Detectors.LongShiftFlaggedPermuted | EmployeeAnalyzer.py:111-118 | every name flagged on one order is flagged on any permutation |
| Detectors.LongShiftIgnoresOrder | EmployeeAnalyzer.py:111-118 | the shift pass gives the same set on any permutation of the rows |
| Detectors.RestAcrossEmployees | EmployeeAnalyzer.py:89-103 | Bob starting at 3 AM after Ann left at 8 PM the day before is flagged |
| Detectors.RestBoundsAreStrict | EmployeeAnalyzer.py:102 | rests of exactly 1 and exactly 10 hours are not flagged |
| Detectors.ShiftLengths | EmployeeAnalyzer.py:116-117 | a 15-hour shift is flagged; exactly 14 hours is not; a 25-hour shift wraps round to 1 hour and is not |
| Detectors.ElapsedNotCalendarDays | EmployeeAnalyzer.py:76-80 | starts at 11 PM and 1 AM on the next date are not flagged; starts 47 hours apart on dates two days apart are |
| Detectors.ReadFields | EmployeeAnalyzer.py:93-98 | the strptime calls and the name read at one row (as in lines 68-73 and 112-113 too) give that row's reading |
| Detectors.CheckConsecutiveDays | EmployeeAnalyzer.py:55-83 | aborts exactly when some row lacks a name or a parsable time-in, leaving the list unchanged; otherwise the list is sorted in place and the set is the consecutive-day fold over the sorted rows |
| Detectors.ScanAdjacentDays | EmployeeAnalyzer.py:64-81 | the scan over the sorted list returns the consecutive-day fold |
| Detectors.CheckHoursBetweenShifts | EmployeeAnalyzer.py:86-105 | aborts exactly when a timestamp it parses is rejected or a flagged row has no name; otherwise returns the rest fold |
| Detectors.CheckSingleShiftDuration | EmployeeAnalyzer.py:108-120 | aborts exactly when a timestamp it parses is rejected or a flagged row has no name; otherwise returns the shift fold |
| Analyzer.Analysis | EmployeeAnalyzer.py:11-44 | definition: what `analyze_file` reports: the column lookup, the filter, the sort, then the three sets, or nothing when any step raises |
| Analyzer.AnalyzeFile | EmployeeAnalyzer.py:11-44 | the pipeline over the array (lookup, filter, the three passes on the same list) reports exactly `Analysis` of the header and rows |
| Analyzer.WellFormedReading | EmployeeAnalyzer.py:112-113 | a row is well formed exactly when its reading has a name and both timestamps |
| Analyzer.ReadableIffComplete | EmployeeAnalyzer.py:28-34 | after a successful sort, the other two passes get through exactly when every row also has a parsable time-out |
| Analyzer.WellFormedRows | EmployeeAnalyzer.py:28-34 | rows and their readings agree on which rows are well formed |
| Analyzer.AnalysisSucceeds | EmployeeAnalyzer.py:12-44 | all or nothing: a report exactly when the header has the four names, every row is long enough for the filter, and every row recording a shift has a name and two accepted timestamps |
| Analyzer.KeptWellFormed | EmployeeAnalyzer.py:23-25 | the kept rows are well formed exactly when every row recording a shift is |
| Analyzer.SameRowsWellFormed | EmployeeAnalyzer.py:57-62 | a permutation of the rows is well formed exactly when the rows are |
| Analyzer.MissingColumnAborts | EmployeeAnalyzer.py:47-52 | a header without one of the four names gives no report, whatever the rows |
| Analyzer.ReportedNamesAreEmployees | EmployeeAnalyzer.py:28-34 | every reported name is the name of a row of the file that records a shift |
| Analyzer.LongShiftReportIgnoresSort | EmployeeAnalyzer.py:28-34 | the shift set, computed after the sort, is what the shift pass gives on the kept rows in file order |

## Left out

- Opening the file, `csv.reader` tokenising and quoting, and the hard-coded path: the model starts from the header and the rows already split into fields. An empty file, which makes `next(reader)` raise, is not modelled.
- `print_results` and the text of the error message. The printed order of a Python set is not modelled either: the model returns the three sets, or `None` for any exception.
- The process-wide index globals: the four indices are passed as a `Columns` value.
- The float division by 3600: the comparisons are made on whole seconds below 86400 (`3600 < s < 36000`, `s > 50400`), where they agree with the float ones.
- Timestamps.ParseDateTime: accepts only ASCII digits, exactly one space where the format has one, no space-padded day, and AM/PM in any letter case. `strptime` also accepts any run of whitespace for a space, a space-padded day, Unicode digits, and locale spellings of AM/PM. These come from the library, not from the analyser.
- Timestamps.ParseDateTime: the model has no microseconds, time zones or other `datetime` fields, and the format has none.
- Detectors.CheckConsecutiveDays: the kind of exception is not kept; a key that raises during the sort and an IndexError are both `None`.
- ShiftOrder.SortInPlace: Python sorts with Timsort; the model uses an insertion sort. `ShiftOrder.SortByKeyIsTheStableSort` proves that every stable sort gives the same list.
