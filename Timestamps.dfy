/** The timestamps of a timecard, written in the one format the analyser
    accepts, `%m/%d/%Y %I:%M %p`, and the arithmetic Python's `datetime` does on
    them. A timestamp becomes an integer count of seconds; subtracting two of
    them is Python's `datetime` subtraction, and `DeltaDays` / `DeltaSeconds`
    are the `days` and `seconds` fields of the resulting `timedelta`. */
module Timestamps {
  import opened Wrappers

  const SecondsPerMinute: int := 60
  const SecondsPerHour: int := 3600
  const SecondsPerDay: int := 86400

  datatype Meridiem = AM | PM

  /** A reading of the form month/day/year hour:minute AM|PM; `hour` is on the
      12-hour clock, as the `%I` directive reads it. */
  datatype DateTime = DateTime(year: int, month: int, day: int, hour: int, minute: int, meridiem: Meridiem)

  // ---------------------------------------------------------------------------
  // The proleptic Gregorian calendar, as Python's datetime module counts it

  predicate IsLeapYear(y: int) {
    y % 4 == 0 && (y % 100 != 0 || y % 400 == 0)
  }

  function DaysInYear(y: int): int {
    if IsLeapYear(y) then 366 else 365
  }

  function DaysInMonth(y: int, m: int): (n: int)
    requires 1 <= m <= 12
    ensures 28 <= n <= 31
    ensures n == 29 <==> m == 2 && IsLeapYear(y)
  {
    if m == 2 then (if IsLeapYear(y) then 29 else 28)
    else if m == 4 || m == 6 || m == 9 || m == 11 then 30
    else 31
  }

  /** Python's datetime accepts years 1 to 9999 and nothing else. */
  predicate ValidDate(y: int, m: int, d: int) {
    1 <= y <= 9999 && 1 <= m <= 12 && 1 <= d <= DaysInMonth(y, m)
  }

  predicate Valid(dt: DateTime) {
    ValidDate(dt.year, dt.month, dt.day) && 1 <= dt.hour <= 12 && 0 <= dt.minute <= 59
  }

  /** Days in the years before `y`, counted from 1 January of year 1. */
  function DaysBeforeYear(y: int): int
    requires 1 <= y
  {
    var p := y - 1;
    p * 365 + p / 4 - p / 100 + p / 400
  }

  const DaysBeforeMonthInCommonYear: seq<int> := [0, 0, 31, 59, 90, 120, 151, 181, 212, 243, 273, 304, 334]

  /** Days in the months of year `y` before month `m`. */
  function DaysBeforeMonth(y: int, m: int): int
    requires 1 <= m <= 12
  {
    DaysBeforeMonthInCommonYear[m] + (if m > 2 && IsLeapYear(y) then 1 else 0)
  }

  /** The day number of a date; 1 January of year 1 is day 1. */
  function Ordinal(y: int, m: int, d: int): int
    requires ValidDate(y, m, d)
  {
    DaysBeforeYear(y) + DaysBeforeMonth(y, m) + d
  }

  /** The 24-hour clock hour of a 12-hour reading: 12 AM is hour 0, 12 PM is
      hour 12. The ensures determine the result: it is the one hour of the day
      that agrees with `hour` modulo 12 and lies in the half of the day the
      meridiem names. */
  function Hour24(hour: int, meridiem: Meridiem): (h: int)
    requires 1 <= hour <= 12
    ensures 0 <= h < 24
    ensures h % 12 == hour % 12
    ensures h < 12 <==> meridiem == AM
  {
    match meridiem
    case AM => if hour == 12 then 0 else hour
    case PM => if hour == 12 then 12 else hour + 12
  }

  /** Seconds since midnight. */
  function ClockSeconds(dt: DateTime): (s: int)
    requires Valid(dt)
    ensures 0 <= s < SecondsPerDay
  {
    Hour24(dt.hour, dt.meridiem) * SecondsPerHour + dt.minute * SecondsPerMinute
  }

  /** The integer value of a timestamp: seconds since the midnight that
      begins day 0, the day before 1 January of year 1 (day numbers start at
      1, as `toordinal` does).
      The difference of two values is the total number of seconds of the
      `timedelta` Python computes for their subtraction. */
  function ToSeconds(dt: DateTime): int
    requires Valid(dt)
  {
    Ordinal(dt.year, dt.month, dt.day) * SecondsPerDay + ClockSeconds(dt)
  }

  // ---------------------------------------------------------------------------
  // timedelta.days and timedelta.seconds

  /** `timedelta.days`: whole days, rounded towards minus infinity. */
  function DeltaDays(delta: int): (days: int)
    ensures days * SecondsPerDay <= delta < (days + 1) * SecondsPerDay
  {
    delta / SecondsPerDay
  }

  /** `timedelta.seconds`: what remains after the whole days, never negative,
      even for a negative delta. */
  function DeltaSeconds(delta: int): (seconds: int)
    ensures 0 <= seconds < SecondsPerDay
    ensures DeltaDays(delta) * SecondsPerDay + seconds == delta
  {
    delta % SecondsPerDay
  }

  // ---------------------------------------------------------------------------
  // Day lengths

  /** Counting the multiples of 4, 100 and 400 up to `y` instead of `y - 1`
      adds one exactly when `y` is such a multiple. */
  lemma {:induction false} MultiplesOf4(y: int)
    ensures y / 4 - (y - 1) / 4 == if y % 4 == 0 then 1 else 0
  {
  }

  lemma {:induction false} MultiplesOf100(y: int)
    ensures y / 100 - (y - 1) / 100 == if y % 100 == 0 then 1 else 0
  {
  }

  lemma {:induction false} MultiplesOf400(y: int)
    ensures y / 400 - (y - 1) / 400 == if y % 400 == 0 then 1 else 0
  {
  }

  lemma {:induction false} YearStep(y: int)
    requires 1 <= y
    ensures DaysBeforeYear(y + 1) == DaysBeforeYear(y) + DaysInYear(y)
  {
    MultiplesOf4(y);
    MultiplesOf100(y);
    MultiplesOf400(y);
  }

  lemma {:induction false} MonthStep(y: int, m: int)
    requires 1 <= m < 12
    ensures DaysBeforeMonth(y, m + 1) == DaysBeforeMonth(y, m) + DaysInMonth(y, m)
  {
  }

  lemma {:induction false} YearEnd(y: int)
    ensures DaysBeforeMonth(y, 12) + DaysInMonth(y, 12) == DaysInYear(y)
  {
  }

  lemma {:induction false} MonthsOrdered(y: int, m1: int, m2: int)
    requires 1 <= m1 < m2 <= 12
    ensures DaysBeforeMonth(y, m1) + DaysInMonth(y, m1) <= DaysBeforeMonth(y, m2)
    decreases m2 - m1
  {
    MonthStep(y, m1);
    if m1 + 1 < m2 {
      MonthsOrdered(y, m1 + 1, m2);
    }
  }

  lemma {:induction false} YearsOrdered(y1: int, y2: int)
    requires 1 <= y1 < y2
    ensures DaysBeforeYear(y1) + DaysInYear(y1) <= DaysBeforeYear(y2)
    decreases y2 - y1
  {
    YearStep(y1);
    if y1 + 1 < y2 {
      YearsOrdered(y1 + 1, y2);
    }
  }

  /** Every day of year `y` lies after the days of the years before it and
      within the year's own length. */
  lemma {:induction false} OrdinalWithinYear(y: int, m: int, d: int)
    requires ValidDate(y, m, d)
    ensures DaysBeforeYear(y) < Ordinal(y, m, d) <= DaysBeforeYear(y) + DaysInYear(y)
  {
    if m < 12 {
      MonthsOrdered(y, m, 12);
    }
    YearEnd(y);
  }

  predicate DateBefore(y1: int, m1: int, d1: int, y2: int, m2: int, d2: int) {
    y1 < y2 || (y1 == y2 && (m1 < m2 || (m1 == m2 && d1 < d2)))
  }

  lemma {:induction false} OrdinalMonotone(y1: int, m1: int, d1: int, y2: int, m2: int, d2: int)
    requires ValidDate(y1, m1, d1) && ValidDate(y2, m2, d2)
    requires DateBefore(y1, m1, d1, y2, m2, d2)
    ensures Ordinal(y1, m1, d1) < Ordinal(y2, m2, d2)
  {
    if y1 < y2 {
      OrdinalWithinYear(y1, m1, d1);
      OrdinalWithinYear(y2, m2, d2);
      YearsOrdered(y1, y2);
    } else if m1 < m2 {
      MonthsOrdered(y1, m1, m2);
    }
  }

  /** Day numbers order dates as the calendar does. */
  lemma {:induction false} OrdinalOrder(y1: int, m1: int, d1: int, y2: int, m2: int, d2: int)
    requires ValidDate(y1, m1, d1) && ValidDate(y2, m2, d2)
    ensures Ordinal(y1, m1, d1) < Ordinal(y2, m2, d2) <==> DateBefore(y1, m1, d1, y2, m2, d2)
  {
    if DateBefore(y1, m1, d1, y2, m2, d2) {
      OrdinalMonotone(y1, m1, d1, y2, m2, d2);
    } else if DateBefore(y2, m2, d2, y1, m1, d1) {
      OrdinalMonotone(y2, m2, d2, y1, m1, d1);
    }
  }

  /** The chronological order of two readings: by date, then by the hour of
      the 24-hour day, then by minute (the order Python compares datetimes in). */
  predicate Earlier(a: DateTime, b: DateTime)
    requires Valid(a) && Valid(b)
  {
    DateBefore(a.year, a.month, a.day, b.year, b.month, b.day)
    || (a.year == b.year && a.month == b.month && a.day == b.day
        && (Hour24(a.hour, a.meridiem) < Hour24(b.hour, b.meridiem)
            || (Hour24(a.hour, a.meridiem) == Hour24(b.hour, b.meridiem) && a.minute < b.minute)))
  }

  /** Comparing the integer values of two timestamps is comparing the
      timestamps themselves, so sorting by the integer is sorting by the
      datetime. */
  lemma {:induction false} ToSecondsOrder(a: DateTime, b: DateTime)
    requires Valid(a) && Valid(b)
    ensures ToSeconds(a) < ToSeconds(b) <==> Earlier(a, b)
  {
    OrdinalOrder(a.year, a.month, a.day, b.year, b.month, b.day);
    OrdinalOrder(b.year, b.month, b.day, a.year, a.month, a.day);
  }

  /** Distinct readings have distinct values. */
  lemma {:induction false} ToSecondsInjective(a: DateTime, b: DateTime)
    requires Valid(a) && Valid(b)
    requires ToSeconds(a) == ToSeconds(b)
    ensures a == b
  {
    ToSecondsOrder(a, b);
    ToSecondsOrder(b, a);
    OrdinalOrder(a.year, a.month, a.day, b.year, b.month, b.day);
    OrdinalOrder(b.year, b.month, b.day, a.year, a.month, a.day);
  }

  /** The same clock reading on the next calendar day. */
  function Tomorrow(dt: DateTime): DateTime
    requires Valid(dt)
  {
    if dt.day < DaysInMonth(dt.year, dt.month) then dt.(day := dt.day + 1)
    else if dt.month < 12 then dt.(month := dt.month + 1, day := 1)
    else dt.(year := dt.year + 1, month := 1, day := 1)
  }

  /** Every calendar day is 86400 seconds long: there are no time zones and no
      daylight-saving changes in a naive datetime. */
  lemma {:induction false} NextDaySeconds(dt: DateTime)
    requires Valid(dt) && Valid(Tomorrow(dt))
    ensures ToSeconds(Tomorrow(dt)) == ToSeconds(dt) + SecondsPerDay
  {
    if dt.day == DaysInMonth(dt.year, dt.month) {
      if dt.month < 12 {
        MonthStep(dt.year, dt.month);
      } else {
        YearEnd(dt.year);
        YearStep(dt.year);
      }
    }
  }

  // ---------------------------------------------------------------------------
  // Reading a field with strptime and the format "%m/%d/%Y %I:%M %p"

  predicate IsDigit(c: char) {
    '0' <= c <= '9'
  }

  predicate AllDigits(s: string) {
    forall k :: 0 <= k < |s| ==> IsDigit(s[k])
  }

  function DigitValue(c: char): nat
    requires IsDigit(c)
  {
    c as int - '0' as int
  }

  function DecimalValue(s: string): nat
    requires AllDigits(s)
    decreases |s|
  {
    if |s| == 0 then 0 else DecimalValue(s[..|s| - 1]) * 10 + DigitValue(s[|s| - 1])
  }

  /** The length of the run of digits that starts at position `i`. */
  function DigitRun(s: string, i: nat): (n: nat)
    requires i <= |s|
    ensures i + n <= |s|
    ensures forall k :: i <= k < i + n ==> IsDigit(s[k])
    ensures i + n == |s| || !IsDigit(s[i + n])
    decreases |s| - i
  {
    if i < |s| && IsDigit(s[i]) then 1 + DigitRun(s, i + 1) else 0
  }

  datatype Scanned = Scanned(value: nat, next: nat)

  /** A numeric directive: the digits at `i` up to the next non-digit, between
      `minWidth` and `maxWidth` of them. Every directive of the format is
      followed by a separator that is not a digit, so the regular expression
      strptime builds accepts exactly this run of digits or nothing. */
  function Number(s: string, i: nat, minWidth: nat, maxWidth: nat): (r: Option<Scanned>)
    requires i <= |s|
    ensures r.Some? ==> i + minWidth <= r.value.next <= i + maxWidth && r.value.next <= |s|
  {
    var n := DigitRun(s, i);
    if minWidth <= n <= maxWidth then Some(Scanned(DecimalValue(s[i..i + n]), i + n)) else None
  }

  /** A literal character of the format. */
  function Literal(s: string, i: nat, c: char): (r: Option<nat>)
    requires i <= |s|
    ensures r.Some? ==> r.value == i + 1 <= |s|
  {
    if i < |s| && s[i] == c then Some(i + 1) else None
  }

  /** `%p` at the end of the field, in either case. */
  function MeridiemAt(s: string, i: nat): Option<Meridiem>
    requires i <= |s|
  {
    if |s| != i + 2 || (s[i + 1] != 'M' && s[i + 1] != 'm') then None
    else if s[i] == 'A' || s[i] == 'a' then Some(AM)
    else if s[i] == 'P' || s[i] == 'p' then Some(PM)
    else None
  }

  /** `datetime.strptime(s, "%m/%d/%Y %I:%M %p")`: `None` is the ValueError
      raised for a field that is not a reading in this format or names a
      date or time that does not exist. */
  function ParseDateTime(s: string): (r: Option<DateTime>)
    ensures r.Some? ==> Valid(r.value)
  {
    var month :- Number(s, 0, 1, 2);
    var p1 :- Literal(s, month.next, '/');
    var day :- Number(s, p1, 1, 2);
    var p2 :- Literal(s, day.next, '/');
    var year :- Number(s, p2, 4, 4);
    var p3 :- Literal(s, year.next, ' ');
    var hour :- Number(s, p3, 1, 2);
    var p4 :- Literal(s, hour.next, ':');
    var minute :- Number(s, p4, 1, 2);
    var p5 :- Literal(s, minute.next, ' ');
    var meridiem :- MeridiemAt(s, p5);
    var dt := DateTime(year.value, month.value, day.value, hour.value, minute.value, meridiem);
    if Valid(dt) then Some(dt) else None
  }

  /** The integer value of a timecard field, or `None` where strptime raises. */
  function ParseTimestamp(s: string): Option<int> {
    match ParseDateTime(s)
    case None => None
    case Some(dt) => Some(ToSeconds(dt))
  }

  // ---------------------------------------------------------------------------
  // Writing a reading in the format, and reading it back

  function DigitChar(d: int): (c: char)
    requires 0 <= d <= 9
    ensures IsDigit(c) && DigitValue(c) == d
  {
    ('0' as int + d) as char
  }

  function TwoDigits(n: int): string
    requires 0 <= n < 100
  {
    [DigitChar(n / 10), DigitChar(n % 10)]
  }

  function FourDigits(n: int): string
    requires 0 <= n < 10000
  {
    TwoDigits(n / 100) + TwoDigits(n % 100)
  }

  function MeridiemText(m: Meridiem): string {
    if m == AM then "AM" else "PM"
  }

  /** `dt.strftime("%m/%d/%Y %I:%M %p")`: the zero-padded rendering. */
  function Format(dt: DateTime): (s: string)
    requires Valid(dt)
    ensures |s| == 19
  {
    TwoDigits(dt.month) + "/" + TwoDigits(dt.day) + "/" + FourDigits(dt.year) + " "
    + TwoDigits(dt.hour) + ":" + TwoDigits(dt.minute) + " " + MeridiemText(dt.meridiem)
  }

  lemma {:induction false} DigitRunExact(s: string, i: nat, n: nat)
    requires i + n <= |s|
    requires forall k :: i <= k < i + n ==> IsDigit(s[k])
    requires i + n == |s| || !IsDigit(s[i + n])
    ensures DigitRun(s, i) == n
    decreases n
  {
    if n > 0 {
      DigitRunExact(s, i + 1, n - 1);
    }
  }

  /** Digits placed at `i` make the characters there digits. */
  lemma {:induction false} DigitsAt(s: string, i: nat, digits: string)
    requires i + |digits| <= |s| && s[i..i + |digits|] == digits && AllDigits(digits)
    ensures forall k :: i <= k < i + |digits| ==> IsDigit(s[k])
  {
    forall k | i <= k < i + |digits|
      ensures IsDigit(s[k])
    {
      assert s[k] == digits[k - i];
    }
  }

  lemma {:induction false} NumberAt(s: string, i: nat, digits: string, minWidth: nat, maxWidth: nat)
    requires i + |digits| <= |s| && s[i..i + |digits|] == digits && AllDigits(digits)
    requires i + |digits| == |s| || !IsDigit(s[i + |digits|])
    requires minWidth <= |digits| <= maxWidth
    ensures Number(s, i, minWidth, maxWidth) == Some(Scanned(DecimalValue(digits), i + |digits|))
  {
    DigitsAt(s, i, digits);
    DigitRunExact(s, i, |digits|);
  }

  lemma {:induction false} TwoDigitsValue(n: int)
    requires 0 <= n < 100
    ensures AllDigits(TwoDigits(n)) && DecimalValue(TwoDigits(n)) == n
  {
    var t := TwoDigits(n);
    assert t[..1] == [t[0]];
    assert [t[0]][..0] == [];
    assert DecimalValue([t[0]]) == n / 10;
    assert DecimalValue(t) == DecimalValue(t[..1]) * 10 + n % 10;
  }

  lemma {:induction false} FourDigitsValue(n: int)
    requires 0 <= n < 10000
    ensures AllDigits(FourDigits(n)) && DecimalValue(FourDigits(n)) == n
  {
    var f := FourDigits(n);
    TwoDigitsValue(n / 100);
    assert f[..3][..2] == TwoDigits(n / 100);
    assert f[..3] == TwoDigits(n / 100) + [f[2]];
  }

  /** Where each piece of the rendering sits. */
  lemma {:induction false} FormatLayout(dt: DateTime)
    requires Valid(dt)
    ensures var s := Format(dt);
      s[0..2] == TwoDigits(dt.month) && s[2] == '/'
      && s[3..5] == TwoDigits(dt.day) && s[5] == '/'
      && s[6..10] == FourDigits(dt.year) && s[10] == ' '
      && s[11..13] == TwoDigits(dt.hour) && s[13] == ':'
      && s[14..16] == TwoDigits(dt.minute) && s[16] == ' '
      && s[17..19] == MeridiemText(dt.meridiem)
  {
    var month, day, year := TwoDigits(dt.month), TwoDigits(dt.day), FourDigits(dt.year);
    var hour, minute, meridiem := TwoDigits(dt.hour), TwoDigits(dt.minute), MeridiemText(dt.meridiem);
    var date := month + "/" + day + "/" + year;
    var clock := hour + ":" + minute;
    assert |date| == 10 && |clock| == 5;
    var s := Format(dt);
    assert s == date + " " + clock + " " + meridiem;
    assert s[..10] == date && s[11..16] == clock;
    assert date[0..2] == month && date[3..5] == day && date[6..10] == year;
    assert clock[0..2] == hour && clock[3..5] == minute;
  }

  /** strptime reads back every reading strftime writes, so every valid
      reading has a spelling the analyser accepts. */
  lemma {:induction false} ParseFormat(dt: DateTime)
    requires Valid(dt)
    ensures ParseDateTime(Format(dt)) == Some(dt)
    ensures ParseTimestamp(Format(dt)) == Some(ToSeconds(dt))
  {
    var s := Format(dt);
    FormatLayout(dt);
    TwoDigitsValue(dt.month);
    TwoDigitsValue(dt.day);
    FourDigitsValue(dt.year);
    TwoDigitsValue(dt.hour);
    TwoDigitsValue(dt.minute);
    NumberAt(s, 0, TwoDigits(dt.month), 1, 2);
    NumberAt(s, 3, TwoDigits(dt.day), 1, 2);
    NumberAt(s, 6, FourDigits(dt.year), 4, 4);
    NumberAt(s, 11, TwoDigits(dt.hour), 1, 2);
    NumberAt(s, 14, TwoDigits(dt.minute), 1, 2);
    assert MeridiemAt(s, 17) == Some(dt.meridiem);
  }
}
