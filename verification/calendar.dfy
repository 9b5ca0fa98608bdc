/** The proleptic Gregorian calendar of Python's `datetime`, years 1..9999,
    with millisecond resolution. A `DateTime` is converted to and from a
    count of milliseconds since 0001-01-01 00:00:00.000, which is how
    `datetime + timedelta` carries sub-seconds into seconds, minutes, days,
    months and years. */
module Calendar {
  import opened Results
  import Text

  const MillisPerDay: nat := 86_400_000
  const MinYear: int := 1
  const MaxYear: int := 9999

  predicate IsLeapYear(y: int)
  {
    y % 4 == 0 && (y % 100 != 0 || y % 400 == 0)
  }

  function DaysInMonth(y: int, m: int): (n: nat)
    requires 1 <= m <= 12
    ensures 28 <= n <= 31
  {
    if m == 2 then (if IsLeapYear(y) then 29 else 28)
    else if m == 4 || m == 6 || m == 9 || m == 11 then 30
    else 31
  }

  function DaysInYear(y: int): (n: nat)
    ensures 365 <= n <= 366
  {
    if IsLeapYear(y) then 366 else 365
  }

  /** Days in the months of year `y` before month `m` (m = 13 means the whole year). */
  function DaysBeforeMonth(y: int, m: int): nat
    requires 1 <= m <= 13
  {
    if m == 1 then 0 else DaysBeforeMonth(y, m - 1) + DaysInMonth(y, m - 1)
  }

  /** Days from 0001-01-01 to the first of January of year `y`. */
  function DaysBeforeYear(y: int): nat
    requires y >= MinYear
  {
    if y == MinYear then 0 else DaysBeforeYear(y - 1) + DaysInYear(y - 1)
  }

  /** The twelve months together have exactly the days of the year. */
  lemma MonthsFillYear(y: int)
    ensures DaysBeforeMonth(y, 13) == DaysInYear(y)
  {
    var feb := DaysInMonth(y, 2);
    assert DaysBeforeMonth(y, 2) == 31;
    assert DaysBeforeMonth(y, 3) == 31 + feb;
    assert DaysBeforeMonth(y, 4) == 62 + feb;
    assert DaysBeforeMonth(y, 5) == 92 + feb;
    assert DaysBeforeMonth(y, 6) == 123 + feb;
    assert DaysBeforeMonth(y, 7) == 153 + feb;
    assert DaysBeforeMonth(y, 8) == 184 + feb;
    assert DaysBeforeMonth(y, 9) == 215 + feb;
    assert DaysBeforeMonth(y, 10) == 245 + feb;
    assert DaysBeforeMonth(y, 11) == 276 + feb;
    assert DaysBeforeMonth(y, 12) == 306 + feb;
  }

  /** Each month starts after all the days of every earlier month. */
  lemma {:induction false} MonthsIncrease(y: int, m1: int, m2: int)
    requires 1 <= m1 < m2 <= 13
    ensures DaysBeforeMonth(y, m1) + DaysInMonth(y, m1) <= DaysBeforeMonth(y, m2)
  {
    if m1 + 1 < m2 {
      MonthsIncrease(y, m1, m2 - 1);
    }
  }

  /** Each year starts after all the days of every earlier year. */
  lemma {:induction false} YearsIncrease(y1: int, y2: int)
    requires MinYear <= y1 < y2
    ensures DaysBeforeYear(y1) + DaysInYear(y1) <= DaysBeforeYear(y2)
  {
    if y1 + 1 < y2 {
      YearsIncrease(y1, y2 - 1);
    }
  }

  datatype DateTime = DateTime(year: int, month: int, day: int,
                               hour: int, minute: int, second: int, milli: int)

  predicate ValidDate(y: int, m: int, d: int)
  {
    MinYear <= y <= MaxYear && 1 <= m <= 12 && 1 <= d <= DaysInMonth(y, m)
  }

  /** A value Python's `datetime` can hold, truncated to milliseconds. */
  predicate Valid(t: DateTime)
  {
    && ValidDate(t.year, t.month, t.day)
    && 0 <= t.hour < 24 && 0 <= t.minute < 60 && 0 <= t.second < 60
    && 0 <= t.milli < 1000
  }

  /** Days from 0001-01-01 to the given date (Python's `toordinal() - 1`). */
  function DayNumber(y: int, m: int, d: int): nat
    requires ValidDate(y, m, d)
  {
    DaysBeforeYear(y) + DaysBeforeMonth(y, m) + (d - 1)
  }

  /** First day number after year 9999: every valid date lies below it. */
  function DayLimit(): nat
  {
    DaysBeforeYear(MaxYear + 1)
  }

  /** The year containing day `n` counted from the start of year `y`, and
      the day's offset within that year. */
  function YearOf(n: nat, y: int): (r: (int, nat))
    requires y >= MinYear
    ensures r.0 >= y && r.1 < DaysInYear(r.0)
    ensures DaysBeforeYear(r.0) + r.1 == DaysBeforeYear(y) + n
    decreases n
  {
    if n < DaysInYear(y) then (y, n) else YearOf(n - DaysInYear(y), y + 1)
  }

  /** The month of year `y` containing day `r` counted from the start of
      month `m`, and the day's offset within that month. */
  function MonthOf(r: nat, y: int, m: int): (res: (int, nat))
    requires 1 <= m <= 12 && DaysBeforeMonth(y, m) + r < DaysInYear(y)
    ensures m <= res.0 <= 12 && res.1 < DaysInMonth(y, res.0)
    ensures DaysBeforeMonth(y, res.0) + res.1 == DaysBeforeMonth(y, m) + r
    decreases 12 - m
  {
    MonthsFillYear(y);
    if r < DaysInMonth(y, m) then (m, r) else MonthOf(r - DaysInMonth(y, m), y, m + 1)
  }

  /** The date of day number `n`, as `(year, month, day)`. */
  function DateOfDay(n: nat): (ymd: (int, int, int))
    requires n < DayLimit()
    ensures ValidDate(ymd.0, ymd.1, ymd.2)
    ensures DayNumber(ymd.0, ymd.1, ymd.2) == n
  {
    var (y, r) := YearOf(n, MinYear);
    if y > MaxYear then
      YearsIncrease(MaxYear + 1, y);
      assert false;
      (MinYear, 1, 1)
    else
      var (m, d) := MonthOf(r, y, 1);
      (y, m, d + 1)
  }

  /** Day numbers name dates one-to-one: the date of a date's number is that date. */
  lemma DayNumberRoundTrip(y: int, m: int, d: int)
    requires ValidDate(y, m, d)
    ensures DayNumber(y, m, d) < DayLimit()
    ensures DateOfDay(DayNumber(y, m, d)) == (y, m, d)
  {
    DayNumberBelowLimit(y, m, d);
    DayWithinYear(y, m, d);
    var n := DayNumber(y, m, d);
    var ymd := DateOfDay(n);
    YearUnique(ymd.0, DaysBeforeMonth(ymd.0, ymd.1) + ymd.2 - 1, y, DaysBeforeMonth(y, m) + d - 1);
    MonthUnique(y, ymd.1, ymd.2 - 1, m, d - 1);
  }

  lemma DayNumberBelowLimit(y: int, m: int, d: int)
    requires ValidDate(y, m, d)
    ensures DayNumber(y, m, d) < DayLimit()
  {
    DayNumberBelowYear(y, m, d, MaxYear + 1);
  }

  /** A date lies before the first day of every later year. */
  lemma DayNumberBelowYear(y: int, m: int, d: int, z: int)
    requires ValidDate(y, m, d) && y < z
    ensures DayNumber(y, m, d) < DaysBeforeYear(z)
  {
    DayWithinYear(y, m, d);
    YearsIncrease(y, z);
  }

  /** A date's offset from the first of January is less than the days of its year. */
  lemma DayWithinYear(y: int, m: int, d: int)
    requires ValidDate(y, m, d)
    ensures DaysBeforeMonth(y, m) + d - 1 < DaysInYear(y)
  {
    MonthsFillYear(y);
    if m < 12 {
      MonthsIncrease(y, m, 13);
    }
  }

  lemma YearUnique(y1: int, r1: nat, y2: int, r2: nat)
    requires MinYear <= y1 && MinYear <= y2
    requires r1 < DaysInYear(y1) && r2 < DaysInYear(y2)
    requires DaysBeforeYear(y1) + r1 == DaysBeforeYear(y2) + r2
    ensures y1 == y2 && r1 == r2
  {
    if y1 < y2 {
      YearsIncrease(y1, y2);
    } else if y2 < y1 {
      YearsIncrease(y2, y1);
    }
  }

  lemma MonthUnique(y: int, m1: int, r1: nat, m2: int, r2: nat)
    requires 1 <= m1 <= 12 && 1 <= m2 <= 12
    requires r1 < DaysInMonth(y, m1) && r2 < DaysInMonth(y, m2)
    requires DaysBeforeMonth(y, m1) + r1 == DaysBeforeMonth(y, m2) + r2
    ensures m1 == m2 && r1 == r2
  {
    if m1 < m2 {
      MonthsIncrease(y, m1, m2);
    } else if m2 < m1 {
      MonthsIncrease(y, m2, m1);
    }
  }

  /** Milliseconds from 0001-01-01 00:00:00.000 to `t`. */
  function ToMillis(t: DateTime): nat
    requires Valid(t)
  {
    (((DayNumber(t.year, t.month, t.day) * 24 + t.hour) * 60 + t.minute) * 60 + t.second) * 1000
      + t.milli
  }

  /** First instant after 9999-12-31 23:59:59.999. */
  function MillisLimit(): nat
  {
    DayLimit() * MillisPerDay
  }

  /** The calendar reading of instant `n`. */
  function FromMillis(n: nat): (t: DateTime)
    requires n < MillisLimit()
    ensures Valid(t) && ToMillis(t) == n
  {
    var milli := n % 1000;
    var secs := n / 1000;
    var second := secs % 60;
    var mins := secs / 60;
    var minute := mins % 60;
    var hours := mins / 60;
    var hour := hours % 24;
    var days := hours / 24;
    assert days < DayLimit() by {
      assert n == days * MillisPerDay + ((hour * 60 + minute) * 60 + second) * 1000 + milli;
      if days >= DayLimit() {
        Text.MulAtLeast(days - DayLimit() + 1, MillisPerDay);
      }
    }
    var ymd := DateOfDay(days);
    DateTime(ymd.0, ymd.1, ymd.2, hour, minute, second, milli)
  }

  /** Reading an instant back from its calendar fields gives the fields. */
  lemma MillisRoundTrip(t: DateTime)
    requires Valid(t)
    ensures ToMillis(t) < MillisLimit()
    ensures FromMillis(ToMillis(t)) == t
  {
    var day := DayNumber(t.year, t.month, t.day);
    DayNumberRoundTrip(t.year, t.month, t.day);
    var n := ToMillis(t);
    var hours := day * 24 + t.hour;
    var mins := hours * 60 + t.minute;
    var secs := mins * 60 + t.second;
    Text.DivModUnique(n, 1000, secs, t.milli);
    Text.DivModUnique(secs, 60, mins, t.second);
    Text.DivModUnique(mins, 60, hours, t.minute);
    Text.DivModUnique(hours, 24, day, t.hour);
    assert n < MillisLimit() by {
      assert n == day * MillisPerDay + ((t.hour * 60 + t.minute) * 60 + t.second) * 1000 + t.milli;
      assert day + 1 <= DayLimit();
      assert (day + 1) * MillisPerDay <= MillisLimit();
    }
  }

  /** Two valid date-times at the same instant are the same date-time. */
  lemma ToMillisInjective(a: DateTime, b: DateTime)
    requires Valid(a) && Valid(b) && ToMillis(a) == ToMillis(b)
    ensures a == b
  {
    MillisRoundTrip(a);
    MillisRoundTrip(b);
  }

  /** `t + timedelta(milliseconds=k)`: `None` when the sum leaves years 1..9999
      (Python raises `OverflowError` there). */
  function AddMillis(t: DateTime, k: int): (r: Option<DateTime>)
    requires Valid(t)
    ensures r.Some? ==> Valid(r.value) && ToMillis(r.value) == ToMillis(t) + k
    ensures r.None? <==> !(0 <= ToMillis(t) + k < MillisLimit())
  {
    var n := ToMillis(t) + k;
    if 0 <= n < MillisLimit() then Some(FromMillis(n)) else None
  }

  /** Adding milliseconds to a date-time with no sub-second part gives the
      same second exactly when fewer than 1000 are added, and the sub-second
      field is then the amount added. In general the sub-second field is the
      amount modulo 1000 and the whole seconds advance by the amount
      divided by 1000, carrying into minutes, hours, days, months and years. */
  lemma SubSecondCarry(t: DateTime, k: int)
    requires Valid(t) && t.milli == 0 && 0 <= k
    requires AddMillis(t, k).Some?
    ensures var u := AddMillis(t, k).value;
      && (k < 1000 <==> u == t.(milli := k))
      && u.milli == k % 1000
      && ToMillis(u) - u.milli == ToMillis(t) + (k / 1000) * 1000
  {
    var u := AddMillis(t, k).value;
    assert ToMillis(u) == WholeSeconds(u) * 1000 + u.milli;
    assert ToMillis(u) == (WholeSeconds(t) + k / 1000) * 1000 + k % 1000;
    Text.DivModUnique(ToMillis(u), 1000, WholeSeconds(u), u.milli);
    Text.DivModUnique(ToMillis(u), 1000, WholeSeconds(t) + k / 1000, k % 1000);
    if k < 1000 {
      var v := t.(milli := k);
      assert ToMillis(v) == ToMillis(t) + k;
      ToMillisInjective(u, v);
    }
  }

  /** Whole seconds from 0001-01-01 00:00:00 to `t`. */
  function WholeSeconds(t: DateTime): nat
    requires Valid(t)
  {
    ((DayNumber(t.year, t.month, t.day) * 24 + t.hour) * 60 + t.minute) * 60 + t.second
  }
}
