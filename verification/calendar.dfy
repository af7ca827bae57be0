/**
 * The proleptic Gregorian calendar of Python's `datetime`: dates, day
 * stepping, the ordinal day number that `timedelta` arithmetic rests on, and
 * date-times at microsecond resolution with their comparison and difference.
 */
module Calendar {

  datatype Date = Date(year: int, month: int, day: int)

  /** A date-time: a date and the microseconds since its midnight. */
  datatype Moment = Moment(date: Date, micros: int)

  const DayMicros := 86_400_000_000

  /** `datetime.MAXYEAR`: later dates overflow. */
  const MaxYear := 9999

  /** A value, or None where the Python code raises. */
  datatype Option<T> = None | Some(value: T)

  /** The Gregorian leap-year rule. */
  predicate IsLeap(y: int) {
    y % 4 == 0 && (y % 100 != 0 || y % 400 == 0)
  }

  function DaysInMonth(y: int, m: int): (n: int)
    requires 1 <= m <= 12
    ensures 28 <= n <= 31
    ensures n == 28 <==> m == 2 && !IsLeap(y)
    ensures n == 29 <==> m == 2 && IsLeap(y)
    ensures n == 30 <==> m == 4 || m == 6 || m == 9 || m == 11
  {
    if m == 2 then (if IsLeap(y) then 29 else 28)
    else if m == 4 || m == 6 || m == 9 || m == 11 then 30
    else 31
  }

  predicate Valid(d: Date) {
    1 <= d.month <= 12 && 1 <= d.day <= DaysInMonth(d.year, d.month)
  }

  predicate ValidMoment(t: Moment) {
    Valid(t.date) && 0 <= t.micros < DayMicros
  }

  /** A date-time `datetime` can hold. */
  predicate Representable(t: Moment) {
    ValidMoment(t) && 1 <= t.date.year <= MaxYear
  }

  /** The day after `d`. */
  function NextDay(d: Date): (e: Date)
    requires Valid(d)
    ensures Valid(e)
  {
    if d.day < DaysInMonth(d.year, d.month) then d.(day := d.day + 1)
    else if d.month < 12 then Date(d.year, d.month + 1, 1)
    else Date(d.year + 1, 1, 1)
  }

  /** The day before `d`. */
  function PrevDay(d: Date): (e: Date)
    requires Valid(d)
    ensures Valid(e)
  {
    if d.day > 1 then d.(day := d.day - 1)
    else if d.month > 1 then Date(d.year, d.month - 1, DaysInMonth(d.year, d.month - 1))
    else Date(d.year - 1, 12, 31)
  }

  /** `d + timedelta(days=n)`. */
  function AddDays(d: Date, n: nat): (e: Date)
    requires Valid(d)
    ensures Valid(e)
    decreases n
  {
    if n == 0 then d else AddDays(NextDay(d), n - 1)
  }

  /** `d - timedelta(days=n)`. */
  function SubDays(d: Date, n: nat): (e: Date)
    requires Valid(d)
    ensures Valid(e)
    decreases n
  {
    if n == 0 then d else SubDays(PrevDay(d), n - 1)
  }

  /** Days in the years before `y` counted from 1 January of year 1, in the
      closed form `datetime` uses (floor division throughout). */
  function DaysBeforeYear(y: int): int {
    var p := y - 1;
    365 * p + p / 4 - p / 100 + p / 400
  }

  /** Days in the months of year `y` before month `m`. */
  function DaysBeforeMonth(y: int, m: int): int
    requires 1 <= m <= 12
  {
    if m == 1 then 0 else DaysBeforeMonth(y, m - 1) + DaysInMonth(y, m - 1)
  }

  /** `date.toordinal()`: 1 January of year 1 is day 1. */
  function Ordinal(d: Date): int
    requires Valid(d)
  {
    DaysBeforeYear(d.year) + DaysBeforeMonth(d.year, d.month) + d.day
  }

  /** Lexicographic comparison of date-times, `a < b`. */
  predicate Before(a: Moment, b: Moment) {
    a.date.year < b.date.year
    || (a.date.year == b.date.year && a.date.month < b.date.month)
    || (a.date.year == b.date.year && a.date.month == b.date.month && a.date.day < b.date.day)
    || (a.date == b.date && a.micros < b.micros)
  }

  /** `(a - b).days`: the difference in microseconds, floored to whole days. */
  function DaysBetween(a: Moment, b: Moment): int
    requires Valid(a.date) && Valid(b.date)
  {
    ((Ordinal(a.date) - Ordinal(b.date)) * DayMicros + a.micros - b.micros) / DayMicros
  }

  // ---------------------------------------------------------------------
  // Day stepping against the ordinal

  /** A year has 365 days, 366 in a leap year. */
  lemma YearLength(y: int)
    ensures DaysBeforeYear(y + 1) - DaysBeforeYear(y) == if IsLeap(y) then 366 else 365
  {
    var p := y - 1;
    assert (p + 1) / 4 - p / 4 == (if y % 4 == 0 then 1 else 0);
    assert (p + 1) / 100 - p / 100 == (if y % 100 == 0 then 1 else 0);
    assert (p + 1) / 400 - p / 400 == (if y % 400 == 0 then 1 else 0);
    if y % 400 == 0 {
      assert y % 100 == 0 && y % 4 == 0;
    } else if y % 100 == 0 {
      assert y % 4 == 0;
    }
  }

  /** ... of which the months before December take all but 31. */
  lemma MonthsBeforeDecember(y: int)
    ensures DaysBeforeMonth(y, 12) + 31 == if IsLeap(y) then 366 else 365
  {
    var feb := DaysInMonth(y, 2);
    assert DaysBeforeMonth(y, 2) == 31;
    assert DaysBeforeMonth(y, 3) == 31 + feb;
    assert DaysBeforeMonth(y, 4) == 62 + feb;
    assert DaysBeforeMonth(y, 5) == 92 + feb;
    assert DaysBeforeMonth(y, 6) == 123 + feb;
    assert DaysBeforeMonth(y, 7) == 153 + feb;
    assert DaysBeforeMonth(y, 8) == 184 + feb;
    assert DaysBeforeMonth(y, 9) == 215 + feb;
    assert DaysBeforeMonth(y, 10) == 245 + feb;
    assert DaysBeforeMonth(y, 11) == 276 + feb;
  }

  /** `NextDay` is the successor in the day count. */
  lemma NextDayOrdinal(d: Date)
    requires Valid(d)
    ensures Ordinal(NextDay(d)) == Ordinal(d) + 1
  {
    if d.day == DaysInMonth(d.year, d.month) && d.month == 12 {
      YearLength(d.year);
      MonthsBeforeDecember(d.year);
    }
  }

  /** `PrevDay` undoes `NextDay` ... */
  lemma PrevNext(d: Date)
    requires Valid(d)
    ensures PrevDay(NextDay(d)) == d
  {
  }

  /** ... and `NextDay` undoes `PrevDay`. */
  lemma NextPrev(d: Date)
    requires Valid(d)
    ensures NextDay(PrevDay(d)) == d
  {
  }

  /** Adding `n` days moves the ordinal by `n`. */
  lemma {:induction false} AddDaysOrdinal(d: Date, n: nat)
    requires Valid(d)
    ensures Ordinal(AddDays(d, n)) == Ordinal(d) + n
    decreases n
  {
    if n > 0 {
      NextDayOrdinal(d);
      AddDaysOrdinal(NextDay(d), n - 1);
    }
  }

  /** Subtracting `n` days undoes adding them. */
  lemma {:induction false} SubAddDays(d: Date, n: nat)
    requires Valid(d)
    ensures SubDays(AddDays(d, n), n) == d
    decreases n
  {
    if n > 0 {
      SubAddDays(NextDay(d), n - 1);
      SubDaysLast(AddDays(d, n), n - 1);
      PrevNext(d);
    }
  }

  /** The last step of a subtraction. */
  lemma {:induction false} SubDaysLast(d: Date, n: nat)
    requires Valid(d)
    ensures SubDays(d, n + 1) == PrevDay(SubDays(d, n))
    decreases n
  {
    if n > 0 {
      SubDaysLast(PrevDay(d), n - 1);
    }
  }

  /** Two date-times on the same date-time of day differ by whole days:
      within one month, by the difference of their days. */
  lemma SameMonthDaysBetween(a: Moment, b: Moment)
    requires Valid(a.date) && Valid(b.date) && a.micros == b.micros
    requires a.date.year == b.date.year && a.date.month == b.date.month
    ensures DaysBetween(a, b) == a.date.day - b.date.day
  {
    var k := a.date.day - b.date.day;
    assert Ordinal(a.date) - Ordinal(b.date) == k;
    assert (k * DayMicros) / DayMicros == k;
  }

  /** Within a month, adding days just advances the day of the month. */
  lemma {:induction false} AddDaysWithinMonth(d: Date, n: nat)
    requires Valid(d) && d.day + n <= DaysInMonth(d.year, d.month)
    ensures AddDays(d, n) == d.(day := d.day + n)
    decreases n
  {
    if n > 0 {
      AddDaysWithinMonth(NextDay(d), n - 1);
    }
  }

  /** Adding `a + b` days is adding `a` days, then `b`. */
  lemma {:induction false} AddDaysSplit(d: Date, a: nat, b: nat)
    requires Valid(d)
    ensures AddDays(d, a + b) == AddDays(AddDays(d, a), b)
    decreases a
  {
    if a > 0 {
      AddDaysSplit(NextDay(d), a - 1, b);
    }
  }
}
