/**
 * `TimedCompressionRotatingFileHandler`: a timed rotating log handler whose
 * rollover is pushed to the end of the current month, whose rotated files
 * carry a `.log` suffix and are gzip-compressed under a `.gz` name.
 *
 * The base handler's rollover time `r` and the current local date-time are
 * parameters.
 */
module Rollover {
  import opened Calendar

  const DaySeconds := 86400

  /** `next_month = now.replace(day=28) + timedelta(days=4)` and then
      `next_month - timedelta(days=next_month.day)`: the time of day is kept.
      None where the sum passes year 9999 and Python raises OverflowError. */
  function LastDayOfMonth(now: Moment): Option<Moment>
    requires Representable(now)
  {
    var next := AddDays(now.date.(day := 28), 4);
    if next.year > MaxYear then None
    else Some(Moment(SubDays(next, next.day), now.micros))
  }

  /** `computeRollover(currentTime)` with `super().computeRollover` giving `r`:
      no change from the last day of the month on, otherwise the whole days
      left in the month are added. None where the month's end cannot be
      computed. */
  function ComputeRollover(r: int, now: Moment): Option<int>
    requires Representable(now)
  {
    match LastDayOfMonth(now)
    case None => None
    case Some(last) =>
      if !Before(now, last) then Some(r)
      else Some(r + DaysBetween(last, now) * DaySeconds)
  }

  /** `custom_namer`: a rotated file is stored compressed under a `.gz` name. */
  function CustomNamer(name: string): string {
    name + ".gz"
  }

  /** The constructor appends `.log` to the date suffix of the base handler. */
  function RotationSuffix(baseSuffix: string): string {
    baseSuffix + ".log"
  }

  /** The day-28-plus-four trick lands on the last day of the month, as the
      Gregorian rule counts it, at the same time of day. Only in December of
      year 9999 does the sum overflow. */
  lemma MonthEndTrick(now: Moment)
    requires Representable(now)
    ensures LastDayOfMonth(now).None? <==> now.date.year == MaxYear && now.date.month == 12
    ensures LastDayOfMonth(now).Some? ==>
      LastDayOfMonth(now).value == Moment(Date(now.date.year, now.date.month, DaysInMonth(now.date.year, now.date.month)), now.micros)
  {
    var y, m := now.date.year, now.date.month;
    var len := DaysInMonth(y, m);
    var end := Date(y, m, len);
    var k := 32 - len;
    AddDaysWithinMonth(Date(y, m, 28), len - 28);
    AddDaysSplit(Date(y, m, 28), len - 28, k);
    var first := NextDay(end);
    assert first.day == 1 && first.year == if m == 12 then y + 1 else y;
    AddDaysWithinMonth(first, k - 1);
    var next := AddDays(now.date.(day := 28), 4);
    assert next == AddDays(end, k);
    assert next.day == k && next.year == first.year;
    SubAddDays(end, k);
  }

  /** The rollover is moved by exactly the days left in the month, except
      in December of year 9999, where computing it raises. */
  lemma RolloverToMonthEnd(r: int, now: Moment)
    requires Representable(now)
    ensures ComputeRollover(r, now) ==
      if now.date.year == MaxYear && now.date.month == 12 then None
      else Some(r + DaySeconds * (DaysInMonth(now.date.year, now.date.month) - now.date.day))
  {
    MonthEndTrick(now);
    if LastDayOfMonth(now).Some? {
      var last := LastDayOfMonth(now).value;
      var left := DaysInMonth(now.date.year, now.date.month) - now.date.day;
      if Before(now, last) {
        SameMonthDaysBetween(last, now);
        assert DaysBetween(last, now) == left;
      } else {
        assert left == 0;
      }
    }
  }

  /** Hence, wherever it is computed, the rollover never moves earlier,
      moves by whole days and by at most thirty of them, and stays put
      exactly on the last day of the month. */
  lemma RolloverOffset(r: int, now: Moment)
    requires Representable(now)
    ensures ComputeRollover(r, now).None? <==> now.date.year == MaxYear && now.date.month == 12
    ensures ComputeRollover(r, now).Some? ==>
      var off := ComputeRollover(r, now).value - r;
      && 0 <= off <= 30 * DaySeconds && off % DaySeconds == 0
      && (off == 0 <==> now.date.day == DaysInMonth(now.date.year, now.date.month))
  {
    RolloverToMonthEnd(r, now);
    var left := DaysInMonth(now.date.year, now.date.month) - now.date.day;
    assert 0 <= left <= 30;
    if ComputeRollover(r, now).Some? {
      assert ComputeRollover(r, now).value - r == 86400 * left;
    }
  }

  /** Two base suffixes extended with `.log` stay apart, so rotated files
      of different periods keep different names. */
  lemma SuffixInjective(a: string, b: string)
    requires RotationSuffix(a) == RotationSuffix(b)
    ensures a == b
  {
    assert a == RotationSuffix(a)[..|a|];
  }

  /** A compressed name gives back the name it was made from. */
  lemma NamerInjective(a: string, b: string)
    requires CustomNamer(a) == CustomNamer(b)
    ensures a == b
  {
    assert a == CustomNamer(a)[..|a|];
    assert b == CustomNamer(b)[..|b|];
  }
}
