/**
 * The workday calendar of gen_fcast.py: dates as Python's `datetime` holds
 * them, the day-after step `timedelta(days=1)`, `weekday()`, the
 * `next_workday` loop and the two period-closing flags derived from it.
 */
module Calendar {

  /** A proleptic Gregorian calendar date (the date part of a `datetime`). */
  datatype Date = Date(year: int, month: int, day: int)

  predicate IsLeapYear(y: int) {
    y % 4 == 0 && (y % 100 != 0 || y % 400 == 0)
  }

  function DaysInYear(y: int): int {
    if IsLeapYear(y) then 366 else 365
  }

  function DaysInMonth(y: int, m: int): (n: int)
    ensures 28 <= n <= 31
    ensures n == 29 <==> m == 2 && IsLeapYear(y)
  {
    if m == 2 then (if IsLeapYear(y) then 29 else 28)
    else if m == 4 || m == 6 || m == 9 || m == 11 then 30
    else 31
  }

  /** A date Python can represent: year from 1 on, a real month and day. */
  predicate Valid(d: Date) {
    1 <= d.year && 1 <= d.month <= 12 && 1 <= d.day <= DaysInMonth(d.year, d.month)
  }

  /** Days in the years before `y`: the sum of the lengths of years 1 to y - 1. */
  function DaysBeforeYear(y: int): int
    requires 1 <= y
  {
    if y == 1 then 0 else DaysBeforeYear(y - 1) + DaysInYear(y - 1)
  }

  /** Days in the months of year `y` before month `m`, from CPython's table. */
  function DaysBeforeMonth(y: int, m: int): int
    requires 1 <= m <= 12
  {
    var table := [0, 31, 59, 90, 120, 151, 181, 212, 243, 273, 304, 334];
    table[m - 1] + (if m > 2 && IsLeapYear(y) then 1 else 0)
  }

  /** `date.toordinal()`: 0001-01-01 is day 1. */
  function Ordinal(d: Date): int
    requires Valid(d)
  {
    DaysBeforeYear(d.year) + DaysBeforeMonth(d.year, d.month) + d.day
  }

  /** `date.weekday()`: Monday is 0 and Sunday is 6. */
  function Weekday(d: Date): (w: int)
    requires Valid(d)
    ensures 0 <= w < 7
  {
    (Ordinal(d) + 6) % 7
  }

  predicate IsWeekend(d: Date)
    requires Valid(d)
  {
    Weekday(d) >= 5
  }

  lemma DivStep(p: int)
    requires 0 <= p
    ensures (p + 1) / 4 == p / 4 + (if (p + 1) % 4 == 0 then 1 else 0)
    ensures (p + 1) / 100 == p / 100 + (if (p + 1) % 100 == 0 then 1 else 0)
    ensures (p + 1) / 400 == p / 400 + (if (p + 1) % 400 == 0 then 1 else 0)
  {
  }

  lemma ModStep(a: int, k: nat)
    ensures (a + k) % 7 == (a % 7 + k) % 7
  {
  }

  /** CPython's `_days_before_year` for `p` = year - 1. */
  function ClosedForm(p: int): int {
    p * 365 + p / 4 - p / 100 + p / 400
  }

  lemma Divisibility(y: int)
    ensures y % 100 == 0 ==> y % 4 == 0
    ensures y % 400 == 0 ==> y % 100 == 0
  {
  }

  /** The closed form grows by one year's length from year p to year p + 1. */
  lemma ClosedFormStep(p: int)
    requires 0 <= p
    ensures ClosedForm(p + 1) == ClosedForm(p) + DaysInYear(p + 1)
  {
    DivStep(p);
    Divisibility(p + 1);
  }

  /**
   * The year count agrees with the closed form CPython's `_days_before_year`
   * evaluates, `p * 365 + p // 4 - p // 100 + p // 400` with `p = y - 1`.
   */
  lemma {:induction false} DaysBeforeYearClosedForm(y: int)
    requires 1 <= y
    ensures DaysBeforeYear(y) == ClosedForm(y - 1)
  {
    if y > 1 {
      DaysBeforeYearClosedForm(y - 1);
      ClosedFormStep(y - 2);
    }
  }

  /** The table rows differ by the month lengths, and December ends the year. */
  lemma DaysBeforeNextMonth(y: int, m: int)
    requires 1 <= m <= 12
    ensures m < 12 ==> DaysBeforeMonth(y, m + 1) == DaysBeforeMonth(y, m) + DaysInMonth(y, m)
    ensures m == 12 ==> DaysBeforeMonth(y, m) + DaysInMonth(y, m) == DaysInYear(y)
  {
  }

  /** `d + timedelta(days=1)`. */
  function NextDay(d: Date): (r: Date)
    requires Valid(d)
    ensures Valid(r)
    ensures Ordinal(r) == Ordinal(d) + 1
  {
    DaysBeforeNextMonth(d.year, d.month);
    if d.day < DaysInMonth(d.year, d.month) then Date(d.year, d.month, d.day + 1)
    else if d.month < 12 then Date(d.year, d.month + 1, 1)
    else Date(d.year + 1, 1, 1)
  }

  /** `d + timedelta(days=k)`. */
  function AddDays(d: Date, k: nat): (r: Date)
    requires Valid(d)
    ensures Valid(r)
    ensures Ordinal(r) == Ordinal(d) + k
  {
    if k == 0 then d else NextDay(AddDays(d, k - 1))
  }

  lemma WeekdayAfter(d: Date, k: nat)
    requires Valid(d)
    ensures Weekday(AddDays(d, k)) == (Weekday(d) + k) % 7
  {
    ModStep(Ordinal(d) + 6, k);
  }

  /**
   * How many days `next_workday` moves forward from a date whose weekday is
   * `w`: three from a Friday, two from a Saturday, one otherwise.
   */
  function WorkdayGap(w: int): nat
  {
    if w == 4 then 3 else if w == 5 then 2 else 1
  }

  /** Reference definition of the next Monday-to-Friday date. */
  function NextWorkday(d: Date): Date
    requires Valid(d)
  {
    AddDays(d, WorkdayGap(Weekday(d)))
  }

  /** The weekday arithmetic behind the gap table, on weekday numbers alone. */
  lemma GapWeekdays(w: int)
    requires 0 <= w < 7
    ensures (w + WorkdayGap(w)) % 7 < 5
    ensures (w + WorkdayGap(w)) % 7 == 0 <==> w >= 4
    ensures WorkdayGap(w) > 1 ==> (w + 1) % 7 >= 5
    ensures WorkdayGap(w) > 2 ==> (w + 2) % 7 >= 5
  {
  }

  /**
   * The next workday is strictly later, falls on Monday to Friday, and every
   * date strictly between is a Saturday or a Sunday: it is the first workday
   * after `d`.
   */
  lemma NextWorkdayIsFirst(d: Date)
    requires Valid(d)
    ensures Valid(NextWorkday(d))
    ensures Ordinal(d) < Ordinal(NextWorkday(d)) <= Ordinal(d) + 3
    ensures Weekday(NextWorkday(d)) < 5
    ensures forall k: nat :: 0 < k < WorkdayGap(Weekday(d)) ==> IsWeekend(AddDays(d, k))
  {
    var w := Weekday(d);
    var g := WorkdayGap(w);
    GapWeekdays(w);
    WeekdayAfter(d, g);
    if g > 1 {
      WeekdayAfter(d, 1);
    }
    if g > 2 {
      WeekdayAfter(d, 2);
    }
  }

  /**
   * `next_workday` as gen_fcast.py writes it: step one day, then keep
   * stepping while the date is a Saturday or a Sunday.
   */
  method NextWorkdayLoop(date: Date) returns (next: Date)
    requires Valid(date)
    ensures Valid(next)
    ensures next == NextWorkday(date)
  {
    ghost var gap := WorkdayGap(Weekday(date));
    next := NextDay(date);
    ghost var k: nat := 1;
    NextWorkdayIsFirst(date);
    while Weekday(next) >= 5
      invariant 1 <= k <= gap
      invariant next == AddDays(date, k)
      decreases gap - k
    {
      WeekdayAfter(date, k);
      next := NextDay(next);
      k := k + 1;
    }
    WeekdayAfter(date, k);
  }

  /** `LAST_DAY_OF_WEEK`: the next workday is a Monday. */
  predicate LastDayOfWeek(today: Date)
    requires Valid(today)
  {
    Weekday(NextWorkday(today)) == 0
  }

  /** `LAST_DAY_OF_MONTH`: the next workday's month is this month plus one. */
  predicate LastDayOfMonth(today: Date)
    requires Valid(today)
  {
    NextWorkday(today).month == today.month + 1
  }

  /** The week flag holds exactly on Fridays, Saturdays and Sundays. */
  lemma LastDayOfWeekIff(today: Date)
    requires Valid(today)
    ensures LastDayOfWeek(today) <==> Weekday(today) >= 4
  {
    GapWeekdays(Weekday(today));
    WeekdayAfter(today, WorkdayGap(Weekday(today)));
  }

  /**
   * Up to 28 days after `d` lies either later in the same month or in the
   * month that follows it.
   */
  lemma {:induction false} AddDaysShape(d: Date, k: nat)
    requires Valid(d) && k <= 28
    ensures var dim := DaysInMonth(d.year, d.month);
            AddDays(d, k) ==
              if d.day + k <= dim then Date(d.year, d.month, d.day + k)
              else if d.month < 12 then Date(d.year, d.month + 1, d.day + k - dim)
              else Date(d.year + 1, 1, d.day + k - dim)
  {
    if k > 0 {
      AddDaysShape(d, k - 1);
    }
  }

  /**
   * The month flag holds exactly when the next workday falls in another month
   * and that month is not January: from a December date it never holds.
   */
  lemma LastDayOfMonthIff(today: Date)
    requires Valid(today)
    ensures LastDayOfMonth(today) <==> today.month < 12 && NextWorkday(today).month != today.month
    ensures NextWorkday(today).month != today.month <==>
              today.day + WorkdayGap(Weekday(today)) > DaysInMonth(today.year, today.month)
  {
    AddDaysShape(today, WorkdayGap(Weekday(today)));
  }

  /**
   * 2026-12-31 is a Thursday whose next workday, 2027-01-01, opens a new
   * month; the flag is still false, because 1 is not 12 + 1.
   */
  lemma DecemberExample()
    ensures Valid(Date(2026, 12, 31)) && Weekday(Date(2026, 12, 31)) == 3
    ensures NextWorkday(Date(2026, 12, 31)) == Date(2027, 1, 1)
    ensures !LastDayOfMonth(Date(2026, 12, 31))
  {
    var d := Date(2026, 12, 31);
    DaysBeforeYearClosedForm(2026);
    assert Ordinal(d) == 739981;
    assert Weekday(d) == 3;
    assert NextWorkday(d) == NextDay(d);
  }
}
