/** Calendar dates of the proleptic Gregorian calendar, years 1..9999, as
    Python's `datetime.date` represents them: day numbers ("ordinals", with
    0001-01-01 as day 1), weekdays with Monday = 0, adding days, comparing
    dates and replacing the year. */
module Calendar {
  import opened Wrappers

  const MinYear := 1
  const MaxYear := 9999

  /** The day number of 9999-12-31, the last date `datetime.date` holds. */
  const MaxOrdinal := 3652059

  datatype Date = Date(year: int, month: int, day: int)

  /** Leap years: divisible by 4, except centuries not divisible by 400. */
  predicate IsLeap(y: int) {
    y % 4 == 0 && (y % 100 != 0 || y % 400 == 0)
  }

  function DaysInYear(y: int): int {
    if IsLeap(y) then 366 else 365
  }

  function DaysInMonth(y: int, m: int): (n: int)
    requires 1 <= m <= 12
    ensures 28 <= n <= 31
    ensures n == 29 <==> m == 2 && IsLeap(y)
  {
    if m == 2 then (if IsLeap(y) then 29 else 28)
    else if m == 4 || m == 6 || m == 9 || m == 11 then 30
    else 31
  }

  /** A date that exists in the calendar and in `datetime`'s year range. */
  predicate IsValid(d: Date) {
    && MinYear <= d.year <= MaxYear
    && 1 <= d.month <= 12
    && 1 <= d.day <= DaysInMonth(d.year, d.month)
  }

  const FirstDate := Date(MinYear, 1, 1)
  const LastDate := Date(MaxYear, 12, 31)

  /** Days in the years before year `y`. */
  function DaysBeforeYear(y: int): int
    requires y >= 1
  {
    var p := y - 1;
    p * 365 + p / 4 - p / 100 + p / 400
  }

  /** Days in the months of year `y` before month `m`. */
  function DaysBeforeMonth(y: int, m: int): int
    requires 1 <= m <= 12
  {
    [0, 31, 59, 90, 120, 151, 181, 212, 243, 273, 304, 334][m - 1]
      + (if m > 2 && IsLeap(y) then 1 else 0)
  }

  /** The day number of `d`, counting 0001-01-01 as day 1 (`date.toordinal`). */
  function Ordinal(d: Date): int
    requires IsValid(d)
  {
    DaysBeforeYear(d.year) + DaysBeforeMonth(d.year, d.month) + d.day
  }

  /** The day of the week of `d`, Monday = 0 .. Sunday = 6 (`date.weekday`). */
  function Weekday(d: Date): (w: int)
    requires IsValid(d)
    ensures 0 <= w <= 6
  {
    WeekdayOf(Ordinal(d))
  }

  /** The weekday of day number `n`; day 1 was a Monday. */
  function WeekdayOf(n: int): int {
    (n + 6) % 7
  }

  /** Chronological order of dates, which Python compares as
      `(year, month, day)` tuples. */
  predicate Less(a: Date, b: Date) {
    || a.year < b.year
    || (a.year == b.year && a.month < b.month)
    || (a.year == b.year && a.month == b.month && a.day < b.day)
  }

  predicate LessEq(a: Date, b: Date) {
    Less(a, b) || a == b
  }

  /** Going from `y - 1` to `y` adds one multiple of `k` exactly when `k`
      divides `y`. */
  lemma DivStep(y: int, k: int)
    requires k == 4 || k == 100 || k == 400
    ensures y / k == (y - 1) / k + (if y % k == 0 then 1 else 0)
  {
    if k == 4 {
      assert y / 4 == (y - 1) / 4 + (if y % 4 == 0 then 1 else 0);
    } else if k == 100 {
      assert y / 100 == (y - 1) / 100 + (if y % 100 == 0 then 1 else 0);
    } else {
      assert y / 400 == (y - 1) / 400 + (if y % 400 == 0 then 1 else 0);
    }
  }

  lemma DaysBeforeYearStep(y: int)
    requires y >= 1
    ensures DaysBeforeYear(y + 1) == DaysBeforeYear(y) + DaysInYear(y)
  {
    DivStep(y, 4);
    DivStep(y, 100);
    DivStep(y, 400);
    DivisorsOfCenturies(y);
    var p := y - 1;
    assert DaysBeforeYear(y + 1) - DaysBeforeYear(y)
           == 365 + (y / 4 - p / 4) - (y / 100 - p / 100) + (y / 400 - p / 400);
  }

  /** A multiple of 400 is a multiple of 100, and a multiple of 100 is a
      multiple of 4. */
  lemma DivisorsOfCenturies(y: int)
    ensures y % 400 == 0 ==> y % 100 == 0
    ensures y % 100 == 0 ==> y % 4 == 0
  {
    if y % 400 == 0 {
      var q := y / 400;
      assert y == 400 * q;
      assert y / 100 == 4 * q;
    }
    if y % 100 == 0 {
      var q := y / 100;
      assert y == 100 * q;
      assert y / 4 == 25 * q;
    }
  }

  lemma DaysBeforeMonthStep(y: int, m: int)
    requires 1 <= m < 12
    ensures DaysBeforeMonth(y, m + 1) == DaysBeforeMonth(y, m) + DaysInMonth(y, m)
  {
  }

  lemma DaysBeforeMonthLast(y: int)
    ensures DaysBeforeMonth(y, 12) + DaysInMonth(y, 12) == DaysInYear(y)
  {
  }

  /** Later years start later: all of year `a` lies before year `b`. */
  lemma {:induction false} DaysBeforeYearMonotone(a: int, b: int)
    requires 1 <= a < b
    ensures DaysBeforeYear(a) + DaysInYear(a) <= DaysBeforeYear(b)
    decreases b - a
  {
    DaysBeforeYearStep(a);
    if a + 1 < b {
      DaysBeforeYearMonotone(a + 1, b);
    }
  }

  /** All of month `a` lies before month `b` of the same year. */
  lemma {:induction false} DaysBeforeMonthMonotone(y: int, a: int, b: int)
    requires 1 <= a < b <= 12
    ensures DaysBeforeMonth(y, a) + DaysInMonth(y, a) <= DaysBeforeMonth(y, b)
    decreases b - a
  {
    DaysBeforeMonthStep(y, a);
    if a + 1 < b {
      DaysBeforeMonthMonotone(y, a + 1, b);
    }
  }

  /** A valid date's day number falls inside its own year. */
  lemma OrdinalWithinYear(d: Date)
    requires IsValid(d)
    ensures DaysBeforeYear(d.year) < Ordinal(d) <= DaysBeforeYear(d.year) + DaysInYear(d.year)
  {
    if d.month < 12 {
      DaysBeforeMonthMonotone(d.year, d.month, 12);
    }
    DaysBeforeMonthLast(d.year);
  }

  /** Chronological order is day-number order. */
  lemma OrdinalLess(a: Date, b: Date)
    requires IsValid(a) && IsValid(b) && Less(a, b)
    ensures Ordinal(a) < Ordinal(b)
  {
    OrdinalWithinYear(a);
    OrdinalWithinYear(b);
    if a.year < b.year {
      DaysBeforeYearMonotone(a.year, b.year);
    } else if a.month < b.month {
      DaysBeforeMonthMonotone(a.year, a.month, b.month);
    }
  }

  /** Comparing two valid dates is comparing their day numbers, so the
      day number identifies a valid date. */
  lemma OrdinalOrder(a: Date, b: Date)
    requires IsValid(a) && IsValid(b)
    ensures Less(a, b) <==> Ordinal(a) < Ordinal(b)
    ensures a == b <==> Ordinal(a) == Ordinal(b)
    ensures LessEq(a, b) <==> Ordinal(a) <= Ordinal(b)
  {
    if Less(a, b) {
      OrdinalLess(a, b);
    } else if Less(b, a) {
      OrdinalLess(b, a);
    }
  }

  /** The first date `datetime.date` holds is day 1. */
  lemma FirstOrdinal()
    ensures IsValid(FirstDate) && Ordinal(FirstDate) == 1
  {
  }

  /** The last date `datetime.date` holds is day `MaxOrdinal`. */
  lemma LastOrdinal()
    ensures IsValid(LastDate) && Ordinal(LastDate) == MaxOrdinal
  {
  }

  /** Every valid date has a day number in `1..MaxOrdinal`. */
  lemma OrdinalRange(d: Date)
    requires IsValid(d)
    ensures 1 <= Ordinal(d) <= MaxOrdinal
  {
    OrdinalWithinYear(d);
    if d.year > MinYear {
      DaysBeforeYearMonotone(MinYear, d.year);
    }
    if d.year < MaxYear {
      OrdinalBeforeLastYear(d);
    }
  }

  /** A date before year 9999 is more than a year away from the last date. */
  lemma OrdinalBeforeLastYear(d: Date)
    requires IsValid(d) && d.year < MaxYear
    ensures Ordinal(d) + 365 <= MaxOrdinal
  {
    OrdinalWithinYear(d);
    DaysBeforeYearStep(d.year);
    if d.year + 1 < MaxYear {
      DaysBeforeYearMonotone(d.year + 1, MaxYear);
    }
  }

  /** The day after `d`. */
  function NextDay(d: Date): (r: Date)
    requires IsValid(d) && d != LastDate
    ensures IsValid(r) && Ordinal(r) == Ordinal(d) + 1
  {
    if d.day < DaysInMonth(d.year, d.month) then
      Date(d.year, d.month, d.day + 1)
    else if d.month < 12 then
      DaysBeforeMonthStep(d.year, d.month);
      Date(d.year, d.month + 1, 1)
    else
      DaysBeforeYearStep(d.year);
      DaysBeforeMonthLast(d.year);
      Date(d.year + 1, 1, 1)
  }

  /** The date with day number `n` (`date.fromordinal`). */
  function FromOrdinal(n: int): (r: Date)
    requires 1 <= n <= MaxOrdinal
    ensures IsValid(r) && Ordinal(r) == n
  {
    if n == 1 then
      FirstOrdinal();
      FirstDate
    else
      var before := FromOrdinal(n - 1);
      assert before != LastDate by {
        LastOrdinal();
      }
      NextDay(before)
  }

  /** Day numbers and dates convert into each other without loss. */
  lemma FromOrdinalOrdinal(d: Date)
    requires IsValid(d)
    ensures 1 <= Ordinal(d) <= MaxOrdinal
    ensures FromOrdinal(Ordinal(d)) == d
  {
    OrdinalRange(d);
    OrdinalOrder(FromOrdinal(Ordinal(d)), d);
  }

  /** `d + timedelta(days=k)`: the date `k` days after `d`, computed as
      Python does, through the day number. */
  function AddDays(d: Date, k: nat): (r: Date)
    requires IsValid(d) && Ordinal(d) + k <= MaxOrdinal
    ensures IsValid(r) && Ordinal(r) == Ordinal(d) + k
  {
    OrdinalRange(d);
    FromOrdinal(Ordinal(d) + k)
  }

  /** Moving `k` days ahead moves the weekday `k` steps around the week. */
  lemma WeekdayAfter(d: Date, r: Date, k: int)
    requires IsValid(d) && IsValid(r) && Ordinal(r) == Ordinal(d) + k
    ensures Weekday(r) == (Weekday(d) + k) % 7
  {
    var n := Ordinal(d);
    assert Weekday(r) == WeekdayOf(n + k);
    assert Weekday(d) == WeekdayOf(n);
    WeekdayOfShift(n, k);
  }

  lemma WeekdayOfShift(n: int, k: int)
    ensures WeekdayOf(n + k) == (WeekdayOf(n) + k) % 7
  {
    var q := (n + 6) / 7;
    assert n + k + 6 == 7 * q + (WeekdayOf(n) + k);
  }

  /** Consecutive years are never both leap years. */
  lemma {:induction false} LeapYearsApart(y: int)
    requires IsLeap(y)
    ensures !IsLeap(y + 1)
  {
    assert y % 4 == 0;
    assert (y + 1) % 4 == 1;
  }

  /** `d.replace(year=y)`: the same month and day in year `y`, or the
      `ValueError` `date` raises when that date does not exist. */
  function ReplaceYear(d: Date, y: int): (r: Result<Date, ValueError>)
    requires IsValid(d)
    ensures r.Success? <==> MinYear <= y <= MaxYear && d.day <= DaysInMonth(y, d.month)
    ensures r.Success? ==> IsValid(r.value) && r.value == Date(y, d.month, d.day)
    ensures r.Failure? && MinYear <= y <= MaxYear ==>
              r.error == DayOutOfRange && d.month == 2 && d.day == 29 && !IsLeap(y)
  {
    if y < MinYear || y > MaxYear then Failure(YearOutOfRange)
    else if d.day > DaysInMonth(y, d.month) then Failure(DayOutOfRange)
    else Success(Date(y, d.month, d.day))
  }
}
