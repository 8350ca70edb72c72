/** Proleptic Gregorian date-times at microsecond resolution, years 1 to
    9999: the timezone-aware UTC `datetime` values the job computes with.
    `Ordinal` numbers the days from 0001-01-01 (day 1) and `Micros` numbers
    the instants; they are the reference against which the field-wise
    operations below are proved. */
module Calendar {
  import opened Common

  const MinYear := 1
  const MaxYear := 9999

  datatype DateTime = DateTime(year: int, month: int, day: int,
                               hour: int, minute: int, second: int, microsecond: int)

  predicate IsLeap(y: int)
  {
    y % 4 == 0 && (y % 100 != 0 || y % 400 == 0)
  }

  function DaysInMonth(y: int, m: int): int
    requires 1 <= m <= 12
  {
    if m == 2 then (if IsLeap(y) then 29 else 28)
    else if m == 4 || m == 6 || m == 9 || m == 11 then 30
    else 31
  }

  function DaysInYear(y: int): int
  {
    if IsLeap(y) then 366 else 365
  }

  predicate ValidDate(y: int, m: int, d: int)
  {
    MinYear <= y <= MaxYear && 1 <= m <= 12 && 1 <= d <= DaysInMonth(y, m)
  }

  predicate Valid(t: DateTime)
  {
    && ValidDate(t.year, t.month, t.day)
    && 0 <= t.hour < 24 && 0 <= t.minute < 60 && 0 <= t.second < 60
    && 0 <= t.microsecond < 1000000
  }

  predicate IsLeapDay(t: DateTime)
  {
    t.month == 2 && t.day == 29
  }

  /** Same time of day, field by field. */
  predicate SameTime(a: DateTime, b: DateTime)
  {
    a.hour == b.hour && a.minute == b.minute && a.second == b.second && a.microsecond == b.microsecond
  }

  /** The strict order the source's `<` gives two UTC date-times, read off the
      fields from the year down to the microsecond. */
  predicate Before(a: DateTime, b: DateTime)
    ensures Before(a, b) ==> a != b && a.year <= b.year
    ensures a.year < b.year ==> Before(a, b)
  {
    if a.year != b.year then a.year < b.year
    else if a.month != b.month then a.month < b.month
    else if a.day != b.day then a.day < b.day
    else if a.hour != b.hour then a.hour < b.hour
    else if a.minute != b.minute then a.minute < b.minute
    else if a.second != b.second then a.second < b.second
    else a.microsecond < b.microsecond
  }

  function DaysBeforeYear(y: int): int
    requires y >= 1
  {
    var p := y - 1;
    365 * p + p / 4 - p / 100 + p / 400
  }

  function DaysBeforeMonth(y: int, m: int): int
    requires 1 <= m <= 12
  {
    (if m == 1 then 0 else if m == 2 then 31 else if m == 3 then 59
     else if m == 4 then 90 else if m == 5 then 120 else if m == 6 then 151
     else if m == 7 then 181 else if m == 8 then 212 else if m == 9 then 243
     else if m == 10 then 273 else if m == 11 then 304 else 334)
    + (if m > 2 && IsLeap(y) then 1 else 0)
  }

  /** Day number of the date part, 0001-01-01 being day 1. */
  function Ordinal(t: DateTime): int
    requires Valid(t)
  {
    DaysBeforeYear(t.year) + DaysBeforeMonth(t.year, t.month) + t.day
  }

  /** Microseconds since 0001-01-01T00:00:00 (plus one day). */
  function Micros(t: DateTime): int
    requires Valid(t)
  {
    (((Ordinal(t) * 24 + t.hour) * 60 + t.minute) * 60 + t.second) * 1000000 + t.microsecond
  }

  /** Counting multiples of 4, 100 and 400 up to `y` instead of `y - 1`
      adds one for each that divides `y`. */
  lemma MultiplesStep(y: int)
    requires y >= 1
    ensures y / 4 == (y - 1) / 4 + (if y % 4 == 0 then 1 else 0)
    ensures y / 100 == (y - 1) / 100 + (if y % 100 == 0 then 1 else 0)
    ensures y / 400 == (y - 1) / 400 + (if y % 400 == 0 then 1 else 0)
    ensures y % 400 == 0 ==> y % 100 == 0
    ensures y % 100 == 0 ==> y % 4 == 0
  {
  }

  /** A year holds `DaysInYear` days. */
  lemma DaysBeforeNextYear(y: int)
    requires y >= 1
    ensures DaysBeforeYear(y + 1) == DaysBeforeYear(y) + DaysInYear(y)
  {
    MultiplesStep(y);
    var leapDays := (if y % 4 == 0 then 1 else 0) - (if y % 100 == 0 then 1 else 0) + (if y % 400 == 0 then 1 else 0);
    assert DaysBeforeYear(y + 1) == DaysBeforeYear(y) + 365 + leapDays;
  }

  lemma {:induction false} DaysBeforeYearMonotone(y1: int, y2: int)
    requires 1 <= y1 <= y2
    ensures DaysBeforeYear(y1) + 365 * (y2 - y1) <= DaysBeforeYear(y2)
    decreases y2 - y1
  {
    if y1 < y2 {
      DaysBeforeNextYear(y1);
      DaysBeforeYearMonotone(y1 + 1, y2);
    }
  }

  /** The day number of a valid date lies inside its own year. */
  lemma OrdinalInYear(t: DateTime)
    requires Valid(t)
    ensures DaysBeforeYear(t.year) < Ordinal(t) <= DaysBeforeYear(t.year + 1)
  {
    DaysBeforeNextYear(t.year);
  }

  lemma OrdinalPositive(t: DateTime)
    requires Valid(t)
    ensures Ordinal(t) >= 1
  {
    OrdinalInYear(t);
  }

  /** The year of a valid date is determined by its day number. */
  lemma {:induction false} YearOfOrdinal(t: DateTime, y: int)
    requires Valid(t) && y >= 1
    requires DaysBeforeYear(y) < Ordinal(t) <= DaysBeforeYear(y + 1)
    ensures t.year == y
  {
    OrdinalInYear(t);
    if t.year < y {
      DaysBeforeYearMonotone(t.year + 1, y);
    } else if t.year > y {
      DaysBeforeYearMonotone(y + 1, t.year);
    }
  }

  /** Day numbers follow the calendar order of the date parts. */
  lemma OrdinalMonotone(a: DateTime, b: DateTime)
    requires Valid(a) && Valid(b)
    requires a.year < b.year
          || (a.year == b.year && a.month < b.month)
          || (a.year == b.year && a.month == b.month && a.day < b.day)
    ensures Ordinal(a) < Ordinal(b)
  {
    OrdinalInYear(a);
    OrdinalInYear(b);
    if a.year < b.year {
      DaysBeforeYearMonotone(a.year + 1, b.year);
    }
  }

  /** `Before` is exactly "an earlier instant" for valid date-times, which is
      how the source's aware date-times compare. */
  lemma BeforeIffEarlier(a: DateTime, b: DateTime)
    requires Valid(a) && Valid(b)
    ensures Before(a, b) <==> Micros(a) < Micros(b)
    ensures a == b <==> Micros(a) == Micros(b)
  {
    if a.year != b.year || a.month != b.month || a.day != b.day {
      if a.year < b.year || (a.year == b.year && a.month < b.month)
         || (a.year == b.year && a.month == b.month && a.day < b.day) {
        OrdinalMonotone(a, b);
      } else {
        OrdinalMonotone(b, a);
      }
    }
  }

  /** The day before, same time of day; `None` before 0001-01-01. */
  function PrevDay(t: DateTime): (r: Option<DateTime>)
    requires Valid(t)
    ensures r.Some? ==> Valid(r.value) && SameTime(r.value, t)
  {
    if t.day > 1 then Some(t.(day := t.day - 1))
    else if t.month > 1 then Some(t.(month := t.month - 1, day := DaysInMonth(t.year, t.month - 1)))
    else if t.year > MinYear then Some(t.(year := t.year - 1, month := 12, day := 31))
    else None
  }

  /** `PrevDay` steps the day number back by one, and fails only on day 1. */
  lemma PrevDayIsDayBefore(t: DateTime)
    requires Valid(t)
    ensures PrevDay(t).None? <==> Ordinal(t) == 1
    ensures PrevDay(t).Some? ==> Ordinal(PrevDay(t).value) == Ordinal(t) - 1
  {
    OrdinalInYear(t);
    if t.day == 1 && t.month > 1 {
      DaysBeforeMonthStep(t.year, t.month);
    } else if t.day == 1 && t.year > MinYear {
      DaysBeforeNextYear(t.year - 1);
    }
  }

  /** Each month starts where the previous one ends. */
  lemma DaysBeforeMonthStep(y: int, m: int)
    requires 2 <= m <= 12
    ensures DaysBeforeMonth(y, m) == DaysBeforeMonth(y, m - 1) + DaysInMonth(y, m - 1)
  {
  }

  /** `t - timedelta(days=n)`: `None` is the OverflowError raised when the
      result would fall before 0001-01-01. */
  function SubtractDays(t: DateTime, n: nat): (r: Option<DateTime>)
    requires Valid(t)
    ensures r.Some? ==> Valid(r.value) && SameTime(r.value, t)
    decreases n
  {
    if n == 0 then Some(t)
    else match PrevDay(t)
      case None => None
      case Some(u) => SubtractDays(u, n - 1)
  }

  /** Subtracting `n` days moves the day number back by exactly `n`, and
      fails exactly when that would leave day 1 behind, as Python's
      ordinal-based `datetime - timedelta` does. */
  lemma {:induction false} SubtractDaysIsOrdinalShift(t: DateTime, n: nat)
    requires Valid(t)
    ensures SubtractDays(t, n).Some? <==> Ordinal(t) > n
    ensures SubtractDays(t, n).Some? ==> Ordinal(SubtractDays(t, n).value) == Ordinal(t) - n
    decreases n
  {
    OrdinalPositive(t);
    if n > 0 {
      PrevDayIsDayBefore(t);
      if PrevDay(t).Some? {
        SubtractDaysIsOrdinalShift(PrevDay(t).value, n - 1);
      }
    }
  }

  /** `t.replace(year=y)`: `None` is the ValueError raised when the target
      year is out of range or lacks the day. For a valid date the only day
      some year lacks is 29 February. */
  function ReplaceYear(t: DateTime, y: int): (r: Option<DateTime>)
    requires Valid(t)
    ensures r.Some? <==> MinYear <= y <= MaxYear && !(IsLeapDay(t) && !IsLeap(y))
    ensures r.Some? ==> Valid(r.value) && r.value == t.(year := y)
  {
    if MinYear <= y <= MaxYear && t.day <= DaysInMonth(y, t.month) then Some(t.(year := y))
    else None
  }
}
