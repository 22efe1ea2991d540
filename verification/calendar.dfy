/**
 * Proleptic Gregorian calendar dates as used by Python's `datetime`:
 * validity (years 1..9999), the day ordinal of `date.toordinal()`,
 * chronological comparison and the weekday (Monday = 0).
 */
module Calendar {

  datatype Date = Date(year: int, month: int, day: int)

  const MinYear: int := 1
  const MaxYear: int := 9999

  predicate IsLeapYear(y: int) {
    y % 4 == 0 && (y % 100 != 0 || y % 400 == 0)
  }

  function DaysInYear(y: int): int {
    if IsLeapYear(y) then 366 else 365
  }

  function DaysInMonth(y: int, m: int): int
    requires 1 <= m <= 12
  {
    if m == 2 then (if IsLeapYear(y) then 29 else 28)
    else if m == 4 || m == 6 || m == 9 || m == 11 then 30
    else 31
  }

  /** A date `datetime` accepts: its constructor raises for anything else. */
  predicate Valid(d: Date) {
    && MinYear <= d.year <= MaxYear
    && 1 <= d.month <= 12
    && 1 <= d.day <= DaysInMonth(d.year, d.month)
  }

  /** Days in all years before `y`, counting from 1 January of year 1. */
  function DaysBeforeYear(y: int): int
    requires y >= 1
  {
    var p := y - 1;
    p * 365 + p / 4 - p / 100 + p / 400
  }

  /** Days in the months of year `y` before month `m` (the table plus the leap day). */
  function DaysBeforeMonth(y: int, m: int): int
    requires 1 <= m <= 12
  {
    [0, 31, 59, 90, 120, 151, 181, 212, 243, 273, 304, 334][m - 1]
      + (if m > 2 && IsLeapYear(y) then 1 else 0)
  }

  /** `date.toordinal()`: 1 January of year 1 is day 1. */
  function Ordinal(d: Date): int
    requires Valid(d)
  {
    DaysBeforeYear(d.year) + DaysBeforeMonth(d.year, d.month) + d.day
  }

  /** `date.weekday()`: Monday is 0 and Sunday is 6. */
  function Weekday(d: Date): (r: int)
    requires Valid(d)
    ensures 0 <= r < 7
  {
    (Ordinal(d) + 6) % 7
  }

  const DayNames: seq<string> :=
    ["Monday", "Tuesday", "Wednesday", "Thursday", "Friday", "Saturday", "Sunday"]

  /**
   * `strftime("%A")` with the English day names. The seven names differ, so
   * the name tells the weekday, and the weekend is Saturday and Sunday.
   */
  function WeekdayName(d: Date): (r: string)
    requires Valid(d)
    ensures forall k :: 0 <= k < 7 ==> (r == DayNames[k] <==> Weekday(d) == k)
    ensures Weekday(d) >= 5 <==> r == "Saturday" || r == "Sunday"
  {
    DayNames[Weekday(d)]
  }

  /** Chronological order as `datetime` compares midnight values. */
  predicate Before(a: Date, b: Date) {
    || a.year < b.year
    || (a.year == b.year && a.month < b.month)
    || (a.year == b.year && a.month == b.month && a.day < b.day)
  }

  lemma DaysBeforeYearStep(y: int)
    requires y >= 1
    ensures DaysBeforeYear(y + 1) == DaysBeforeYear(y) + DaysInYear(y)
  {
    var p := y - 1;
    assert (p + 1) / 4 - p / 4 == (if (p + 1) % 4 == 0 then 1 else 0);
    assert (p + 1) / 100 - p / 100 == (if (p + 1) % 100 == 0 then 1 else 0);
    assert (p + 1) / 400 - p / 400 == (if (p + 1) % 400 == 0 then 1 else 0);
  }

  /** Every year after `y` starts no earlier than the day after `y` ends. */
  lemma {:induction false} DaysBeforeYearMonotone(y: int, z: int)
    requires 1 <= y < z
    ensures DaysBeforeYear(y) + DaysInYear(y) <= DaysBeforeYear(z)
    decreases z - y
  {
    DaysBeforeYearStep(y);
    if y + 1 < z {
      DaysBeforeYearMonotone(y + 1, z);
    }
  }

  /** Day-of-year and day-of-month bounds of a valid date. */
  lemma DayOfYearBounds(d: Date)
    requires Valid(d)
    ensures DaysBeforeMonth(d.year, d.month) + d.day <= DaysInYear(d.year)
    ensures d.month < 12 ==>
      DaysBeforeMonth(d.year, d.month) + d.day <= DaysBeforeMonth(d.year, d.month + 1)
  {
  }

  lemma MonthOrderStrict(y: int, m: int, n: int)
    requires 1 <= m < n <= 12
    ensures DaysBeforeMonth(y, m + 1) <= DaysBeforeMonth(y, n)
  {
  }

  /** Ordinals respect chronological order, as `datetime` comparison does. */
  lemma BeforeOrdinal(a: Date, b: Date)
    requires Valid(a) && Valid(b)
    requires Before(a, b)
    ensures Ordinal(a) < Ordinal(b)
  {
    DayOfYearBounds(a);
    if a.year < b.year {
      DaysBeforeYearMonotone(a.year, b.year);
    } else if a.month < b.month {
      MonthOrderStrict(a.year, a.month, b.month);
    }
  }

  /** Two valid dates compare by ordinal exactly as they compare on the calendar. */
  lemma OrdinalOrder(a: Date, b: Date)
    requires Valid(a) && Valid(b)
    ensures Ordinal(a) < Ordinal(b) <==> Before(a, b)
    ensures Ordinal(a) == Ordinal(b) <==> a == b
  {
    if Before(a, b) {
      BeforeOrdinal(a, b);
    } else if Before(b, a) {
      BeforeOrdinal(b, a);
    } else {
      assert a == b;
    }
  }

  /** The date `k` days after `d` when that stays inside d's month. */
  lemma SameMonthOffset(d: Date, k: int)
    requires Valid(d) && 0 <= k && d.day + k <= DaysInMonth(d.year, d.month)
    ensures Valid(Date(d.year, d.month, d.day + k))
    ensures Ordinal(Date(d.year, d.month, d.day + k)) == Ordinal(d) + k
    ensures Weekday(Date(d.year, d.month, d.day + k)) == (Weekday(d) + k) % 7
  {
    var n := Ordinal(d) + 6;
    var q := n / 7;
    assert n == 7 * q + n % 7;
    assert n + k == 7 * q + (n % 7 + k);
    ShiftMod7(q, n % 7 + k);
  }

  lemma ShiftMod7(q: int, r: int)
    requires r >= 0
    ensures (7 * q + r) % 7 == r % 7
  {
  }
}
