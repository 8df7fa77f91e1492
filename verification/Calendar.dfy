/**
 * The proleptic Gregorian calendar by day number, as the Date getters that
 * src/cron/cron-scheduler.ts relies on give it at a fixed offset. Day 0 is
 * Monday, 1 January of year 1.
 */
module Calendar {

  predicate IsLeap(y: int) {
    y % 4 == 0 && (y % 100 != 0 || y % 400 == 0)
  }

  function YearLength(y: int): int {
    if IsLeap(y) then 366 else 365
  }

  /** The number of the first day of year `y`; division rounds down, also before year 1. */
  function NewYear(y: int): int {
    365 * (y - 1) + (y - 1) / 4 - (y - 1) / 100 + (y - 1) / 400
  }

  /** One more year is one more multiple of `n` exactly when it is divisible by `n`. */
  lemma MultiplesUpTo(y: int, n: int)
    requires n > 0
    ensures y / n == (y - 1) / n + (if y % n == 0 then 1 else 0)
  {
    var q, r := y / n, y % n;
    assert y == q * n + r;
    if r == 0 {
      DivisionIs(y - 1, n, q - 1, n - 1);
    } else {
      DivisionIs(y - 1, n, q, r - 1);
    }
  }

  lemma DivisionIs(x: int, n: int, q: int, r: int)
    requires 0 <= r < n && x == q * n + r
    ensures x / n == q && x % n == r
  {
    var k := x / n - q;
    assert x == (x / n) * n + x % n;
    assert k * n == r - x % n by {
      assert (x / n) * n - q * n == k * n;
    }
    MultipleSize(k, n);
  }

  lemma MultipleSize(k: int, n: int)
    requires n > 0
    ensures k >= 1 ==> k * n >= n
    ensures k <= -1 ==> k * n <= -n
  {
    if k >= 1 { assert (k - 1) * n >= 0; }
    if k <= -1 { assert (-k - 1) * n >= 0; }
  }

  lemma NewYearStep(y: int)
    ensures NewYear(y + 1) == NewYear(y) + YearLength(y)
  {
    MultiplesUpTo(y, 4);
    MultiplesUpTo(y, 100);
    MultiplesUpTo(y, 400);
    Divisibility(y);
  }

  lemma Divisibility(y: int)
    ensures y % 400 == 0 ==> y % 100 == 0
    ensures y % 100 == 0 ==> y % 4 == 0
  {
  }

  lemma {:induction false} NewYearsApart(y: int, z: int)
    requires y <= z
    ensures 365 * (z - y) <= NewYear(z) - NewYear(y) <= 366 * (z - y)
    decreases z - y
  {
    if y < z {
      NewYearsApart(y, z - 1);
      NewYearStep(z - 1);
    }
  }

  predicate InYear(d: int, y: int) {
    NewYear(y) <= d < NewYear(y + 1)
  }

  lemma OneYearOnly(d: int, y: int, z: int)
    requires InYear(d, y) && InYear(d, z)
    ensures y == z
  {
    if y < z { NewYearsApart(y + 1, z); } else if z < y { NewYearsApart(z + 1, y); }
  }

  /** getFullYear, found by stepping from a year that is surely not later. */
  function YearOf(d: int): (y: int)
    ensures InYear(d, y)
  {
    var guess := if d >= 0 then d / 366 + 1 else d / 365;
    assert NewYear(guess) <= d by { GuessIsEarly(d); }
    YearFrom(d, guess)
  }

  lemma GuessIsEarly(d: int)
    ensures NewYear(if d >= 0 then d / 366 + 1 else d / 365) <= d
  {
    if d >= 0 {
      NewYearsApart(1, d / 366 + 1);
    } else {
      NewYearsApart(d / 365, 1);
      assert 365 * (d / 365) <= d;
    }
  }

  function YearFrom(d: int, y: int): (r: int)
    requires NewYear(y) <= d
    ensures InYear(d, r)
    decreases d - NewYear(y)
  {
    NewYearStep(y);
    if d < NewYear(y + 1) then y else YearFrom(d, y + 1)
  }

  /** Days before the first of month `m` in a year; month 13 is the next year. */
  function DaysBefore(leap: bool, m: int): int
    requires 1 <= m <= 13
  {
    var extra := if leap then 1 else 0;
    if m == 1 then 0 else if m == 2 then 31 else if m == 3 then 59 + extra
    else if m == 4 then 90 + extra else if m == 5 then 120 + extra else if m == 6 then 151 + extra
    else if m == 7 then 181 + extra else if m == 8 then 212 + extra else if m == 9 then 243 + extra
    else if m == 10 then 273 + extra else if m == 11 then 304 + extra else if m == 12 then 334 + extra
    else 365 + extra
  }

  function MonthLength(leap: bool, m: int): (n: int)
    requires 1 <= m <= 12
    ensures 28 <= n <= 31
  {
    DaysBefore(leap, m + 1) - DaysBefore(leap, m)
  }

  lemma {:induction false} MonthsInOrder(leap: bool, a: int, b: int)
    requires 1 <= a <= b <= 13
    ensures DaysBefore(leap, a) <= DaysBefore(leap, b)
    decreases b - a
  {
    if a < b {
      MonthsInOrder(leap, a, b - 1);
      assert MonthLength(leap, b - 1) >= 28;
    }
  }

  /** The last month from `m` down that starts on or before day `n` of the year, counted from 0. */
  function MonthFrom(leap: bool, n: int, m: int): (r: int)
    requires 1 <= m <= 12 && 0 <= n < DaysBefore(leap, m + 1)
    ensures 1 <= r <= 12 && DaysBefore(leap, r) <= n < DaysBefore(leap, r + 1)
    decreases m
  {
    if DaysBefore(leap, m) <= n then m else MonthFrom(leap, n, m - 1)
  }

  function DayOfYear(d: int): (n: int)
    ensures 0 <= n < YearLength(YearOf(d))
  {
    NewYearStep(YearOf(d));
    d - NewYear(YearOf(d))
  }

  /** getMonth() + 1 */
  function MonthOf(d: int): (m: int)
    ensures 1 <= m <= 12
    ensures var leap := IsLeap(YearOf(d)); DaysBefore(leap, m) <= DayOfYear(d) < DaysBefore(leap, m + 1)
  {
    MonthFrom(IsLeap(YearOf(d)), DayOfYear(d), 12)
  }

  /** getDate() */
  function DayOf(d: int): (n: int)
    ensures 1 <= n <= MonthLength(IsLeap(YearOf(d)), MonthOf(d))
  {
    DayOfYear(d) - DaysBefore(IsLeap(YearOf(d)), MonthOf(d)) + 1
  }

  /** getDay(): 0 is Sunday. */
  function WeekdayOf(d: int): (w: int)
    ensures 0 <= w <= 6
  {
    (d + 1) % 7
  }

  /** The number of a date. */
  function DayNumber(y: int, m: int, n: int): int
    requires 1 <= m <= 12
  {
    NewYear(y) + DaysBefore(IsLeap(y), m) + n - 1
  }

  lemma OneMonthOnly(leap: bool, n: int, a: int, b: int)
    requires 1 <= a <= 12 && 1 <= b <= 12
    requires DaysBefore(leap, a) <= n < DaysBefore(leap, a + 1) && DaysBefore(leap, b) <= n < DaysBefore(leap, b + 1)
    ensures a == b
  {
    if a < b { MonthsInOrder(leap, a + 1, b); } else if b < a { MonthsInOrder(leap, b + 1, a); }
  }

  lemma DayWithinYear(leap: bool, m: int, n: int)
    requires 1 <= m <= 12 && 1 <= n <= MonthLength(leap, m)
    ensures 0 <= DaysBefore(leap, m) + n - 1 < DaysBefore(leap, 13)
  {
    MonthsInOrder(leap, 1, m);
    MonthsInOrder(leap, m + 1, 13);
  }

  lemma WithinItsYear(y: int, m: int, n: int)
    requires 1 <= m <= 12 && 1 <= n <= MonthLength(IsLeap(y), m)
    ensures InYear(DayNumber(y, m, n), y)
  {
    DayWithinYear(IsLeap(y), m, n);
    NewYearStep(y);
  }

  /** Every valid date has a day number, and the getters give the date back. */
  lemma DateOfDayNumber(y: int, m: int, n: int)
    requires 1 <= m <= 12 && 1 <= n <= MonthLength(IsLeap(y), m)
    ensures var d := DayNumber(y, m, n); YearOf(d) == y && MonthOf(d) == m && DayOf(d) == n
  {
    var d := DayNumber(y, m, n);
    WithinItsYear(y, m, n);
    OneYearOnly(d, YearOf(d), y);
    OneMonthOnly(IsLeap(y), DayOfYear(d), MonthOf(d), m);
  }

  /** And every day number is that of its date. */
  lemma DayNumberOfDate(d: int)
    ensures DayNumber(YearOf(d), MonthOf(d), DayOf(d)) == d
  {
  }

  predicate IsLeapDay(d: int) {
    MonthOf(d) == 2 && DayOf(d) == 29
  }

  // ---------------------------------------------------------------------
  // What any 366 consecutive days contain
  // ---------------------------------------------------------------------

  lemma YearLater(y: int, m: int, n: int)
    requires 1 <= m <= 12 && 1 <= n
    ensures DayNumber(y, m, n) < DayNumber(y + 1, m, n) <= DayNumber(y, m, n) + 366
  {
    NewYearStep(y);
    assert !(IsLeap(y) && IsLeap(y + 1));
  }

  lemma ShortestMonth(leap: bool, m: int)
    requires 1 <= m <= 12
    ensures MonthLength(false, m) <= MonthLength(leap, m)
  {
  }

  /** Every date but 29 February comes round. */
  lemma DateComesRound(first: int, m: int, n: int) returns (d: int)
    requires 1 <= m <= 12 && 1 <= n <= MonthLength(false, m)
    ensures first <= d <= first + 365 && MonthOf(d) == m && DayOf(d) == n
  {
    var y := YearOf(first);
    ShortestMonth(IsLeap(y), m);
    d := ThisYearOrNext(first, y, m, n);
  }

  lemma InEveryYear(y: int, m: int, n: int)
    requires 1 <= m <= 12 && 1 <= n <= MonthLength(false, m)
    ensures var d := DayNumber(y, m, n); NewYear(y) <= d < NewYear(y + 1) && MonthOf(d) == m && DayOf(d) == n
  {
    ShortestMonth(IsLeap(y), m);
    DateOfDayNumber(y, m, n);
    WithinItsYear(y, m, n);
  }

  lemma ThisYearOrNext(first: int, y: int, m: int, n: int) returns (d: int)
    requires InYear(first, y) && 1 <= m <= 12 && 1 <= n <= MonthLength(false, m)
    ensures first <= d <= first + 365 && MonthOf(d) == m && DayOf(d) == n
  {
    NewYearStep(y);
    InEveryYear(y, m, n);
    d := DayNumber(y, m, n);
    if d < first {
      InEveryYear(y + 1, m, n);
      YearLater(y, m, n);
      d := DayNumber(y + 1, m, n);
    }
  }

  lemma WeekdayInSeven(first: int, w: int) returns (d: int)
    requires 0 <= w <= 6
    ensures first <= d <= first + 6 && WeekdayOf(d) == w
  {
    var shift := (w - WeekdayOf(first)) % 7;
    d := first + shift;
    WeekdayAfter(first, shift, w);
  }

  lemma WeekdayAfter(first: int, shift: int, w: int)
    requires 0 <= w <= 6 && shift == (w - WeekdayOf(first)) % 7
    ensures WeekdayOf(first + shift) == w
  {
    var q := (w - WeekdayOf(first)) / 7;
    assert w - WeekdayOf(first) == 7 * q + shift;
    assert first + 1 == 7 * ((first + 1) / 7) + WeekdayOf(first);
    assert first + shift + 1 == 7 * ((first + 1) / 7 - q) + w;
  }

  /** Seven days in a row that lie within month `m` hold every weekday. */
  lemma WeekOfMonth(y: int, m: int, n: int, w: int) returns (d: int)
    requires 1 <= m <= 12 && 1 <= n <= MonthLength(IsLeap(y), m) - 6 && 0 <= w <= 6
    ensures DayNumber(y, m, n) <= d <= DayNumber(y, m, n) + 6
    ensures MonthOf(d) == m && WeekdayOf(d) == w
  {
    d := WeekdayInSeven(DayNumber(y, m, n), w);
    DateOfDayNumber(y, m, n + (d - DayNumber(y, m, n)));
  }

  /** Every weekday falls in every month, also when the span cuts that month in two. */
  lemma WeekdayComesRound(first: int, m: int, w: int) returns (d: int)
    requires 1 <= m <= 12 && 0 <= w <= 6
    ensures first <= d <= first + 365 && MonthOf(d) == m && WeekdayOf(d) == w
  {
    var y := YearOf(first);
    var length := MonthLength(IsLeap(y), m);
    NewYearStep(y);
    WithinItsYear(y, m, length);
    if first <= DayNumber(y, m, 1) {
      d := WeekOfMonth(y, m, 1, w);
    } else if first <= DayNumber(y, m, length - 6) {
      d := WeekOfMonth(y, m, length - 6, w);
    } else {
      YearLater(y, m, 1);
      WithinItsYear(y + 1, m, 1);
      d := WeekOfMonth(y + 1, m, 1, w);
    }
  }

  /** The 366 days from the start of an ordinary year before another hold no 29 February. */
  lemma YearWithoutLeapDay(y: int, d: int)
    requires !IsLeap(y) && !IsLeap(y + 1) && NewYear(y) <= d <= NewYear(y) + 365
    ensures !IsLeapDay(d)
  {
    NewYearStep(y);
    NewYearStep(y + 1);
    if d < NewYear(y + 1) { OneYearOnly(d, YearOf(d), y); } else { OneYearOnly(d, YearOf(d), y + 1); }
  }
}
