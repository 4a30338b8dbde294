/** The proleptic Gregorian calendar on day numbers: day 0 is 1 January of year 1, a Monday.
    `chrono` is not part of this model; this is the calendar its documentation promises. */
module Calendar {

  /** Day number of 1970-01-01, the origin of Unix time. */
  const UNIX_EPOCH_DAY := 719162

  datatype Date = Date(year: int, month: int, day: int)

  predicate IsLeap(y: int) {
    y % 4 == 0 && (y % 100 != 0 || y % 400 == 0)
  }

  function DaysBeforeYear(y: int): int {
    365 * (y - 1) + (y - 1) / 4 - (y - 1) / 100 + (y - 1) / 400
  }

  function MonthDays(leap: bool, m: int): (n: int)
    ensures 28 <= n <= 31
  {
    if m == 2 then (if leap then 29 else 28)
    else if m == 4 || m == 6 || m == 9 || m == 11 then 30
    else 31
  }

  function DaysBeforeMonth(leap: bool, m: int): (n: int)
    requires 1 <= m <= 13
    ensures n >= 0
  {
    if m == 1 then 0 else DaysBeforeMonth(leap, m - 1) + MonthDays(leap, m - 1)
  }

  lemma YearLength(y: int)
    ensures DaysBeforeYear(y + 1) - DaysBeforeYear(y) == DaysBeforeMonth(IsLeap(y), 13)
    ensures DaysBeforeMonth(IsLeap(y), 13) == if IsLeap(y) then 366 else 365
  {
    MonthTable(IsLeap(y));
    LeapDays(y);
    if y % 400 == 0 { Remainder(y, 100, 4 * (y / 400), 0); }
    if y % 100 == 0 { Remainder(y, 4, 25 * (y / 100), 0); }
  }

  lemma LeapDays(y: int)
    ensures y / 4 - (y - 1) / 4 == if y % 4 == 0 then 1 else 0
    ensures y / 100 - (y - 1) / 100 == if y % 100 == 0 then 1 else 0
    ensures y / 400 - (y - 1) / 400 == if y % 400 == 0 then 1 else 0
  {
    CountMultiples(y, 4);
    CountMultiples(y, 100);
    CountMultiples(y, 400);
  }

  lemma CountMultiples(y: int, k: int)
    requires k > 1
    ensures y / k - (y - 1) / k == if y % k == 0 then 1 else 0
  {
    if y % k == 0 {
      Remainder(y - 1, k, y / k - 1, k - 1);
    } else {
      Remainder(y - 1, k, y / k, y % k - 1);
    }
  }

  /** Euclidean division is unique. */
  lemma Remainder(y: int, k: int, q: int, r: int)
    requires k > 0 && 0 <= r < k && y == k * q + r
    ensures y / k == q && y % k == r
  {
    var e := y / k - q;
    assert k * e == r - y % k;
    assert -k < k * e < k;
  }

  lemma MonthTable(leap: bool)
    ensures DaysBeforeMonth(leap, 1) == 0 && DaysBeforeMonth(leap, 2) == 31
    ensures var x := if leap then 1 else 0;
            && DaysBeforeMonth(leap, 3) == 59 + x && DaysBeforeMonth(leap, 4) == 90 + x
            && DaysBeforeMonth(leap, 5) == 120 + x && DaysBeforeMonth(leap, 6) == 151 + x
            && DaysBeforeMonth(leap, 7) == 181 + x && DaysBeforeMonth(leap, 8) == 212 + x
            && DaysBeforeMonth(leap, 9) == 243 + x && DaysBeforeMonth(leap, 10) == 273 + x
            && DaysBeforeMonth(leap, 11) == 304 + x && DaysBeforeMonth(leap, 12) == 334 + x
            && DaysBeforeMonth(leap, 13) == 365 + x
  {
    assert DaysBeforeMonth(leap, 3) == DaysBeforeMonth(leap, 2) + MonthDays(leap, 2);
    assert DaysBeforeMonth(leap, 5) == DaysBeforeMonth(leap, 4) + MonthDays(leap, 4);
    assert DaysBeforeMonth(leap, 7) == DaysBeforeMonth(leap, 6) + MonthDays(leap, 6);
    assert DaysBeforeMonth(leap, 9) == DaysBeforeMonth(leap, 8) + MonthDays(leap, 8);
    assert DaysBeforeMonth(leap, 11) == DaysBeforeMonth(leap, 10) + MonthDays(leap, 10);
    assert DaysBeforeMonth(leap, 13) == DaysBeforeMonth(leap, 12) + MonthDays(leap, 12);
  }

  lemma YearsAscend(y: int, z: int)
    requires y <= z
    ensures DaysBeforeYear(y) + 365 * (z - y) <= DaysBeforeYear(z)
    decreases z - y
  {
    if y == z {
    } else {
      YearLength(y);
      YearsAscend(y + 1, z);
    }
  }

  /** The year holding day `n`, by 400-, 100-, 4- and 1-year cycles. */
  function YearOf(n: int): int {
    var q, r := n / 146097, n % 146097;
    var c := if r / 36524 > 3 then 3 else r / 36524;
    var r1 := r - 36524 * c;
    var f := r1 / 1461;
    var r2 := r1 - 1461 * f;
    var s := if r2 / 365 > 3 then 3 else r2 / 365;
    400 * q + 100 * c + 4 * f + s + 1
  }

  lemma YearOfBrackets(n: int)
    ensures DaysBeforeYear(YearOf(n)) <= n < DaysBeforeYear(YearOf(n) + 1)
  {
    hide DaysBeforeYear, IsLeap;
    var q, r := n / 146097, n % 146097;
    var c := if r / 36524 > 3 then 3 else r / 36524;
    var r1 := r - 36524 * c;
    var f := r1 / 1461;
    var r2 := r1 - 1461 * f;
    var s := if r2 / 365 > 3 then 3 else r2 / 365;
    CycleBounds(r, c, r1, f, r2, s);
    CycleDays(q, c, f, s);
    CycleNext(q, c, f, s);
  }

  lemma CycleBounds(r: int, c: int, r1: int, f: int, r2: int, s: int)
    requires 0 <= r < 146097
    requires c == (if r / 36524 > 3 then 3 else r / 36524) && r1 == r - 36524 * c
    requires f == r1 / 1461 && r2 == r1 - 1461 * f
    requires s == (if r2 / 365 > 3 then 3 else r2 / 365)
    ensures 0 <= c <= 3 && 0 <= f <= 24 && 0 <= s <= 3
    ensures 0 <= r2 - 365 * s <= if s == 3 && (f < 24 || c == 3) then 365 else 364
  {
    assert 0 <= r1 <= 36524 && (c < 3 ==> r1 < 36524);
    assert 0 <= r2 < 1461;
  }

  lemma CycleDays(q: int, c: int, f: int, s: int)
    requires 0 <= c <= 3 && 0 <= f <= 24 && 0 <= s <= 3
    ensures DaysBeforeYear(400 * q + 100 * c + 4 * f + s + 1) == 146097 * q + 36524 * c + 1461 * f + 365 * s
  {
    var y := 400 * q + 100 * c + 4 * f + s;
    assert y / 4 == 100 * q + 25 * c + f;
    assert y / 100 == 4 * q + c;
    assert y / 400 == q;
  }

  lemma CycleNext(q: int, c: int, f: int, s: int)
    requires 0 <= c <= 3 && 0 <= f <= 24 && 0 <= s <= 3
    ensures var y := 400 * q + 100 * c + 4 * f + s + 1;
            DaysBeforeYear(y + 1) ==
              146097 * q + 36524 * c + 1461 * f + 365 * s + (if IsLeap(y) then 366 else 365)
            && (IsLeap(y) <==> s == 3 && (f < 24 || c == 3))
  {
    hide DaysBeforeYear, DaysBeforeMonth, IsLeap;
    CycleDays(q, c, f, s);
    YearLength(400 * q + 100 * c + 4 * f + s + 1);
    CycleLeap(q, c, f, s);
  }

  lemma CycleLeap(q: int, c: int, f: int, s: int)
    requires 0 <= c <= 3 && 0 <= f <= 24 && 0 <= s <= 3
    ensures IsLeap(400 * q + 100 * c + 4 * f + s + 1) <==> s == 3 && (f < 24 || c == 3)
  {
    var y := 400 * q + 100 * c + 4 * f + s + 1;
    if s < 3 {
      Remainder(y, 4, 100 * q + 25 * c + f, s + 1);
    } else if f < 24 {
      Remainder(y, 4, 100 * q + 25 * c + f + 1, 0);
      Remainder(y, 100, 4 * q + c, 4 * f + 4);
    } else if c < 3 {
      Remainder(y, 100, 4 * q + c + 1, 0);
      Remainder(y, 400, q, 100 * (c + 1));
    } else {
      Remainder(y, 4, 100 * (q + 1), 0);
      Remainder(y, 400, q + 1, 0);
    }
  }

  lemma YearIsUnique(n: int, y: int)
    requires DaysBeforeYear(y) <= n < DaysBeforeYear(y + 1)
    ensures YearOf(n) == y
  {
    hide YearOf, DaysBeforeYear;
    YearOfBrackets(n);
    if YearOf(n) < y { YearsAscend(YearOf(n) + 1, y); }
    if y < YearOf(n) { YearsAscend(y + 1, YearOf(n)); }
  }

  /** The month holding day-of-year `doy`, scanning from month `m`. */
  function MonthFrom(leap: bool, doy: int, m: int): (r: int)
    requires 1 <= m <= 12 && DaysBeforeMonth(leap, m) <= doy < DaysBeforeMonth(leap, 13)
    ensures m <= r <= 12 && DaysBeforeMonth(leap, r) <= doy < DaysBeforeMonth(leap, r + 1)
    decreases 12 - m
  {
    if m == 12 || doy < DaysBeforeMonth(leap, m + 1) then m else MonthFrom(leap, doy, m + 1)
  }

  lemma MonthIsUnique(leap: bool, doy: int, m: int)
    requires 1 <= m <= 12 && DaysBeforeMonth(leap, m) <= doy < DaysBeforeMonth(leap, m + 1)
    requires 0 <= doy < DaysBeforeMonth(leap, 13)
    ensures MonthFrom(leap, doy, 1) == m
  {
    MonthBracketIsUnique(leap, doy, m, MonthFrom(leap, doy, 1));
  }

  lemma MonthBracketIsUnique(leap: bool, doy: int, m: int, r: int)
    requires 1 <= m <= 12 && DaysBeforeMonth(leap, m) <= doy < DaysBeforeMonth(leap, m + 1)
    requires 1 <= r <= 12 && DaysBeforeMonth(leap, r) <= doy < DaysBeforeMonth(leap, r + 1)
    ensures r == m
  {
    hide *;
    if r < m { MonthsAscend(leap, r + 1, m); }
    if m < r { MonthsAscend(leap, m + 1, r); }
  }

  function OfYearDay(y: int, doy: int): (d: Date)
    requires 0 <= doy < DaysBeforeMonth(IsLeap(y), 13)
    ensures d.year == y && IsDate(d)
    ensures DaysBeforeMonth(IsLeap(y), d.month) + d.day - 1 == doy
  {
    var m := MonthFrom(IsLeap(y), doy, 1);
    Date(y, m, doy - DaysBeforeMonth(IsLeap(y), m) + 1)
  }

  function DateOf(n: int): (d: Date)
    ensures IsDate(d)
  {
    YearOfBrackets(n);
    YearLength(YearOf(n));
    OfYearDay(YearOf(n), n - DaysBeforeYear(YearOf(n)))
  }

  function DayNumber(d: Date): int
    requires 1 <= d.month <= 12
  {
    DaysBeforeYear(d.year) + DaysBeforeMonth(IsLeap(d.year), d.month) + d.day - 1
  }

  predicate IsDate(d: Date) {
    1 <= d.month <= 12 && 1 <= d.day <= MonthDays(IsLeap(d.year), d.month)
  }

  /** Dates and day numbers are in bijection, one direction per lemma. */
  lemma DayNumberOfDate(n: int)
    ensures DayNumber(DateOf(n)) == n
  {
  }

  lemma DateOfDayNumber(d: Date)
    requires IsDate(d)
    ensures DateOf(DayNumber(d)) == d
    ensures DaysBeforeYear(d.year) <= DayNumber(d) < DaysBeforeYear(d.year + 1)
  {
    var leap := IsLeap(d.year);
    YearLength(d.year);
    MonthsAscend(leap, d.month + 1, 13);
    DateInYear(DayNumber(d), d.year, d.month);
  }

  lemma DateInYear(n: int, y: int, m: int)
    requires DaysBeforeYear(y) <= n < DaysBeforeYear(y + 1)
    requires 1 <= m <= 12
    requires DaysBeforeMonth(IsLeap(y), m) <= n - DaysBeforeYear(y) < DaysBeforeMonth(IsLeap(y), m + 1)
    ensures DateOf(n) == Date(y, m, n - DaysBeforeYear(y) - DaysBeforeMonth(IsLeap(y), m) + 1)
  {
    hide YearOf, DaysBeforeYear, DaysBeforeMonth, IsLeap, MonthFrom, MonthDays;
    YearIsUnique(n, y);
    YearLength(y);
    MonthIsUnique(IsLeap(y), n - DaysBeforeYear(y), m);
  }

  lemma MonthsAscend(leap: bool, m: int, k: int)
    requires 1 <= m <= k <= 13
    ensures DaysBeforeMonth(leap, m) <= DaysBeforeMonth(leap, k)
    decreases k - m
  {
    if m == k {
    } else {
      MonthsAscend(leap, m + 1, k);
    }
  }

  /** Sunday is 0, as cron counts; day 0 is a Monday. */
  function Weekday(n: int): (w: int)
    ensures 0 <= w <= 6
  {
    (n + 1) % 7
  }

  /** A month and day that exist in a common year come round within any 366 consecutive days. */
  lemma DateRecurs(m: int, d: int, from: int) returns (n: int)
    requires 1 <= m <= 12 && 1 <= d <= MonthDays(false, m)
    ensures from <= n < from + 366
    ensures DateOf(n).month == m && DateOf(n).day == d
  {
    assert MonthDays(false, m) <= MonthDays(true, m);
    hide YearOf, DaysBeforeYear, DaysBeforeMonth, DateOf, MonthDays;
    var y := YearOf(from);
    YearOfBrackets(from);
    DateOfDayNumber(Date(y, m, d));
    DateOfDayNumber(Date(y + 1, m, d));
    NextAnniversary(y, m, d);
    YearLength(y);
    n := if from <= DayNumber(Date(y, m, d)) then DayNumber(Date(y, m, d)) else DayNumber(Date(y + 1, m, d));
  }

  lemma NextAnniversary(y: int, m: int, d: int)
    requires 1 <= m <= 12
    ensures DayNumber(Date(y + 1, m, d)) <= DayNumber(Date(y, m, d)) + 366
  {
    hide DaysBeforeYear, DaysBeforeMonth;
    YearLength(y);
    LeapShift(m);
    assert !(IsLeap(y) && IsLeap(y + 1));
  }

  lemma LeapShift(m: int)
    requires 1 <= m <= 12
    ensures DaysBeforeMonth(true, m) == DaysBeforeMonth(false, m) + if m <= 2 then 0 else 1
  {
    MonthTable(true);
    MonthTable(false);
  }

  // ------------------------------------------------- the calendar, day by day

  function LastDay(y: int, m: int): int
    requires 1 <= m <= 12
  {
    if m == 2 && y % 4 == 0 && (y % 100 != 0 || y % 400 == 0) then 29
    else [31, 28, 31, 30, 31, 30, 31, 31, 30, 31, 30, 31][m - 1]
  }

  function Tomorrow(d: Date): Date
    requires 1 <= d.month <= 12
  {
    if d.day < LastDay(d.year, d.month) then Date(d.year, d.month, d.day + 1)
    else if d.month < 12 then Date(d.year, d.month + 1, 1)
    else Date(d.year + 1, 1, 1)
  }

  /** Day numbers count the days of the civil calendar one by one. */
  lemma DaysFollow(d: Date)
    requires IsDate(d)
    ensures IsDate(Tomorrow(d)) && DayNumber(Tomorrow(d)) == DayNumber(d) + 1
    ensures Weekday(DayNumber(Tomorrow(d))) == (Weekday(DayNumber(d)) + 1) % 7
  {
    hide DaysBeforeYear, DaysBeforeMonth;
    YearLength(d.year);
    MonthEnds(d.year, d.month);
    assert DaysBeforeMonth(IsLeap(d.year + 1), 1) == 0 by { MonthTable(IsLeap(d.year + 1)); }
  }

  lemma MonthEnds(y: int, m: int)
    requires 1 <= m <= 12
    ensures MonthDays(IsLeap(y), m) == LastDay(y, m)
    ensures DaysBeforeMonth(IsLeap(y), m + 1) == DaysBeforeMonth(IsLeap(y), m) + LastDay(y, m)
  {
  }

  /** They start where Unix time needs them to: 1970-01-01 is day 719162, a Thursday. */
  lemma EpochIsThursday()
    ensures IsDate(Date(1970, 1, 1)) && DayNumber(Date(1970, 1, 1)) == UNIX_EPOCH_DAY == 719162
    ensures Weekday(719162) == 4
  {
    MonthTable(IsLeap(1970));
    assert DaysBeforeYear(1970) == 719162;
  }
}
