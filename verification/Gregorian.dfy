/** The proleptic Gregorian calendar, with days counted from 1 January 1925. */
module Gregorian {
  import opened Arithmetic

  datatype Civil = Civil(year: int, month: int, day: int)

  const MIN_YEAR: int := 1925

  predicate Leap(y: int) {
    y % 4 == 0 && (y % 100 != 0 || y % 400 == 0)
  }

  function YearDays(y: int): int {
    if Leap(y) then 366 else 365
  }

  function MonthDays(y: int, m: int): int {
    if m == 2 then (if Leap(y) then 29 else 28)
    else if m == 4 || m == 6 || m == 9 || m == 11 then 30
    else 31
  }

  predicate IsDate(c: Civil) {
    MIN_YEAR <= c.year && 1 <= c.month <= 12 && 1 <= c.day <= MonthDays(c.year, c.month)
  }

  // ---- the number of a day, in closed form ----

  /** The number of 1 January. */
  function YearStart(y: int): int {
    365 * (y - MIN_YEAR) + (y - 1) / 4 - (y - 1) / 100 + (y - 1) / 400 - 466
  }

  /** The days of the year before month m. */
  function MonthOffset(y: int, m: int): int {
    var leap := if Leap(y) then 1 else 0;
    if m == 1 then 0
    else if m == 2 then 31
    else leap + (if m == 3 then 59 else if m == 4 then 90 else if m == 5 then 120 else if m == 6 then 151
                 else if m == 7 then 181 else if m == 8 then 212 else if m == 9 then 243 else if m == 10 then 273
                 else if m == 11 then 304 else 334)
  }

  function MonthStart(y: int, m: int): int {
    YearStart(y) + MonthOffset(y, m)
  }

  function DayNumber(c: Civil): int {
    MonthStart(c.year, c.month) + c.day - 1
  }

  /** Monday is 1 and Sunday 7; 1 January 1925 was a Thursday. */
  function DayOfWeek(n: int): int {
    (n + 3) % 7 + 1
  }

  // ---- one day after another ----

  function NextDay(c: Civil): Civil {
    if c.day < MonthDays(c.year, c.month) then c.(day := c.day + 1)
    else if c.month < 12 then Civil(c.year, c.month + 1, 1)
    else Civil(c.year + 1, 1, 1)
  }

  /** The civil date n days after 1 January 1925. */
  function CivilAt(n: nat): Civil {
    if n == 0 then Civil(MIN_YEAR, 1, 1) else NextDay(CivilAt(n - 1))
  }

  lemma NextYear(y: int)
    ensures YearStart(y + 1) == YearStart(y) + YearDays(y)
  {
    Divisible(y);
    Quotient(y, 4);
    Quotient(y, 100);
    Quotient(y, 400);
  }

  lemma Divisible(y: int)
    ensures y % 100 == 0 ==> y % 4 == 0
    ensures y % 400 == 0 ==> y % 100 == 0
  {
    ModMod(y, 4, 25);
    ModMod(y, 100, 4);
  }

  lemma Quotient(y: int, d: int)
    requires d == 4 || d == 100 || d == 400
    ensures y / d - (y - 1) / d == if y % d == 0 then 1 else 0
  {
  }

  lemma NextMonth(y: int, m: int)
    requires 1 <= m <= 12
    ensures m < 12 ==> MonthOffset(y, m + 1) == MonthOffset(y, m) + MonthDays(y, m)
    ensures m == 12 ==> MonthOffset(y, m) + MonthDays(y, m) == YearDays(y)
  {
    hide Leap;
  }

  lemma NextNumber(c: Civil)
    requires IsDate(c)
    ensures IsDate(NextDay(c)) && DayNumber(NextDay(c)) == DayNumber(c) + 1
  {
    hide Leap, YearStart, MonthOffset;
    NextMonth(c.year, c.month);
    NextYear(c.year);
    JanuaryFirst(c.year + 1);
  }

  lemma JanuaryFirst(y: int)
    ensures MonthOffset(y, 1) == 0
  {
  }

  /** Counting day by day agrees with the closed form. */
  lemma {:induction false} CivilAtNumber(n: nat)
    ensures IsDate(CivilAt(n)) && DayNumber(CivilAt(n)) == n
  {
    hide Leap, NextDay, DayNumber;
    if n == 0 {
      FirstNumber();
    } else {
      CivilAtNumber(n - 1);
      NextNumber(CivilAt(n - 1));
    }
  }

  lemma FirstNumber()
    ensures DayNumber(Civil(MIN_YEAR, 1, 1)) == 0
  {
  }

  // ---- dates in order ----

  lemma {:induction false} YearsApart(y: int, z: int)
    requires y < z
    ensures YearStart(y) + YearDays(y) <= YearStart(z)
    decreases z - y
  {
    hide Leap, YearStart;
    NextYear(y);
    if y + 1 < z {
      YearsApart(y + 1, z);
    }
  }

  /** The days of a month follow its start and end before the next month and year. */
  lemma WithinYear(c: Civil)
    requires IsDate(c)
    ensures YearStart(c.year) <= MonthStart(c.year, c.month) <= DayNumber(c)
    ensures DayNumber(c) < MonthStart(c.year, c.month) + MonthDays(c.year, c.month)
         <= YearStart(c.year) + YearDays(c.year)
  {
    hide Leap, YearStart;
    OffsetBounds(c.year, c.month);
  }

  lemma OffsetBounds(y: int, m: int)
    requires 1 <= m <= 12
    ensures 0 <= MonthOffset(y, m) && MonthOffset(y, m) + MonthDays(y, m) <= YearDays(y)
  {
    hide Leap;
  }

  lemma MonthsApart(y: int, m: int, k: int)
    requires 1 <= m < k <= 12
    ensures MonthOffset(y, m) + MonthDays(y, m) <= MonthOffset(y, k)
  {
    hide Leap;
  }

  /** Earlier dates have smaller numbers. */
  lemma Ordered(a: Civil, b: Civil)
    requires IsDate(a) && IsDate(b)
    requires a.year < b.year || (a.year == b.year && (a.month < b.month || (a.month == b.month && a.day < b.day)))
    ensures DayNumber(a) < DayNumber(b)
  {
    hide Leap, YearStart, MonthOffset;
    WithinYear(a);
    WithinYear(b);
    if a.year < b.year {
      YearsApart(a.year, b.year);
    } else if a.month < b.month {
      MonthsApart(a.year, a.month, b.month);
    }
  }

  /** A number belongs to one date. */
  lemma NumberUnique(a: Civil, b: Civil)
    requires IsDate(a) && IsDate(b) && DayNumber(a) == DayNumber(b)
    ensures a == b
  {
    hide Leap, DayNumber;
    if a.year < b.year || (a.year == b.year && (a.month < b.month || (a.month == b.month && a.day < b.day))) {
      Ordered(a, b);
    } else if a != b {
      Ordered(b, a);
    }
  }

  /** The day-by-day calendar reaches every date. */
  lemma CivilAtDate(c: Civil)
    requires IsDate(c)
    ensures DayNumber(c) >= 0 && CivilAt(DayNumber(c)) == c
  {
    hide Leap, DayNumber, CivilAt;
    NumberNonneg(c);
    CivilAtNumber(DayNumber(c));
    NumberUnique(c, CivilAt(DayNumber(c)));
  }

  lemma NumberNonneg(c: Civil)
    requires IsDate(c)
    ensures DayNumber(c) >= 0
  {
    hide Leap, DayNumber;
    FirstNumber();
    var first := Civil(MIN_YEAR, 1, 1);
    if c != first {
      Ordered(first, c);
    }
  }

  /** The year of a day number. */
  lemma YearOf(n: nat, y: int)
    ensures CivilAt(n).year == y <==> YearStart(y) <= n < YearStart(y + 1) && MIN_YEAR <= y
  {
    hide Leap, YearStart, CivilAt;
    var c := CivilAt(n);
    CivilAtNumber(n);
    WithinYear(c);
    NextYear(c.year);
    if c.year < y {
      YearsApart(c.year, y);
    } else if y < c.year {
      NextYear(y);
      YearsApart(y, c.year);
    }
  }
}
