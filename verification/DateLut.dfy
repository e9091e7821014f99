/** The day tables of a time zone without their time-of-day fields: one entry a
    day from 1 January 1925, and the first days of years and months. */
module DateLut {
  import opened Gregorian

  const MAX_YEAR: int := 2283
  const YEARS: int := 359
  const SIZE: int := 0x20000

  /** The index of 1 January 1970. */
  const EPOCH: int := 16436

  datatype Values = Values(year: int, month: int, dayOfMonth: int, dayOfWeek: int, daysInMonth: int)

  /** What the entry of day i has to say. */
  function ValuesAt(i: nat): Values {
    var c := CivilAt(i);
    Values(c.year, c.month, c.day, DayOfWeek(i), MonthDays(c.year, c.month))
  }

  /** Months are numbered from January 1925. */
  function MonthIndex(c: Civil): int {
    (c.year - MIN_YEAR) * 12 + c.month - 1
  }

  function IndexedStart(k: int): int {
    MonthStart(MIN_YEAR + k / 12, k % 12 + 1)
  }

  /** November 2283, in which the table ends. */
  const LAST_MONTH: int := 4306

  lemma TableEnd()
    ensures CivilAt(SIZE - 1) == Civil(2283, 11, 11) && MonthIndex(CivilAt(SIZE - 1)) == LAST_MONTH
  {
    hide CivilAt;
    CivilAtDate(Civil(2283, 11, 11));
  }

  lemma YearInTable(i: nat)
    requires i < SIZE
    ensures MIN_YEAR <= CivilAt(i).year <= MAX_YEAR && 0 <= MonthIndex(CivilAt(i)) <= LAST_MONTH
  {
    hide CivilAt, YearStart, MonthOffset, Leap;
    CivilAtNumber(i);
    TableEnd();
    if i < SIZE - 1 {
      CivilAtNumber(SIZE - 1);
      var c, e := CivilAt(i), CivilAt(SIZE - 1);
      if e.year < c.year || (e.year == c.year && e.month < c.month) {
        Ordered(e, c);
      }
    }
  }

  /** A day other than the first continues the month of the day before. */
  lemma SameMonth(i: nat)
    requires i > 0
    ensures CivilAt(i).day != 1 ==> CivilAt(i).year == CivilAt(i - 1).year && CivilAt(i).month == CivilAt(i - 1).month
    ensures CivilAt(i).day == 1 ==> MonthIndex(CivilAt(i)) == MonthIndex(CivilAt(i - 1)) + 1
    ensures CivilAt(i).year == CivilAt(i - 1).year
         || (CivilAt(i).year == CivilAt(i - 1).year + 1 && CivilAt(i).day == 1 && CivilAt(i).month == 1)
  {
    hide Leap;
    CivilAtNumber(i - 1);
  }

  /** The first loops of the constructor: one entry a day, until the table is full or
      the last year is over, then copies of the last entry. */
  method FillDays(lut: array<Values>)
    requires lut.Length == SIZE
    modifies lut
    ensures forall i | 0 <= i < SIZE :: lut[i] == ValuesAt(i)
  {
    hide CivilAt, NextDay, Leap;
    var date, i := Civil(MIN_YEAR, 1, 1), 0;
    CivilAtZero();
    while i == 0 || (i < SIZE && lut[i - 1].year <= MAX_YEAR)
      invariant 0 <= i <= SIZE && date == CivilAt(i)
      invariant forall j | 0 <= j < i :: lut[j] == ValuesAt(j)
      decreases SIZE - i
    {
      if i > 0 { SameMonth(i); }
      lut[i] := Values(date.year, date.month, date.day, DayOfWeek(i),
                       if date.day == 1 then MonthDays(date.year, date.month)
                       else if i != 0 then lut[i - 1].daysInMonth else 31);
      date := NextDay(date);
      i := i + 1;
      CivilAtNext(i);
    }
    YearInTable(i - 1);
    FillTail(lut, i);
  }

  lemma CivilAtZero()
    ensures CivilAt(0) == Civil(MIN_YEAR, 1, 1)
  {
  }

  lemma CivilAtNext(i: nat)
    requires i > 0
    ensures CivilAt(i) == NextDay(CivilAt(i - 1))
  {
  }

  method FillTail(lut: array<Values>, n: nat)
    requires lut.Length == SIZE && 0 < n <= SIZE
    modifies lut
    ensures forall j | 0 <= j < n :: lut[j] == old(lut[j])
    ensures forall j | n <= j < SIZE :: lut[j] == old(lut[n - 1])
  {
    var i := n;
    while i < SIZE
      invariant n <= i <= SIZE
      invariant forall j | 0 <= j < n :: lut[j] == old(lut[j])
      invariant forall j | n <= j < i :: lut[j] == old(lut[n - 1])
    {
      lut[i] := lut[i - 1];
      i := i + 1;
    }
  }

  lemma FirstOfMonth(i: nat)
    ensures CivilAt(i).day == 1 ==> IndexedStart(MonthIndex(CivilAt(i))) == i
    ensures CivilAt(i).day == 1 && CivilAt(i).month == 1 ==> YearStart(CivilAt(i).year) == i
  {
    hide CivilAt, YearStart, Leap;
    CivilAtNumber(i);
    var c := CivilAt(i);
    IndexParts(c.year - MIN_YEAR, c.month - 1);
    JanuaryFirst(c.year);
  }

  lemma IndexParts(y: int, m: int)
    requires 0 <= m < 12
    ensures (y * 12 + m) / 12 == y && (y * 12 + m) % 12 == m
  {
  }

  /** The last loops of the constructor: the first days of years and months; months
      after the end of the table share the start of the last one. */
  method FillMonths(lut: array<Values>, yearsLut: array<int>, yearsMonthsLut: array<int>)
    requires lut.Length == SIZE && yearsLut.Length == YEARS && yearsMonthsLut.Length == YEARS * 12
    requires yearsLut != yearsMonthsLut
    requires forall i | 0 <= i < SIZE :: lut[i] == ValuesAt(i)
    modifies yearsLut, yearsMonthsLut
    ensures forall y | 0 <= y < YEARS :: yearsLut[y] == YearStart(MIN_YEAR + y)
    ensures forall k | 0 <= k < YEARS * 12 ::
              yearsMonthsLut[k] == IndexedStart(if k <= LAST_MONTH then k else LAST_MONTH)
  {
    hide CivilAt, YearStart, MonthStart, Leap;
    var index, firstDayOfLastMonth := 0, 0;
    var day := 0;
    CivilAtZero();
    while day < SIZE
      invariant 0 <= day <= SIZE && 0 <= index <= LAST_MONTH
      invariant day > 0 ==> index == MonthIndex(CivilAt(day - 1)) && firstDayOfLastMonth == IndexedStart(index)
      invariant day > 0 ==> forall k | 0 <= k <= index :: yearsMonthsLut[k] == IndexedStart(k)
      invariant day > 0 ==> MIN_YEAR <= CivilAt(day - 1).year <= MAX_YEAR
      invariant day > 0 ==>
                  forall y | 0 <= y <= CivilAt(day - 1).year - MIN_YEAR :: yearsLut[y] == YearStart(MIN_YEAR + y)
    {
      var values := lut[day];
      YearInTable(day);
      FirstOfMonth(day);
      if day > 0 { SameMonth(day); }
      if values.dayOfMonth == 1 {
        if values.month == 1 {
          yearsLut[values.year - MIN_YEAR] := day;
        }
        index := (values.year - MIN_YEAR) * 12 + values.month - 1;
        yearsMonthsLut[index] := day;
        firstDayOfLastMonth := day;
      }
      day := day + 1;
    }
    TableEnd();
    while index < YEARS * 12
      invariant LAST_MONTH <= index <= YEARS * 12
      invariant forall y | 0 <= y < YEARS :: yearsLut[y] == YearStart(MIN_YEAR + y)
      invariant forall k | 0 <= k <= LAST_MONTH :: yearsMonthsLut[k] == IndexedStart(k)
      invariant forall k | LAST_MONTH <= k < index :: yearsMonthsLut[k] == IndexedStart(LAST_MONTH)
    {
      yearsMonthsLut[index] := firstDayOfLastMonth;
      index := index + 1;
    }
  }

  // ---- the class ----

  /** Arithmetic on table indices is masked. */
  function Mask(x: int): (i: int)
    ensures 0 <= i < SIZE
    ensures 0 <= x < SIZE ==> i == x
  {
    x % SIZE
  }

  function AsInt16(x: int): int {
    (x + 0x8000) % 0x1_0000 - 0x8000
  }

  class DateLUT {
    const lut: array<Values>
    const yearsLut: array<int>
    const yearsMonthsLut: array<int>

    ghost predicate Valid()
      reads lut, yearsLut, yearsMonthsLut
    {
      && lut.Length == SIZE && yearsLut.Length == YEARS && yearsMonthsLut.Length == YEARS * 12
      && (forall i | 0 <= i < SIZE :: lut[i] == ValuesAt(i))
      && (forall y | 0 <= y < YEARS :: yearsLut[y] == YearStart(MIN_YEAR + y))
      && (forall k | 0 <= k < YEARS * 12 ::
            yearsMonthsLut[k] == IndexedStart(if k <= LAST_MONTH then k else LAST_MONTH))
    }

    constructor ()
      ensures Valid() && fresh(lut) && fresh(yearsLut) && fresh(yearsMonthsLut)
    {
      var l := new Values[SIZE](_ => Values(0, 0, 0, 0, 0));
      var y, m := new int[YEARS], new int[YEARS * 12];
      FillDays(l);
      FillMonths(l, y, m);
      lut, yearsLut, yearsMonthsLut := l, y, m;
    }

    /** `makeLUTIndex` */
    function MakeLUTIndex(year: int, month: int, dayOfMonth: int): (i: int)
      requires Valid()
      reads lut, yearsLut, yearsMonthsLut
      ensures 0 <= i < SIZE
    {
      if year < MIN_YEAR || year > MAX_YEAR || month < 1 || month > 12 || dayOfMonth < 1 || dayOfMonth > 31 then 0
      else Mask(Mask(yearsMonthsLut[(year - MIN_YEAR) * 12 + month - 1] + dayOfMonth) - 1)
    }

    /** `daysInMonth` of a year and month: looks up a day that is surely in the month. */
    function DaysInMonth(year: int, month: int): int
      requires Valid()
      reads lut, yearsLut, yearsMonthsLut
    {
      var idx := (year - MIN_YEAR) % 0x1_0000;
      if idx >= YEARS then 31
      else lut[Mask(yearsLut[idx] + 32 * (month - 1))].daysInMonth
    }

    /** `saturateDayOfMonth` */
    function SaturateDayOfMonth(year: int, month: int, dayOfMonth: int): int
      requires Valid()
      reads lut, yearsLut, yearsMonthsLut
    {
      if dayOfMonth <= 28 then dayOfMonth
      else
        var daysInMonth := DaysInMonth(year, month);
        if dayOfMonth > daysInMonth then daysInMonth else dayOfMonth
    }

    /** `addMonthsIndex` */
    function AddMonthsIndex(i: int, delta: int): (j: int)
      requires Valid() && 0 <= i < SIZE
      reads lut, yearsLut, yearsMonthsLut
      ensures 0 <= j < SIZE
    {
      var values := lut[i];
      var month := values.month + delta;
      if month > 0 then
        var year := AsInt16(values.year + (month - 1) / 12);
        var month := (month - 1) % 12 + 1;
        MakeLUTIndex(year, month, SaturateDayOfMonth(year, month, values.dayOfMonth))
      else
        var year := AsInt16(values.year - (12 - month) / 12);
        var month := 12 - (-month) % 12;
        MakeLUTIndex(year, month, SaturateDayOfMonth(year, month, values.dayOfMonth))
    }
  }

  // ---- years, months and days to an index and back ----

  lemma MonthsInTable(c: Civil)
    requires IsDate(c) && DayNumber(c) < SIZE
    ensures c.year <= MAX_YEAR && 0 <= MonthIndex(c) <= LAST_MONTH
    ensures IndexedStart(MonthIndex(c)) == MonthStart(c.year, c.month) >= 0
  {
    hide CivilAt, YearStart, MonthOffset, Leap;
    CivilAtDate(c);
    YearInTable(DayNumber(c));
    IndexParts(c.year - MIN_YEAR, c.month - 1);
    NumberNonneg(c.(day := 1));
  }

  lemma MakeExact(d: DateLUT, c: Civil)
    requires d.Valid() && IsDate(c) && DayNumber(c) < SIZE
    ensures d.MakeLUTIndex(c.year, c.month, c.day) == DayNumber(c)
  {
    hide MonthStart, IndexedStart, Leap;
    MonthsInTable(c);
  }

  /** A day up to 31 that the month does not have runs into the next one. */
  lemma MakeRunsOn(d: DateLUT, y: int, m: int, day: int)
    requires d.Valid() && 1925 <= y && 1 <= m <= 12 && 1 <= day <= 31 && MonthStart(y, m) + day - 1 < SIZE
    ensures d.MakeLUTIndex(y, m, day) == MonthStart(y, m) + day - 1
  {
    hide MonthStart, IndexedStart, Leap;
    MonthsInTable(Civil(y, m, 1));
  }

  /** Anything else is the first day of the table. */
  lemma MakeOutside(d: DateLUT, y: int, m: int, day: int)
    requires d.Valid()
    ensures !(1925 <= y <= 2283 && 1 <= m <= 12 && 1 <= day <= 31) ==> d.MakeLUTIndex(y, m, day) == 0
  {
  }

  /** Looking up the year, month and day of any entry gives back its index. */
  lemma MakeRoundTrip(d: DateLUT, i: nat)
    requires d.Valid() && i < SIZE
    ensures d.MakeLUTIndex(d.lut[i].year, d.lut[i].month, d.lut[i].dayOfMonth) == i
  {
    hide CivilAt, DayNumber, IsDate;
    CivilAtNumber(i);
    MakeExact(d, CivilAt(i));
  }

  // ---- adding months ----

  /** 32 days a month never overshoot the month. */
  lemma AnyDayOfMonth(y: int, m: int)
    requires 1 <= m <= 12
    ensures 0 <= 32 * (m - 1) - MonthOffset(y, m) < 28
  {
    hide Leap;
  }

  /** A year outside the table has months of 31 days. */
  lemma DaysInMonthOutside(d: DateLUT, y: int, m: int)
    requires d.Valid() && -32768 <= y <= 32767 && !(1925 <= y <= 2283)
    ensures d.DaysInMonth(y, m) == 31
  {
  }

  lemma DaysInMonthExact(d: DateLUT, y: int, m: int)
    requires d.Valid() && MIN_YEAR <= y && 1 <= m <= 12 && MonthStart(y, m) + 27 < SIZE
    ensures d.DaysInMonth(y, m) == MonthDays(y, m)
  {
    hide CivilAt, YearStart, MonthOffset, Leap;
    AnyDayOfMonth(y, m);
    var c := Civil(y, m, 32 * (m - 1) - MonthOffset(y, m) + 1);
    CivilAtDate(c);
    MonthsInTable(c);
  }

  /** The month delta months away, and the day kept or cut to its last. */
  function Target(c: Civil, delta: int): Civil {
    var k := MonthIndex(c) + delta;
    var y, m := MIN_YEAR + k / 12, k % 12 + 1;
    Civil(y, m, if c.day <= MonthDays(y, m) then c.day else MonthDays(y, m))
  }

  /** The two branches compute the same floor division of the month number. */
  lemma MonthArithmetic(c: Civil, delta: int)
    requires 1 <= c.month <= 12
    ensures var month, t := c.month + delta, Target(c, delta);
      && (month > 0 ==> t.year == c.year + (month - 1) / 12 && t.month == (month - 1) % 12 + 1)
      && (month <= 0 ==> t.year == c.year - (12 - month) / 12 && t.month == 12 - (-month) % 12)
  {
    var month, y := c.month + delta, c.year - MIN_YEAR;
    if month > 0 {
      IndexParts(y + (month - 1) / 12, (month - 1) % 12);
    } else {
      IndexParts(y - (12 - month) / 12, 11 - (-month) % 12);
    }
  }

  lemma MakeSaturated(d: DateLUT, c: Civil, t: Civil)
    requires d.Valid() && IsDate(c) && MIN_YEAR <= t.year && 1 <= t.month <= 12
    requires t.day == if c.day <= MonthDays(t.year, t.month) then c.day else MonthDays(t.year, t.month)
    requires DayNumber(t) < SIZE
    ensures d.MakeLUTIndex(t.year, t.month, d.SaturateDayOfMonth(t.year, t.month, c.day)) == DayNumber(t)
  {
    hide MonthStart, Leap;
    if c.day > 28 {
      DaysInMonthExact(d, t.year, t.month);
    }
    MakeExact(d, t);
  }

  lemma AddMonthsUnfold(d: DateLUT, i: nat, delta: int)
    requires d.Valid() && i < SIZE
    ensures var c, t := CivilAt(i), Target(CivilAt(i), delta);
            var y := AsInt16(t.year);
      d.AddMonthsIndex(i, delta) == d.MakeLUTIndex(y, t.month, d.SaturateDayOfMonth(y, t.month, c.day))
  {
    hide CivilAt, Target, AsInt16, DateLUT.MakeLUTIndex, DateLUT.SaturateDayOfMonth;
    var c := CivilAt(i);
    CivilAtNumber(i);
    MonthArithmetic(c, delta);
  }

  lemma Int16Year(y: int)
    requires MIN_YEAR <= y <= MAX_YEAR
    ensures AsInt16(y) == y
  {
  }

  lemma TargetParts(c: Civil, delta: int)
    ensures var t := Target(c, delta);
      && 1 <= t.month <= 12
      && t.day == (if c.day <= MonthDays(t.year, t.month) then c.day else MonthDays(t.year, t.month))
  {
  }

  /** Adding months reaches the target date exactly when the table contains it, for every delta. */
  lemma AddMonthsExact(d: DateLUT, i: nat, delta: int)
    requires d.Valid() && i < SIZE
    ensures CivilAt(d.AddMonthsIndex(i, delta)) == Target(CivilAt(i), delta)
       <==> MIN_YEAR <= Target(CivilAt(i), delta).year && DayNumber(Target(CivilAt(i), delta)) < SIZE
  {
    hide CivilAt, DayNumber, Leap, Target, DateLUT.AddMonthsIndex, DateLUT.MakeLUTIndex, DateLUT.SaturateDayOfMonth;
    var c, j := CivilAt(i), d.AddMonthsIndex(i, delta);
    var t := Target(c, delta);
    CivilAtNumber(i);
    CivilAtNumber(j);
    if MIN_YEAR <= t.year && DayNumber(t) < SIZE {
      TargetParts(c, delta);
      TargetDate(c, t);
      MonthsInTable(t);
      AddMonthsUnfold(d, i, delta);
      Int16Year(t.year);
      MakeSaturated(d, c, t);
      CivilAtDate(t);
    }
  }

  lemma TargetDate(c: Civil, t: Civil)
    requires IsDate(c) && MIN_YEAR <= t.year && 1 <= t.month <= 12
    requires t.day == if c.day <= MonthDays(t.year, t.month) then c.day else MonthDays(t.year, t.month)
    ensures IsDate(t)
  {
    hide Leap;
  }

  /** Far targets: the year wraps to 16 bits; a year outside the table gives its first day. */
  lemma AddMonthsWraps(d: DateLUT, i: nat, delta: int, w: int)
    requires d.Valid() && i < SIZE
    ensures var c, t := CivilAt(i), Target(CivilAt(i), delta);
            var y := t.year - 65536 * w;
            var day := if c.day <= MonthDays(y, t.month) then c.day else MonthDays(y, t.month);
      && (-32768 <= y < 1925 || 2283 < y <= 32767 ==> d.AddMonthsIndex(i, delta) == 0)
      && (1925 <= y <= 2283 && DayNumber(Civil(y, t.month, day)) < SIZE ==>
            d.AddMonthsIndex(i, delta) == DayNumber(Civil(y, t.month, day)))
  {
    hide CivilAt, Leap, Target, YearStart, MonthOffset, MonthDays, DateLUT.AddMonthsIndex, DateLUT.MakeLUTIndex,
         DateLUT.SaturateDayOfMonth, AsInt16;
    var c, t := CivilAt(i), Target(CivilAt(i), delta);
    var y := t.year - 65536 * w;
    var day := if c.day <= MonthDays(y, t.month) then c.day else MonthDays(y, t.month);
    CivilAtNumber(i);
    TargetParts(c, delta);
    AddMonthsUnfold(d, i, delta);
    if -32768 <= y <= 32767 {
      Int16Wraps(t.year, w);
      MakeOutside(d, y, t.month, d.SaturateDayOfMonth(y, t.month, c.day));
      if 1925 <= y <= 2283 && DayNumber(Civil(y, t.month, day)) < SIZE {
        MakeSaturated(d, c, Civil(y, t.month, day));
      }
    }
  }

  lemma Int16Wraps(y: int, w: int)
    requires -32768 <= y - 65536 * w <= 32767
    ensures AsInt16(y) == y - 65536 * w
  {
  }

  /** One month after the last day of the table is that day again. */
  lemma AddMonthsFails(d: DateLUT)
    requires d.Valid()
    ensures Target(CivilAt(SIZE - 1), 1) == Civil(2283, 12, 11)
    ensures d.AddMonthsIndex(SIZE - 1, 1) == SIZE - 1
  {
    hide CivilAt, Target, IndexedStart, DateLUT.AddMonthsIndex;
    TableEnd();
    TargetAtEnd();
    Int16Year(2283);
    AddMonthsUnfold(d, SIZE - 1, 1);
  }

  lemma TargetAtEnd()
    ensures Target(Civil(2283, 11, 11), 1) == Civil(2283, 12, 11) && IndexedStart(LAST_MONTH) == 131061
  {
  }

  /** Every target of a year up to 2282 is in the table. */
  lemma WholeYears(c: Civil)
    requires IsDate(c) && c.year <= 2282
    ensures DayNumber(c) < SIZE
  {
    hide YearStart, Leap;
    WithinYear(c);
    YearsApart(c.year, 2283);
    LastWholeYear();
  }

  lemma LastWholeYear()
    ensures YearStart(2283) < SIZE
  {
  }

  lemma TargetIsDate(c: Civil, delta: int)
    requires IsDate(c) && MIN_YEAR <= Target(c, delta).year
    ensures IsDate(Target(c, delta)) && MonthIndex(Target(c, delta)) == MonthIndex(c) + delta
  {
    hide Leap;
  }

  /** For target years from 1925 to 2282 the month is the old one plus delta and the day the old
      one or the last of the month. */
  lemma AddMonths(d: DateLUT, i: nat, delta: int)
    requires d.Valid() && i < SIZE && MIN_YEAR <= Target(CivilAt(i), delta).year <= 2282
    ensures var c, c' := CivilAt(i), CivilAt(d.AddMonthsIndex(i, delta));
      && MonthIndex(c') == MonthIndex(c) + delta
      && c'.day == if c.day <= MonthDays(c'.year, c'.month) then c.day else MonthDays(c'.year, c'.month)
  {
    hide CivilAt, DayNumber, Leap, Target, DateLUT.AddMonthsIndex;
    CivilAtNumber(i);
    TargetIsDate(CivilAt(i), delta);
    TargetParts(CivilAt(i), delta);
    WholeYears(Target(CivilAt(i), delta));
    AddMonthsExact(d, i, delta);
  }

  /** Going there and back returns to the same day exactly when the day was not cut. */
  lemma AddMonthsBack(d: DateLUT, i: nat, delta: int)
    requires d.Valid() && i < SIZE && CivilAt(i).year <= 2282
    requires MIN_YEAR <= Target(CivilAt(i), delta).year <= 2282
    ensures d.AddMonthsIndex(d.AddMonthsIndex(i, delta), -delta) == i
       <==> CivilAt(i).day == Target(CivilAt(i), delta).day
  {
    hide CivilAt, DayNumber, Leap, Target, DateLUT.AddMonthsIndex;
    var c, j := CivilAt(i), d.AddMonthsIndex(i, delta);
    var t := Target(c, delta);
    CivilAtNumber(i);
    TargetIsDate(c, delta);
    WholeYears(t);
    AddMonthsExact(d, i, delta);
    TargetBack(c, delta);
    var u, k := Target(t, -delta), d.AddMonthsIndex(j, -delta);
    TargetIsDate(t, -delta);
    WholeYears(u);
    AddMonthsExact(d, j, -delta);
    CivilAtNumber(k);
  }

  lemma TargetBack(c: Civil, delta: int)
    requires IsDate(c)
    ensures var u := Target(Target(c, delta), -delta);
      u.year == c.year && u.month == c.month && (u.day == c.day <==> c.day == Target(c, delta).day)
  {
    hide Leap;
    var t := Target(c, delta);
    assert MonthIndex(t) == MonthIndex(c) + delta;
    IndexParts(c.year - MIN_YEAR, c.month - 1);
  }

  // ---- quarters ----

  lemma LastOfMonth(y: int, m: int)
    requires MIN_YEAR <= y && 1 <= m < 12 && MonthStart(y, m + 1) <= SIZE
    ensures 0 < MonthStart(y, m + 1) && CivilAt(MonthStart(y, m + 1) - 1) == Civil(y, m, MonthDays(y, m))
    ensures MonthStart(y, m + 1) == MonthStart(y, m) + MonthDays(y, m)
  {
    hide CivilAt, YearStart, MonthOffset, Leap;
    NextMonth(y, m);
    CivilAtDate(Civil(y, m, MonthDays(y, m)));
  }

  /** `toFirstDayOfQuarterIndex`: walks back over whole months; the walk may leave the
      table at its start and return through the mask. */
  method ToFirstDayOfQuarterIndex(d: DateLUT, i: nat) returns (r: int)
    requires d.Valid() && i < SIZE
    ensures r == MonthStart(CivilAt(i).year, (CivilAt(i).month - 1) / 3 * 3 + 1)
  {
    hide CivilAt, MonthStart, Leap, DayNumber;
    ghost var y, m := CivilAt(i).year, CivilAt(i).month;
    CivilAtNumber(i);
    StartBounds(CivilAt(i));
    var index := i;
    var monthInsideQuarter := (d.lut[index].month - 1) % 3;
    index := Mask(index - d.lut[index].dayOfMonth);
    while monthInsideQuarter != 0
      invariant 1 <= m <= 12 && monthInsideQuarter == (m - 1) % 3
      invariant (m - 1) / 3 == (CivilAt(i).month - 1) / 3
      invariant 0 <= MonthStart(y, m) < SIZE && index == Mask(MonthStart(y, m) - 1)
      decreases monthInsideQuarter
    {
      LastOfMonth(y, m - 1);
      index := Mask(index - d.lut[index].dayOfMonth);
      m := m - 1;
      MonthStartNonneg(y, m);
      monthInsideQuarter := monthInsideQuarter - 1;
    }
    r := Mask(index + 1);
  }

  lemma StartBounds(c: Civil)
    requires IsDate(c)
    ensures DayNumber(c) == MonthStart(c.year, c.month) + c.day - 1 && MonthStart(c.year, c.month) >= 0
  {
    MonthStartNonneg(c.year, c.month);
  }

  lemma MonthStartNonneg(y: int, m: int)
    requires MIN_YEAR <= y && 1 <= m <= 12
    ensures MonthStart(y, m) >= 0
  {
    hide YearStart, MonthOffset, Leap;
    NumberNonneg(Civil(y, m, 1));
  }
}
