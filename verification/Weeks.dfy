/** Week numbers: the eight conventions of `toYearWeek`, the convention that
    starts with 1 January, and the separate ISO 8601 functions. */
module Weeks {
  import opened Arithmetic
  import opened Gregorian
  import opened DateLut

  // ---- where week one starts ----

  /** 0 for the first day of the week. */
  function Weekday(n: int, mondayFirst: bool): int {
    (n + (if mondayFirst then 3 else 4)) % 7
  }

  /** What makes a week the first of a year: four days in it (section 2.2.10 of ISO 8601:2004),
      its first weekday in it, or 1 January. */
  datatype Rule = FourDays | FirstWeekday | NewYearDay

  /** The week of 1 January, a day with this weekday, is still counted to the old year. */
  predicate Postponed(weekday: int, rule: Rule) {
    match rule
    case FourDays => weekday >= 4
    case FirstWeekday => weekday != 0
    case NewYearDay => false
  }

  /** The first day of week one of a year. */
  function WeekOne(y: int, mondayFirst: bool, rule: Rule): int {
    var start := YearStart(y);
    var weekday := Weekday(start, mondayFirst);
    start - weekday + (if Postponed(weekday, rule) then 7 else 0)
  }

  /** Year and week by the year the week belongs to. */
  ghost predicate InWeekYear(i: int, mondayFirst: bool, rule: Rule, y: int, week: int) {
    && WeekOne(y, mondayFirst, rule) <= i < WeekOne(y + 1, mondayFirst, rule)
    && week == (i - WeekOne(y, mondayFirst, rule)) / 7 + 1
  }

  lemma WeekOneBounds(y: int, mondayFirst: bool, rule: Rule)
    ensures Weekday(WeekOne(y, mondayFirst, rule), mondayFirst) == 0
    ensures var start, one := YearStart(y), WeekOne(y, mondayFirst, rule);
      && (rule.FourDays? ==> start - 3 <= one <= start + 3)
      && (rule.FirstWeekday? ==> start <= one <= start + 6)
      && (rule.NewYearDay? ==> start - 6 <= one <= start)
  {
    hide YearStart;
  }

  /** How the length of the week year shows in the weekday of the next 1 January. */
  lemma NextWeekOne(y: int, mondayFirst: bool, rule: Rule)
    requires !rule.NewYearDay?
    ensures var one, next := WeekOne(y, mondayFirst, rule), WeekOne(y + 1, mondayFirst, rule);
            var weekday := Weekday(YearStart(y + 1), mondayFirst);
      && (next == one + 364 || next == one + 371)
      && (!Postponed(weekday, rule) ==> next == one + 364 == YearStart(y + 1) - weekday)
      && (Postponed(weekday, rule) ==> next == YearStart(y + 1) - weekday + 7)
  {
    hide YearStart, Leap, Weekday;
    NextYear(y);
    WeekdayNextYear(YearStart(y), YearDays(y), mondayFirst);
  }

  /** A year of 365 or 366 days moves the weekday by one or two. */
  lemma WeekdayNextYear(n: int, days: int, mondayFirst: bool)
    requires days == 365 || days == 366
    ensures 0 <= Weekday(n, mondayFirst) < 7
    ensures var moved := Weekday(n, mondayFirst) + (days - 364);
      Weekday(n + days, mondayFirst) == if moved < 7 then moved else moved - 7
  {
    var x := n + (if mondayFirst then 3 else 4);
    var moved := x % 7 + (days - 364);
    var carry := if moved < 7 then 0 else 1;
    DivModUnique(x + days, 7, x / 7 + 52 + carry, moved - 7 * carry);
  }

  lemma {:induction false} WeekOnesApart(y: int, z: int, mondayFirst: bool, rule: Rule)
    requires y < z
    ensures WeekOne(y, mondayFirst, rule) < WeekOne(z, mondayFirst, rule)
  {
    hide YearStart, Leap, WeekOne;
    WeekOneBounds(y, mondayFirst, rule);
    WeekOneBounds(z, mondayFirst, rule);
    YearsApart(y, z);
  }

  /** A day has one year and week. */
  lemma InWeekYearUnique(i: int, mondayFirst: bool, rule: Rule, y: int, week: int, z: int, week': int)
    requires InWeekYear(i, mondayFirst, rule, y, week) && InWeekYear(i, mondayFirst, rule, z, week')
    ensures y == z && week == week'
  {
    hide WeekOne;
    if y < z {
      if y + 1 < z { WeekOnesApart(y + 1, z, mondayFirst, rule); }
    } else if z < y {
      if z + 1 < y { WeekOnesApart(z + 1, y, mondayFirst, rule); }
    }
  }

  // ---- toYearWeek ----

  /** A week of the table ends with the table: its last day, 11 November 2283, is a Sunday. */
  lemma WeekEnds(i: int)
    requires 0 <= i < SIZE
    ensures i + 6 - Weekday(i, true) < SIZE && 0 <= i + 3 - Weekday(i, true)
    ensures i < SIZE - 1 ==> i + 6 - Weekday(i, false) < SIZE
  {
  }

  /** Masking is compatible with subtraction. */
  lemma MaskMinus(x: int, y: int)
    ensures Mask(Mask(x) - y) == Mask(x - y) && Mask(Mask(x) - Mask(y)) == Mask(x - y)
  {
    ModAdd(x, 0 - y, SIZE);
    ModAdd(x, 0 - Mask(y), SIZE);
    ModSub(x, y, SIZE);
  }

  /** `calc_days_in_year` */
  function CalcDaysInYear(year: int): int {
    if year % 4 == 0 && (year % 100 != 0 || (year % 400 == 0 && year != 0)) then 366 else 365
  }

  function MakeDayNum(d: DateLUT, year: int, month: int, dayOfMonth: int): int
    requires d.Valid()
    reads d.lut, d.yearsLut, d.yearsMonthsLut
  {
    if year < MIN_YEAR || year > MAX_YEAR || month < 1 || month > 12 || dayOfMonth < 1 || dayOfMonth > 31 then 0
    else d.MakeLUTIndex(year, month, dayOfMonth) - EPOCH
  }

  /** A date out of range has day number 0. */
  lemma DayNumOutside(d: DateLUT, y: int, m: int, day: int)
    requires d.Valid() && !(1925 <= y <= 2283 && 1 <= m <= 12 && 1 <= day <= 31)
    ensures MakeDayNum(d, y, m, day) == 0
  {
  }

  /** `calc_weekday` of a day number. */
  function CalcWeekday(d: DateLUT, dayNum: int, sundayFirstDayOfWeek: bool): int
    requires d.Valid()
    reads d.lut, d.yearsLut, d.yearsMonthsLut
  {
    var i := Mask(dayNum + EPOCH);
    if !sundayFirstDayOfWeek then d.lut[i].dayOfWeek - 1 else d.lut[Mask(i + 1)].dayOfWeek - 1
  }

  lemma DayNumOf(d: DateLUT, y: int)
    requires d.Valid() && MIN_YEAR <= y <= MAX_YEAR
    ensures MakeDayNum(d, y, 1, 1) == YearStart(y) - EPOCH && 0 <= YearStart(y) < SIZE - 300
    ensures CalcWeekday(d, YearStart(y) - EPOCH, false) == Weekday(YearStart(y), true)
    ensures CalcWeekday(d, YearStart(y) - EPOCH, true) == Weekday(YearStart(y), false)
  {
    hide CivilAt, YearStart, Leap, DateLUT.MakeLUTIndex;
    var c := Civil(y, 1, 1);
    JanuaryFirst(y);
    NumberNonneg(c);
    LastStart();
    if y < MAX_YEAR { YearsApart(y, MAX_YEAR); }
    MakeExact(d, c);
  }

  lemma LastStart()
    ensures YearStart(MAX_YEAR) < SIZE - 300
  {
  }

  /** The mode bits: Monday first, week in range 1 to 53, first weekday; the last is
      inverted when weeks start on Sunday (`check_week_mode`). */
  predicate Bit(mode: nat, k: nat)
    requires k == 1 || k == 2 || k == 4 || k == 8
  {
    (mode / k) % 2 == 1
  }

  function RuleOf(mode: nat): Rule {
    if Bit(mode, 4) == Bit(mode, 1) then FirstWeekday else FourDays
  }

  /** What `toYearWeek` promises for each mode. */
  ghost predicate IsYearWeek(i: nat, mode: nat, y: int, week: int) {
    var mondayFirst := Bit(mode, 1);
    if Bit(mode, 8) then InWeekYear(i, mondayFirst, NewYearDay, y, week)
    else if Bit(mode, 2) then InWeekYear(i, mondayFirst, RuleOf(mode), y, week)
    else
      var one := WeekOne(CivilAt(i).year, mondayFirst, RuleOf(mode));
      y == CivilAt(i).year && week == if i < one then 0 else (i - one) / 7 + 1
  }

  /** The weekday conventions and the table's Monday-is-1 agree. */
  lemma WeekdayForms(i: int)
    ensures 0 <= Weekday(i, true) < 7 && 0 <= Weekday(i, false) < 7
    ensures DayOfWeek(i) == Weekday(i, true) + 1 && DayOfWeek(i + 1) == Weekday(i, false) + 1
    ensures Weekday(i, false) == if DayOfWeek(i) == 7 then 0 else DayOfWeek(i)
  {
  }

  lemma Entry(d: DateLUT, i: int)
    requires d.Valid() && 0 <= i < SIZE
    ensures d.lut.Length == SIZE && d.lut[i].dayOfWeek == DayOfWeek(i)
    ensures d.lut[i].year == CivilAt(i).year && d.lut[i].month == CivilAt(i).month
    ensures d.lut[i].dayOfMonth == CivilAt(i).day
  {
    hide CivilAt, DayOfWeek;
  }

  /** The first day of the week of an entry, as a day number for weeks that start on Monday. */
  method WeekStart(d: DateLUT, j: int, mondayFirst: bool) returns (day: int)
    requires d.Valid() && 0 <= j < SIZE
    ensures day == Mask(j - Weekday(j, mondayFirst)) - (if mondayFirst then EPOCH else 0)
  {
    hide DateLUT.Valid, DayOfWeek, Weekday;
    Entry(d, j);
    WeekdayForms(j);
    if mondayFirst {
      day := Mask(j - (d.lut[j].dayOfWeek - 1)) - EPOCH;
    } else if d.lut[j].dayOfWeek != 7 {
      day := Mask(j - d.lut[j].dayOfWeek);
    } else {
      day := j;
    }
  }

  /** `toYearWeekOfNewyearMode`; the last day of the table is a Sunday, and the week that
      starts there has no last day in the table. */
  method ToYearWeekOfNewyearMode(d: DateLUT, i: nat, mondayFirst: bool) returns (year: int, week: int)
    requires d.Valid() && i < SIZE
    ensures InWeekYear(i, mondayFirst, NewYearDay, year, week) <==> mondayFirst || i < SIZE - 1
  {
    hide CivilAt, YearStart, Leap, DateLUT.MakeLUTIndex, DateLUT.Valid, DayOfWeek, Weekday, Mask, InWeekYear, WeekOne;
    WeekdayForms(i);
    WeekEnds(i);
    Entry(d, i);
    var offsetDay := if mondayFirst then 0 else 1;
    Entry(d, Mask(i + offsetDay));
    var last := Mask(i + 7 - d.lut[Mask(i + offsetDay)].dayOfWeek);
    Entry(d, last);
    year := d.lut[last].year;
    YearInTable(last);
    YearOf(last, year);
    FirstIndex(d, year);
    var firstDay: int := d.MakeLUTIndex(year, 1, 1);
    ghost var one, start := WeekOne(year, mondayFirst, NewYearDay), i - Weekday(i, mondayFirst);
    NewYearOne(year, mondayFirst);
    firstDay := WeekStart(d, firstDay, mondayFirst);
    var thisDay := WeekStart(d, i, mondayFirst);
    week := Mask(thisDay - firstDay) / 7 + 1;
    MaskMinus(start, one);
    assert Mask(thisDay - firstDay) == Mask(start - one);
    if mondayFirst || i < SIZE - 1 {
      NewYearWeek(i, mondayFirst, year);
    } else {
      MaskWraps();
      LastSunday(year, week, last);
    }
  }

  lemma MaskWraps()
    ensures Mask(SIZE) == 0
  {
  }

  lemma NewYearOne(y: int, mondayFirst: bool)
    ensures WeekOne(y, mondayFirst, NewYearDay) == YearStart(y) - Weekday(YearStart(y), mondayFirst)
  {
    hide YearStart, Weekday;
  }

  /** Past the end the lookup wraps to January 1925. */
  lemma LastSunday(year: int, week: int, last: int)
    requires last == Mask(SIZE - 1 + 7 - DayOfWeek(0)) && year == CivilAt(last).year
    ensures !InWeekYear(SIZE - 1, false, NewYearDay, year, week)
  {
    hide CivilAt, YearStart, WeekOne;
    assert last == 2;
    YearOf(2, MIN_YEAR);
    EpochStart();
    FirstYear();
    WeekOneBounds(1926, false, NewYearDay);
  }

  /** A week belongs to the year of its last day. */
  lemma NewYearWeek(i: int, mondayFirst: bool, y: int)
    requires YearStart(y) <= i + 6 - Weekday(i, mondayFirst) < YearStart(y + 1)
    ensures var days := i - Weekday(i, mondayFirst) - WeekOne(y, mondayFirst, NewYearDay);
      Mask(days) == days && InWeekYear(i, mondayFirst, NewYearDay, y, days / 7 + 1)
  {
    hide YearStart, Leap;
    SameWeek(i, YearStart(y), mondayFirst);
    SameWeek(i, YearStart(y + 1), mondayFirst);
    NextYear(y);
  }

  /** Week starts are whole weeks apart. */
  lemma SameWeek(a: int, b: int, mondayFirst: bool)
    ensures ((a - Weekday(a, mondayFirst)) - (b - Weekday(b, mondayFirst))) % 7 == 0
  {
  }

  lemma FirstYear()
    ensures YearStart(1926) == 365
  {
  }

  lemma FirstIndex(d: DateLUT, y: int)
    requires d.Valid() && MIN_YEAR <= y <= MAX_YEAR
    ensures d.MakeLUTIndex(y, 1, 1) == YearStart(y)
  {
    hide YearStart, Leap, DateLUT.MakeLUTIndex;
    DayNumOf(d, y);
  }

  /** The test for the week of 1 January. */
  lemma EarlyWeek(i: nat, y: int, weekday: int)
    requires CivilAt(i).year == y && 0 <= weekday < 7
    ensures CivilAt(i).month == 1 && CivilAt(i).day <= 7 - weekday <==> i < YearStart(y) - weekday + 7
  {
    hide CivilAt, YearStart, Leap;
    CivilAtNumber(i);
    var c := CivilAt(i);
    JanuaryFirst(y);
    if c.month > 1 {
      MonthsApart(y, 1, c.month);
    }
  }

  /** The days of the last week decide by the weekday of the next 1 January. */
  lemma Decide(i: int, mondayFirst: bool, rule: Rule, y: int)
    requires !rule.NewYearDay? && WeekOne(y, mondayFirst, rule) <= i
    requires i < YearStart(y + 1) - Weekday(YearStart(y + 1), mondayFirst) + 7
    ensures var weekday, days := Weekday(YearStart(y + 1), mondayFirst), i - WeekOne(y, mondayFirst, rule);
      if days >= 52 * 7 && !Postponed(weekday, rule) then InWeekYear(i, mondayFirst, rule, y + 1, 1)
      else InWeekYear(i, mondayFirst, rule, y, days / 7 + 1)
  {
    hide YearStart, WeekOne, Weekday, Postponed;
    NextWeekOne(y, mondayFirst, rule);
    NextWeekOne(y + 1, mondayFirst, rule);
  }

  lemma WeekdayMoves(n: int, k: int, mondayFirst: bool)
    ensures Weekday(n + k, mondayFirst) == (Weekday(n, mondayFirst) + k) % 7
    ensures Weekday(n - k, mondayFirst) == (Weekday(n, mondayFirst) + 53 * 7 - k) % 7
  {
  }

  lemma YearLength(y: int)
    requires y > 0
    ensures CalcDaysInYear(y) == YearDays(y) && YearStart(y + 1) == YearStart(y) + YearDays(y)
  {
    NextYear(y);
  }

  /** After the week of 1 January a day is at or past week one. */
  lemma Late(i: int, mondayFirst: bool, rule: Rule, y: int)
    requires YearStart(y) - Weekday(YearStart(y), mondayFirst) + 7 <= i < YearStart(y + 1)
    ensures WeekOne(y, mondayFirst, rule) <= i < YearStart(y + 1) - Weekday(YearStart(y + 1), mondayFirst) + 7
  {
    hide YearStart;
  }

  /** In the week of 1 January a day is past week one of the year before, and in week
      one of its own year unless that is postponed. */
  lemma Early(i: int, mondayFirst: bool, rule: Rule, y: int)
    requires !rule.NewYearDay?
    requires YearStart(y) <= i < YearStart(y) - Weekday(YearStart(y), mondayFirst) + 7
    ensures WeekOne(y - 1, mondayFirst, rule) <= i
    ensures Postponed(Weekday(YearStart(y), mondayFirst), rule) ==> i < WeekOne(y, mondayFirst, rule)
    ensures !Postponed(Weekday(YearStart(y), mondayFirst), rule) ==>
              WeekOne(y, mondayFirst, rule) <= i && InWeekYear(i, mondayFirst, rule, y, 1)
  {
    hide YearStart, Leap;
    NextYear(y - 1);
    WeekOneBounds(y - 1, mondayFirst, rule);
    NextWeekOne(y, mondayFirst, rule);
  }

  /** The end of `toYearWeek`: the days since week one of a year, and whether they reach the next. */
  method FinishWeek(daynr: int, firstDaynr: int, weekday: int, firstWeekdayMode: bool, weekYearMode: bool, y: int,
                    ghost i: int, ghost mondayFirst: bool) returns (year: int, week: int)
    requires y > 0 && daynr == i - EPOCH && firstDaynr == YearStart(y) - EPOCH
    requires weekday == Weekday(YearStart(y), mondayFirst)
    requires var rule := if firstWeekdayMode then FirstWeekday else FourDays;
      WeekOne(y, mondayFirst, rule) <= i < YearStart(y + 1) - Weekday(YearStart(y + 1), mondayFirst) + 7
    ensures var rule := if firstWeekdayMode then FirstWeekday else FourDays;
      if weekYearMode then InWeekYear(i, mondayFirst, rule, year, week)
      else year == y && week == (i - WeekOne(y, mondayFirst, rule)) / 7 + 1
  {
    hide YearStart, Leap, Weekday, InWeekYear, CalcDaysInYear;
    Decide(i, mondayFirst, if firstWeekdayMode then FirstWeekday else FourDays, y);
    YearLength(y);
    WeekdayMoves(YearStart(y), YearDays(y), mondayFirst);
    year := y;
    var days: nat;
    if (firstWeekdayMode && weekday != 0) || (!firstWeekdayMode && weekday >= 4) {
      days := daynr - (firstDaynr + (7 - weekday));
    } else {
      days := daynr - (firstDaynr - weekday);
    }
    if weekYearMode && days >= 52 * 7 {
      var next := (weekday + CalcDaysInYear(year)) % 7;
      if (!firstWeekdayMode && next < 4) || (firstWeekdayMode && next == 0) {
        return year + 1, 1;
      }
    }
    week := days / 7 + 1;
  }

  lemma DayNums(d: DateLUT, i: nat)
    requires d.Valid() && i < SIZE
    ensures MakeDayNum(d, CivilAt(i).year, CivilAt(i).month, CivilAt(i).day) == i - EPOCH
  {
    hide CivilAt, YearStart, MonthOffset, Leap, DateLUT.MakeLUTIndex;
    CivilAtNumber(i);
    YearInTable(i);
    MakeExact(d, CivilAt(i));
  }

  /** `toYearWeek` */
  method ToYearWeek(d: DateLUT, i: nat, mode: nat) returns (year: int, week: int)
    requires d.Valid() && i < SIZE && mode < 256
    ensures IsYearWeek(i, mode, year, week) <==> !(Bit(mode, 8) && !Bit(mode, 1) && i == SIZE - 1)
  {
    hide CivilAt, YearStart, Leap, DateLUT.MakeLUTIndex, DateLUT.Valid, DayOfWeek, Weekday, Mask, InWeekYear, YearDays,
         CalcDaysInYear, MakeDayNum, CalcWeekday, WeekOne, Bit;
    var newyearDayMode := Bit(mode, 8);
    var mondayFirst := Bit(mode, 1);
    var weekYearMode := Bit(mode, 2);
    var firstWeekdayMode := if mondayFirst then Bit(mode, 4) else !Bit(mode, 4);
    if newyearDayMode {
      year, week := ToYearWeekOfNewyearMode(d, i, mondayFirst);
      return;
    }
    ghost var rule, y0 := RuleOf(mode), CivilAt(i).year;
    Entry(d, i);
    YearInTable(i);
    YearOf(i, y0);
    year, week := d.lut[i].year, 0;
    DayNums(d, i);
    DayNumOf(d, year);
    var daynr := MakeDayNum(d, year, d.lut[i].month, d.lut[i].dayOfMonth);
    var firstDaynr := MakeDayNum(d, year, 1, 1);
    var weekday := CalcWeekday(d, firstDaynr, !mondayFirst);
    WeekdayForms(YearStart(year));
    EarlyWeek(i, year, weekday);
    if d.lut[i].month == 1 && d.lut[i].dayOfMonth <= 7 - weekday {
      Early(i, mondayFirst, rule, y0);
      if !weekYearMode && ((firstWeekdayMode && weekday != 0) || (!firstWeekdayMode && weekday >= 4)) {
        return;
      }
      var days := CalcDaysInYear(year - 1);
      YearLength(year - 1);
      WeekdayMoves(YearStart(year), days, mondayFirst);
      year, week := FinishWeek(daynr, firstDaynr - days, (weekday + 53 * 7 - days) % 7, firstWeekdayMode, true,
                               year - 1, i, mondayFirst);
      if !weekYearMode {
        InWeekYearUnique(i, mondayFirst, rule, year, week, y0, 1);
        FirstWeekOf(i, mondayFirst, rule, y0);
      }
    } else {
      Late(i, mondayFirst, rule, y0);
      year, week := FinishWeek(daynr, firstDaynr, weekday, firstWeekdayMode, weekYearMode, year, i, mondayFirst);
    }
  }

  lemma FirstWeekOf(i: int, mondayFirst: bool, rule: Rule, y: int)
    requires InWeekYear(i, mondayFirst, rule, y, 1)
    ensures WeekOne(y, mondayFirst, rule) <= i && (i - WeekOne(y, mondayFirst, rule)) / 7 + 1 == 1
  {
    hide WeekOne;
  }

  // ---- the ISO 8601 functions ----

  /** `toISOYear`: the year of the Thursday of the same week. */
  function ToISOYear(d: DateLUT, i: int): int
    requires d.Valid() && 0 <= i < SIZE
    reads d.lut, d.yearsLut, d.yearsMonthsLut
  {
    d.lut[Mask(Mask(i + 4) - d.lut[i].dayOfWeek)].year
  }

  /** `toFirstDayNumOfISOYearIndex` */
  function ToFirstDayOfISOYearIndex(d: DateLUT, i: int): int
    requires d.Valid() && 0 <= i < SIZE
    reads d.lut, d.yearsLut, d.yearsMonthsLut
  {
    var isoYear := ToISOYear(d, i);
    YearInTable(Mask(Mask(i + 4) - d.lut[i].dayOfWeek));
    var firstDayOfYear := d.yearsLut[isoYear - MIN_YEAR];
    DayNumOf(d, isoYear);
    var firstDayOfWeekOfYear := d.lut[firstDayOfYear].dayOfWeek;
    if firstDayOfWeekOfYear <= 4 then Mask(Mask(firstDayOfYear + 1) - firstDayOfWeekOfYear)
    else Mask(Mask(firstDayOfYear + 8) - firstDayOfWeekOfYear)
  }

  /** `toISOWeek`: signed division truncates, and the result is unsigned. */
  function ToISOWeek(d: DateLUT, i: int): int
    requires d.Valid() && 0 <= i < SIZE
    reads d.lut, d.yearsLut, d.yearsMonthsLut
  {
    var days := Mask(i - (d.lut[i].dayOfWeek - 1)) - ToFirstDayOfISOYearIndex(d, i);
    (1 + (if days >= 0 then days / 7 else -(-days / 7))) % 0x1_0000_0000
  }

  function Thursday(i: int): int {
    i + 4 - DayOfWeek(i)
  }

  /** The first-Thursday rule: the year of a week is that of its Thursday, and week n
      of a year is the one with the n-th Thursday. */
  lemma FirstThursday(i: int, y: int, week: int)
    requires Thursday(i) >= 0 && MIN_YEAR <= y
    ensures InWeekYear(i, true, FourDays, y, week)
       <==> CivilAt(Thursday(i)).year == y && week == (Thursday(i) - YearStart(y)) / 7 + 1
  {
    hide CivilAt, YearStart, WeekOne;
    YearOf(Thursday(i), y);
    ThursdaySide(i, y);
    ThursdaySide(i, y + 1);
    WholeWeeks(i, y);
  }

  /** A day is past the start of a week year when its Thursday is past 1 January. */
  lemma ThursdaySide(i: int, y: int)
    ensures WeekOne(y, true, FourDays) <= i <==> YearStart(y) <= Thursday(i)
  {
    hide YearStart;
    SameWeek(i, YearStart(y), true);
  }

  lemma WholeWeeks(i: int, y: int)
    ensures WeekOne(y, true, FourDays) <= i ==>
              (i - WeekOne(y, true, FourDays)) / 7 == (Thursday(i) - YearStart(y)) / 7
  {
    hide YearStart;
    WeekOneBounds(y, true, FourDays);
    SameWeek(i, YearStart(y), true);
  }

  /** `toISOYear` is the year of the Thursday on every day of the table; it is 1925 up to
      3 January 1926. */
  lemma ISOYearExact(d: DateLUT, i: int)
    requires d.Valid() && 0 <= i < SIZE
    ensures 0 <= Thursday(i) < SIZE && ToISOYear(d, i) == CivilAt(Thursday(i)).year
    ensures MIN_YEAR <= ToISOYear(d, i) <= MAX_YEAR
    ensures ToISOYear(d, i) == MIN_YEAR <==> i < 368
  {
    hide CivilAt, YearStart, Leap, DayOfWeek, Mask, DateLUT.Valid;
    WeekdayForms(i);
    WeekEnds(i);
    Entry(d, i);
    EarlyThursday(i);
    var t := Thursday(i);
    MaskMinus(i + 4, DayOfWeek(i));
    Entry(d, t);
    YearInTable(t);
    YearOf(t, MIN_YEAR);
    FirstYear();
    assert YearStart(MIN_YEAR) == 0 by { EpochStart(); }
  }

  lemma EpochStart()
    ensures YearStart(MIN_YEAR) == 0
  {
  }

  lemma EarlyThursday(i: int)
    ensures Thursday(i) < 365 <==> i < 368
  {
  }

  /** The start of the ISO year, except that the one of 1925 lies before the table. */
  lemma ISOYearStart(d: DateLUT, i: int)
    requires d.Valid() && 0 <= i < SIZE
    ensures ToFirstDayOfISOYearIndex(d, i) == Mask(WeekOne(ToISOYear(d, i), true, FourDays))
    ensures ToISOYear(d, i) > MIN_YEAR ==> 365 <= WeekOne(ToISOYear(d, i), true, FourDays) + 3 < SIZE
  {
    hide CivilAt, YearStart, Leap, DayOfWeek, DateLUT.Valid, ToISOYear, Weekday;
    ISOYearExact(d, i);
    var y := ToISOYear(d, i);
    var start := YearStart(y);
    DayNumOf(d, y);
    YearEntry(d, y);
    Entry(d, start);
    WeekdayForms(start);
    WeekOneBounds(y, true, FourDays);
    if y > MIN_YEAR {
      FirstYear();
      if y > 1926 { YearsApart(1926, y); }
    }
  }

  lemma YearEntry(d: DateLUT, y: int)
    requires d.Valid() && MIN_YEAR <= y <= MAX_YEAR
    ensures d.yearsLut.Length == YEARS && d.yearsLut[y - MIN_YEAR] == YearStart(y)
  {
    hide YearStart;
  }

  /** The ISO functions give the week of the first-Thursday rule exactly on the first four days
      of the table, which share the wrapped start of their week, and from 4 January 1926 on. */
  lemma ISOWeekExact(d: DateLUT, i: int)
    requires d.Valid() && 0 <= i < SIZE
    ensures InWeekYear(i, true, FourDays, ToISOYear(d, i), ToISOWeek(d, i)) <==> i < 4 || i >= 368
  {
    hide CivilAt, YearStart, Leap, DayOfWeek, DateLUT.Valid, ToISOYear, ToFirstDayOfISOYearIndex, WeekOne, InWeekYear,
         Weekday;
    ISOYearExact(d, i);
    ISOYearStart(d, i);
    Entry(d, i);
    WeekdayForms(i);
    WeekEnds(i);
    var y := ToISOYear(d, i);
    ISOInside(i, y);
    if i < 368 {
      InWeekOf1925(i);
      if InWeekYear(i, true, FourDays, y, ToISOWeek(d, i)) {
        InWeekYearUnique(i, true, FourDays, y, ToISOWeek(d, i), MIN_YEAR, (i + 3) / 7 + 1);
      }
    }
  }

  lemma ISOInside(i: int, y: int)
    requires Thursday(i) >= 0 && CivilAt(Thursday(i)).year == y && MIN_YEAR <= y
    ensures var days := i - Weekday(i, true) - WeekOne(y, true, FourDays);
      0 <= days <= 371 && InWeekYear(i, true, FourDays, y, days / 7 + 1)
  {
    hide CivilAt, YearStart, WeekOne, Weekday, Thursday;
    FirstThursday(i, y, (Thursday(i) - YearStart(y)) / 7 + 1);
    WeekOneBounds(y, true, FourDays);
    RoundDown(i, WeekOne(y, true, FourDays));
    NextWeekOne(y, true, FourDays);
  }

  lemma RoundDown(i: int, one: int)
    requires Weekday(one, true) == 0 && one <= i
    ensures 0 <= i - Weekday(i, true) - one <= i - one
    ensures (i - Weekday(i, true) - one) / 7 == (i - one) / 7
  {
  }

  /** The ISO year 1925 starts on 29 December 1924, before the table. */
  lemma InWeekOf1925(i: int)
    requires 0 <= i < 368
    ensures WeekOne(MIN_YEAR, true, FourDays) == -3
    ensures InWeekYear(i, true, FourDays, MIN_YEAR, (i + 3) / 7 + 1)
    ensures if i < 4 then i - Weekday(i, true) == -3 else 4 <= i - Weekday(i, true) <= 361
  {
  }

  /** On 1 to 3 January 1926 the masked start of the year makes the week number meaningless. */
  lemma ISOWeekFails(d: DateLUT, i: int)
    requires d.Valid() && 365 <= i < 368
    ensures ToISOYear(d, i) == MIN_YEAR && ToISOWeek(d, i) == 4294948625
  {
    hide CivilAt, Leap, DateLUT.Valid, ToISOYear, ToFirstDayOfISOYearIndex;
    ISOYearExact(d, i);
    ISOYearStart(d, i);
    Entry(d, i);
    InWeekOf1925(i);
    assert i + 1 - DayOfWeek(i) == 361;
  }

  /** A year and week that `toYearWeek` may return in mode 3 are those of the ISO functions
      exactly on the same days. */
  lemma ModeThreeAgrees(d: DateLUT, i: nat, year: int, week: int)
    requires d.Valid() && i < SIZE && IsYearWeek(i, 3, year, week)
    ensures year == ToISOYear(d, i) && week == ToISOWeek(d, i) <==> i < 4 || i >= 368
  {
    hide CivilAt, YearStart, DateLUT.Valid, ToISOYear, ToISOWeek, InWeekYear;
    ISOWeekExact(d, i);
    if i < 4 || i >= 368 {
      InWeekYearUnique(i, true, FourDays, year, week, ToISOYear(d, i), ToISOWeek(d, i));
    }
  }
}
