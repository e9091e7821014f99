/** The table of week modes in the function reference, and what `toYearWeek` has to do with it. */
module WeekModes {
  import opened Arithmetic
  import opened Gregorian
  import opened DateLut
  import opened Weeks

  // ---- the table ----

  /** Which week of a year is its first. */
  datatype FirstWeek = WithFirstDay | WithFourDays | WithNewYear

  /** A line: weeks start on Sunday or Monday, and are counted from 0 within the calendar year or
      from 1 within a year of whole weeks. */
  datatype Line = Line(sunday: bool, fromZero: bool, first: FirstWeek)

  function Table(mode: nat): Line
    requires mode < 10
  {
    match mode
    case 0 => Line(true, true, WithFirstDay)
    case 1 => Line(false, true, WithFourDays)
    case 2 => Line(true, false, WithFirstDay)
    case 3 => Line(false, false, WithFourDays)
    case 4 => Line(true, true, WithFourDays)
    case 5 => Line(false, true, WithFirstDay)
    case 6 => Line(true, false, WithFourDays)
    case 7 => Line(false, false, WithFirstDay)
    case 8 => Line(true, false, WithNewYear)
    case _ => Line(false, false, WithNewYear)
  }

  predicate StartsWeek(n: int, sunday: bool) {
    DayOfWeek(n) == if sunday then 7 else 1
  }

  predicate InYear(n: int, y: int) {
    YearStart(y) <= n < YearStart(y + 1)
  }

  /** The days of the week from s that lie in year y. */
  ghost function DaysIn(s: int, y: int): set<int> {
    set n: int | s <= n < s + 7 && InYear(n, y)
  }

  ghost predicate Qualifies(s: int, y: int, first: FirstWeek) {
    match first
    case WithFirstDay => InYear(s, y)
    case WithFourDays => |DaysIn(s, y)| >= 4
    case WithNewYear => s <= YearStart(y) < s + 7
  }

  /** The first week that qualifies. */
  ghost predicate IsWeekOne(one: int, y: int, sunday: bool, first: FirstWeek) {
    && StartsWeek(one, sunday) && Qualifies(one, y, first)
    && forall s: int | s < one && StartsWeek(s, sunday) :: !Qualifies(s, y, first)
  }

  /** Year and week of day i, when week one starts on these days in year y and the next. */
  predicate Numbered(i: nat, fromZero: bool, y: int, week: int, one: int, next: int) {
    if fromZero then y == CivilAt(i).year && week == (if i < one then 0 else (i - one) / 7 + 1)
    else one <= i < next && week == (i - one) / 7 + 1
  }

  ghost predicate Documented(i: nat, line: Line, y: int, week: int) {
    exists one: int, next: int ::
      && IsWeekOne(one, y, line.sunday, line.first) && IsWeekOne(next, y + 1, line.sunday, line.first)
      && Numbered(i, line.fromZero, y, week, one, next)
  }

  // ---- the first week ----

  function RuleFor(first: FirstWeek): Rule {
    match first
    case WithFirstDay => FirstWeekday
    case WithFourDays => FourDays
    case WithNewYear => NewYearDay
  }

  lemma StartsAre(n: int, sunday: bool)
    ensures StartsWeek(n, sunday) <==> Weekday(n, !sunday) == 0
  {
  }

  /** How many days of the week from s lie in year y, when s is less than a week away from its start. */
  lemma DaysInSize(s: int, y: int)
    requires YearStart(y) - 7 <= s <= YearStart(y) + 7
    ensures |DaysIn(s, y)| == if s < YearStart(y) then s + 7 - YearStart(y) else 7
  {
    hide YearStart, Leap;
    NextYear(y);
    var lo := if s < YearStart(y) then YearStart(y) else s;
    IntervalOf(lo, s + 7);
    assert DaysIn(s, y) == Span(lo, s + 7);
  }

  predicate Inside(n: int, lo: int, hi: int) {
    lo <= n < hi
  }

  ghost function Span(lo: int, hi: int): set<int> {
    set n: int | lo <= n < hi && Inside(n, lo, hi)
  }

  lemma {:induction false} IntervalOf(lo: int, hi: int)
    requires lo <= hi
    ensures |Span(lo, hi)| == hi - lo
    decreases hi - lo
  {
    if lo == hi {
      assert Span(lo, hi) == {};
    } else {
      IntervalOf(lo, hi - 1);
      assert Span(lo, hi) == Span(lo, hi - 1) + {hi - 1};
    }
  }

  /** Weeks that end before the year do not qualify. */
  lemma TooEarly(s: int, y: int, first: FirstWeek)
    requires s + 7 <= YearStart(y)
    ensures !Qualifies(s, y, first)
  {
    hide YearStart;
    assert DaysIn(s, y) == {};
  }

  /** Of the two weeks around 1 January, the later qualifies, and the earlier by the rule. */
  lemma AroundNewYear(s: int, y: int, first: FirstWeek)
    requires YearStart(y) - 7 < s <= YearStart(y) + 6
    ensures first.WithFirstDay? ==> (Qualifies(s, y, first) <==> s >= YearStart(y))
    ensures first.WithFourDays? ==> (Qualifies(s, y, first) <==> s >= YearStart(y) - 3)
    ensures first.WithNewYear? ==> (Qualifies(s, y, first) <==> s <= YearStart(y))
  {
    hide YearStart, Leap;
    NextYear(y);
    DaysInSize(s, y);
  }

  lemma WeekOneQualifies(y: int, sunday: bool, first: FirstWeek)
    ensures IsWeekOne(WeekOne(y, !sunday, RuleFor(first)), y, sunday, first)
  {
    hide YearStart, Qualifies;
    var one, start := WeekOne(y, !sunday, RuleFor(first)), YearStart(y);
    StartsAre(one, sunday);
    WeekOneBounds(y, !sunday, RuleFor(first));
    AroundNewYear(one, y, first);
    forall s: int | s < one && StartsWeek(s, sunday)
      ensures !Qualifies(s, y, first)
    {
      StartsAre(s, sunday);
      WholeWeekApart(s, one, !sunday);
      if s + 7 <= start {
        TooEarly(s, y, first);
      } else {
        AroundNewYear(s, y, first);
      }
    }
  }

  lemma WholeWeekApart(s: int, one: int, mondayFirst: bool)
    requires s < one && Weekday(s, mondayFirst) == 0 == Weekday(one, mondayFirst)
    ensures s + 7 <= one
  {
  }

  /** The first week of the table is the one `WeekOne` gives, and no other. */
  lemma WeekOneIs(one: int, y: int, sunday: bool, first: FirstWeek)
    ensures IsWeekOne(one, y, sunday, first) <==> one == WeekOne(y, !sunday, RuleFor(first))
  {
    hide YearStart, Qualifies, WeekOne;
    WeekOneQualifies(y, sunday, first);
  }

  // ---- the modes ----

  lemma ModeBits(mode: nat)
    requires mode < 10
    ensures Table(mode).sunday == !Bit(mode, 1) && Table(mode).first.WithNewYear? == Bit(mode, 8)
    ensures !Bit(mode, 8) ==> Table(mode).fromZero == !Bit(mode, 2) && RuleFor(Table(mode).first) == RuleOf(mode)
    ensures Bit(mode, 8) ==> !Table(mode).fromZero
  {
  }

  /** What `toYearWeek` returns is what the table says, for every mode in it. */
  lemma ModesDocumented(i: nat, mode: nat, y: int, week: int)
    requires mode < 10
    ensures IsYearWeek(i, mode, y, week) <==> Documented(i, Table(mode), y, week)
  {
    hide YearStart, WeekOne, CivilAt, IsWeekOne, Bit, RuleOf, Table;
    ModeBits(mode);
    var line := Table(mode);
    var one, next := WeekOne(y, !line.sunday, RuleFor(line.first)), WeekOne(y + 1, !line.sunday, RuleFor(line.first));
    if Numbered(i, line.fromZero, y, week, one, next) {
      WeekOneIs(one, y, line.sunday, line.first);
      WeekOneIs(next, y + 1, line.sunday, line.first);
    }
    if Documented(i, line, y, week) {
      var one', next' :| IsWeekOne(one', y, line.sunday, line.first)
                         && IsWeekOne(next', y + 1, line.sunday, line.first)
                         && Numbered(i, line.fromZero, y, week, one', next');
      WeekOneIs(one', y, line.sunday, line.first);
      WeekOneIs(next', y + 1, line.sunday, line.first);
    }
  }

  // ---- counting Sundays and Mondays ----

  /** The days from lo up to i on which a week starts. */
  ghost function Starts(lo: int, i: int, sunday: bool): set<int> {
    set n: int | lo <= n <= i && StartsWeek(n, sunday)
  }

  lemma {:induction false} StartsSize(lo: int, one: int, i: int, sunday: bool)
    requires lo <= one <= lo + 6 && Weekday(one, !sunday) == 0 && lo - 1 <= i
    ensures |Starts(lo, i, sunday)| == if i < one then 0 else (i - one) / 7 + 1
    decreases i - lo
  {
    hide StartsWeek, Weekday;
    if i < lo {
      assert Starts(lo, i, sunday) == {};
    } else {
      StartsSize(lo, one, i - 1, sunday);
      StartsAre(i, sunday);
      SevenApart(lo, one, i, !sunday);
      var before := Starts(lo, i - 1, sunday);
      assert Starts(lo, i, sunday) == if StartsWeek(i, sunday) then before + {i} else before;
    }
  }

  lemma SevenApart(lo: int, one: int, i: int, mondayFirst: bool)
    requires lo <= one <= lo + 6 && lo <= i && Weekday(one, mondayFirst) == 0
    ensures i < one ==> Weekday(i, mondayFirst) != 0
    ensures i == one ==> Weekday(i, mondayFirst) == 0
    ensures one < i ==> (i - one) / 7 == (i - 1 - one) / 7 + if Weekday(i, mondayFirst) == 0 then 1 else 0
  {
  }

  /** Mode 0 counts the Sundays since 1 January, mode 5 the Mondays. */
  lemma CountedDays(i: nat, y: int, week: int)
    ensures IsYearWeek(i, 0, y, week) <==> y == CivilAt(i).year && week == |Starts(YearStart(y), i, true)|
    ensures IsYearWeek(i, 5, y, week) <==> y == CivilAt(i).year && week == |Starts(YearStart(y), i, false)|
  {
    hide YearStart, WeekOne, CivilAt, Weekday;
    YearOf(i, y);
    WeekOneBounds(y, false, FirstWeekday);
    WeekOneBounds(y, true, FirstWeekday);
    if y == CivilAt(i).year {
      StartsSize(YearStart(y), WeekOne(y, false, FirstWeekday), i, true);
      StartsSize(YearStart(y), WeekOne(y, true, FirstWeekday), i, false);
    }
  }

  // ---- days whose weekday and week are known ----

  lemma KnownDays()
    ensures DayNumber(Civil(1970, 1, 1)) == EPOCH && DayOfWeek(EPOCH) == 4
    ensures DayOfWeek(DayNumber(Civil(2000, 1, 1))) == 6
    ensures DayOfWeek(DayNumber(Civil(2020, 1, 1))) == 3
  {
  }

  lemma KnownStarts()
    ensures YearStart(2016) == 33237 && YearStart(2017) == 33603 && YearStart(2018) == 33968
    ensures YearStart(2020) == 34698 && DayNumber(Civil(2016, 12, 27)) == 33598
    ensures DayNumber(Civil(2020, 1, 1)) == 34698
  {
  }

  /** The example of the function reference, 27 December 2016. */
  lemma KnownWeeks()
    ensures DayNumber(Civil(2016, 12, 27)) == 33598
    ensures IsYearWeek(33598, 0, 2016, 52) && IsYearWeek(33598, 1, 2016, 52)
    ensures IsYearWeek(33598, 9, 2017, 1)
  {
    hide CivilAt, YearStart, DayNumber;
    KnownStarts();
    CivilAtDate(Civil(2016, 12, 27));
  }

  /** A Wednesday 1 January: week 0 in the default mode, week 1 by the four-day rule. */
  lemma KnownNewYear()
    ensures DayNumber(Civil(2020, 1, 1)) == 34698
    ensures IsYearWeek(34698, 0, 2020, 0) && IsYearWeek(34698, 1, 2020, 1)
  {
    hide CivilAt, YearStart, DayNumber;
    KnownStarts();
    CivilAtDate(Civil(2020, 1, 1));
  }
}
