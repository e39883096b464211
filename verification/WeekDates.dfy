/** ISO week dates as to_stream computes them for %G and %V. ISO 8601:2004, section 3.2.2: a week begins
    on Monday and belongs to the year of its Thursday. */
module WeekDates {
  import opened MachineInts
  import opened Gregorian
  import opened Weekdays
  import opened Wrappers

  // ---- What the week fields mean

  function MondayOf(z: int): int {
    z - (if DayOfWeek(z) == SUNDAY then 6 else DayOfWeek(z) - 1)
  }

  function ThursdayOf(z: int): int {
    MondayOf(z) + 3
  }

  predicate IsIsoYear(z: int, g: int) {
    DaysBeforeYear(g) <= ThursdayOf(z) < DaysBeforeYear(g + 1)
  }

  /** The year of the Thursday in the week of `x`. */
  function IsoYear(x: Date): int {
    if ThursdayOf(ToDays(x)) < DaysBeforeYear(x.year) then x.year - 1
    else if ThursdayOf(ToDays(x)) < DaysBeforeYear(x.year + 1) then x.year
    else x.year + 1
  }

  /** The number of days from `lo` up to but not including `hi` that fall on the weekday */
  function CountDays(wd: int, lo: int, hi: int): nat
    decreases hi - lo
  {
    if hi <= lo then 0 else CountDays(wd, lo, hi - 1) + if DayOfWeek(hi - 1) == wd then 1 else 0
  }

  /** The number of Thursdays of that year up to the week of `x`. */
  function IsoWeek(x: Date): nat {
    CountDays(THURSDAY, DaysBeforeYear(IsoYear(x)), ThursdayOf(ToDays(x)) + 1)
  }

  /** The number of days `first` in the year up to `x`; days before the first one are in week 0. */
  function WeekOfYear(x: Date, first: int): nat {
    CountDays(first, DaysBeforeYear(x.year), ToDays(x) + 1)
  }

  /** The valid dates whose ISO year is a valid year: all but the first two, which belong to the last
      week of the year before the first one. */
  predicate IsoDated(x: Date) {
    Ok(x) && FIRST_DAY + 2 <= ToDays(x)
  }

  function DaysSince(z: int, first: int): int {
    (DayOfWeek(z) - first) % 7
  }

  lemma {:induction false} DaysSinceStep(z: int, first: int)
    requires 0 <= first <= 6
    ensures 0 <= DaysSince(z, first) <= 6 && (DaysSince(z, first) == 0 <==> DayOfWeek(z) == first)
    ensures DaysSince(z, first) == if DayOfWeek(z) == first then 0 else DaysSince(z - 1, first) + 1
    ensures DayOfWeek(z) == first ==> DaysSince(z - 1, first) == 6
  {
    hide DayOfWeek;
    WeeksKeepDayOfWeek(z, 0);
    DayBefore(z);
    SmallResidue(DayOfWeek(z) - first);
    SmallResidue(DayOfWeek(z - 1) - first);
  }

  lemma {:induction false} DayBefore(z: int)
    ensures DayOfWeek(z - 1) == if DayOfWeek(z) == 0 then 6 else DayOfWeek(z) - 1
  {
    QuotientStep(z + 4, 7);
  }

  lemma {:induction false} SmallResidue(x: int)
    requires -7 < x < 7
    ensures x % 7 == if x < 0 then x + 7 else x
  {
  }

  /** Counting the days on a weekday one by one gives a division. */
  lemma {:induction false} CountDaysClosedForm(wd: int, lo: int, hi: int)
    requires lo <= hi && 0 <= wd <= 6
    ensures CountDays(wd, lo, hi) == (hi - lo + 6 - DaysSince(hi - 1, wd)) / 7
    decreases hi - lo
  {
    hide DaysSince, DayOfWeek;
    DaysSinceStep(hi - 1, wd);
    if lo < hi {
      CountDaysClosedForm(wd, lo, hi - 1);
      DaysSinceStep(hi - 2, wd);
    }
  }

  // ---- The start of the first ISO week

  /** The Monday after the last Thursday in December of the year before, which is stored as a short */
  function WeekOneStart(y: int): int {
    LastWeekday(ToShort(y - 1), 12, THURSDAY) + Difference(MONDAY, THURSDAY)
  }

  lemma {:induction false} WeekOneStartOfShort(y: int)
    ensures ToShort(ToShort(y) - 1) == ToShort(y - 1) && WeekOneStart(ToShort(y)) == WeekOneStart(y)
  {
    hide LastWeekday;
  }

  lemma {:induction false} MonthStartOfJanuary(y: short)
    ensures MonthStart(y, 1) == DaysBeforeYear(y)
  {
    hide ToDays, DaysBeforeYear;
    ToDaysCountsDays(Date(y, 1, 1));
  }

  lemma {:induction false} DecemberEnd(y: short)
    ensures MonthEnd(y, 12) == DaysBeforeYear(y + 1) - 1
  {
    hide ToDays, DaysBeforeYear, DaysBeforeMonth, IsLeap;
    ToDaysCountsDays(Date(y, 12, 31));
    YearSteps(y);
  }

  /** It is the Monday of the week that holds the first Thursday of the year. */
  lemma {:induction false} WeekOneStartCorrect(y: int)
    requires -0x8000 <= y - 1 < 0x8000
    ensures var s := WeekOneStart(y);
            DayOfWeek(s) == MONDAY && DaysBeforeYear(y) - 3 <= s <= DaysBeforeYear(y) + 3
  {
    hide ToShort, MonthEnd, DaysBeforeYear, FromDayCount, Difference, DayOfWeek;
    ShortIsIdentity(y - 1);
    DecemberEnd(y - 1);
    var d := MonthEnd(y - 1, 12);
    DifferenceBackward(THURSDAY, d);
    MondayAfterThursday(d - Difference(FromDayCount(d), THURSDAY));
  }

  lemma {:induction false} MondayAfterThursday(t: int)
    requires DayOfWeek(t) == THURSDAY
    ensures Difference(MONDAY, THURSDAY) == 4 && DayOfWeek(t + 4) == MONDAY
  {
  }

  lemma {:induction false} MondayOfIsMonday(z: int)
    ensures MondayOf(z) <= z <= MondayOf(z) + 6 && DayOfWeek(MondayOf(z)) == MONDAY
  {
    SameResidue(MondayOf(z) + 4, if DayOfWeek(z) == SUNDAY then 1 - 7 else 1, (z + 4) / 7);
  }

  // ---- Years of day counts

  lemma {:induction false} YearStep(y: int)
    ensures DaysBeforeYear(y + 1) == DaysBeforeYear(y) + YearLength(y)
  {
    hide IsLeap;
  }

  lemma {:induction false} YearLengthBounds(y: int)
    ensures 365 <= YearLength(y) <= 366
  {
  }

  lemma {:induction false} YearFound(z: int, y: int)
    requires YearOk(y) && DaysBeforeYear(y) <= z < DaysBeforeYear(y + 1)
    ensures FIRST_DAY <= z <= LAST_DAY && Countable(z)
    ensures FromDays(z).year == y && Ok(FromDays(z)) && ToDays(FromDays(z)) == z
  {
    hide ToDays, FromDays, DaysBeforeYear, IsLeap, DaysBeforeMonth;
    RangeEnds();
    ToDaysCountsDays(FIRST_DATE);
    ToDaysCountsDays(LAST_DATE);
    YearsInOrder(-0x7fff, y);
    YearsInOrder(y + 1, 0x8000);
    JanuaryFirst(-0x7fff);
    YearSteps(0x7fff);
    FromDaysThenToDays(z);
    YearOfDate(FromDays(z));
    YearUnique(z, y, FromDays(z).year);
  }

  lemma {:induction false} JanuaryFirst(y: int)
    ensures CountedDays(y, 1, 1) == DaysBeforeYear(y)
  {
  }

  lemma {:induction false} YearsInOrder(y: int, y': int)
    requires y <= y'
    ensures DaysBeforeYear(y) + 365 * (y' - y) <= DaysBeforeYear(y')
  {
    hide MarchDays;
    YearsClosedForm(y);
    YearsClosedForm(y');
    YearsIncrease(y - 1, y' - 1);
  }

  lemma {:induction false} YearUnique(z: int, y: int, y': int)
    requires DaysBeforeYear(y) <= z < DaysBeforeYear(y + 1)
    requires DaysBeforeYear(y') <= z < DaysBeforeYear(y' + 1)
    ensures y == y'
  {
    hide DaysBeforeYear;
    if y < y' {
      YearsInOrder(y + 1, y');
    } else if y' < y {
      YearsInOrder(y' + 1, y);
    }
  }

  lemma {:induction false} YearOfDate(x: Date)
    requires Ok(x)
    ensures DaysBeforeYear(x.year) <= ToDays(x) < DaysBeforeYear(x.year + 1)
  {
    hide ToDays, DaysBeforeYear, DaysBeforeMonth, IsLeap, MonthOk;
    ToDaysCountsDays(x);
    DayOfYearBound(x.year, x.month, x.day);
    YearStep(x.year);
  }

  // ---- to_stream

  lemma {:induction false} MondaysApart(a: int, b: int)
    requires DayOfWeek(a) == MONDAY && DayOfWeek(b) == MONDAY
    ensures a < b ==> a + 7 <= b
    ensures (a - b) % 7 == 0
  {
    hide DayOfWeek;
    var k := SameDayOfWeek(a, b);
  }

  /** A week has its Thursday before a year exactly when it is before the first ISO week of the year. */
  lemma {:induction false} ThursdayBefore(z: int, y: int)
    requires -0x7fff <= y <= 0x8000
    ensures ThursdayOf(z) < DaysBeforeYear(y) <==> z < WeekOneStart(y)
  {
    hide WeekOneStart, DaysBeforeYear, DayOfWeek, MondayOf;
    WeekOneStartCorrect(y);
    MondayOfIsMonday(z);
    MondaysApart(MondayOf(z), WeekOneStart(y));
    MondaysApart(WeekOneStart(y), MondayOf(z));
  }

  /** The ISO year runs from its first Monday to the next one. */
  lemma {:induction false} IsoYearByStart(z: int, g: int)
    requires YearOk(g)
    ensures IsIsoYear(z, g) <==> WeekOneStart(g) <= z < WeekOneStart(g + 1)
    ensures IsIsoYear(z, g) ==> (ThursdayOf(z) - DaysBeforeYear(g)) / 7 == (z - WeekOneStart(g)) / 7
  {
    hide WeekOneStart, DaysBeforeYear, DayOfWeek, MondayOf;
    ThursdayBefore(z, g);
    ThursdayBefore(z, g + 1);
    WeekOneStartCorrect(g);
    MondayOfIsMonday(z);
    var m, s := MondayOf(z), WeekOneStart(g);
    MondaysApart(m, s);
    QuotientUnique(m + 3 - DaysBeforeYear(g), 7, (m - s) / 7, s + 3 - DaysBeforeYear(g));
    QuotientUnique(z - s, 7, (m - s) / 7, z - m);
  }

  lemma {:induction false} IsoYearIsYear(x: Date)
    requires Ok(x)
    ensures IsIsoYear(ToDays(x), IsoYear(x)) && x.year - 1 <= IsoYear(x) <= x.year + 1
  {
    hide ToDays, DaysBeforeYear, DayOfWeek, MondayOf, IsLeap;
    YearOfDate(x);
    MondayOfIsMonday(ToDays(x));
    YearsInOrder(x.year - 1, x.year);
    YearsInOrder(x.year + 1, x.year + 2);
  }

  lemma {:induction false} YearRangeEnds()
    ensures DaysBeforeYear(-0x7fff) == FIRST_DAY && DaysBeforeYear(0x8000) == LAST_DAY + 1
  {
    hide ToDays, CountedDays, DaysBeforeYear, DaysBeforeMonth, IsLeap;
    RangeEnds();
    ToDaysCountsDays(FIRST_DATE);
    ToDaysCountsDays(LAST_DATE);
    JanuaryFirst(-0x7fff);
    YearSteps(0x7fff);
    CountedWithinYear(0x7fff, 12, 31);
  }

  lemma {:induction false} CountedWithinYear(y: int, m: int, d: int)
    requires MonthOk(m)
    ensures CountedDays(y, m, d) == DaysBeforeYear(y) + DaysBeforeMonth(y, m) + d - 1
    ensures DaysBeforeYear(y + 1) == DaysBeforeYear(y) + YearLength(y)
  {
    YearStep(y);
  }

  /** The first valid day is a Saturday and the last one a Sunday. */
  lemma {:induction false} EdgeStarts()
    ensures WeekOneStart(-0x7fff) == FIRST_DAY + 2 && WeekOneStart(0x8000) == WeekOneStart(-0x8000) == LAST_DAY + 1
  {
    hide WeekOneStart, DaysBeforeYear, ToDays;
    RangeEnds();
    YearRangeEnds();
    WeekOneStartCorrect(-0x7fff);
    WeekOneStartCorrect(0x8000);
    WeekOneStartOfShort(0x8000);
    MondaysClose(WeekOneStart(-0x7fff), FIRST_DAY + 2);
    MondaysClose(WeekOneStart(0x8000), LAST_DAY + 1);
  }

  lemma {:induction false} MondaysClose(a: int, b: int)
    requires DayOfWeek(a) == MONDAY && DayOfWeek(b) == MONDAY && -6 <= a - b <= 6
    ensures a == b
  {
    MondaysApart(a, b);
    MondaysApart(b, a);
  }

  lemma {:induction false} IsoYearRange(x: Date)
    requires Ok(x)
    ensures -0x8000 <= IsoYear(x) <= 0x7fff && (YearOk(IsoYear(x)) <==> IsoDated(x))
  {
    hide ToDays, DaysBeforeYear, DayOfWeek, MondayOf, IsLeap, WeekOneStart;
    OkRange(x);
    EdgeStarts();
    YearOfDate(x);
    YearRangeEnds();
    if x.year == 0x7fff {
      ThursdayBefore(ToDays(x), 0x8000);
    }
    if x.year == -0x7fff {
      ThursdayBefore(ToDays(x), -0x7fff);
    } else {
      YearsInOrder(-0x7ffe, x.year);
      YearsInOrder(-0x7fff, -0x7ffe);
    }
  }

  /** The year of the day after next but one, with which both cases begin. */
  lemma {:induction false} YearAhead(x: Date) returns (y: int)
    requires Ok(x)
    ensures Countable(ToDays(x) + 3) && FromDays(ToDays(x) + 3).year == ToShort(y)
    ensures DaysBeforeYear(y) <= ToDays(x) + 3 < DaysBeforeYear(y + 1) && x.year <= y <= x.year + 1
  {
    hide ToDays, FromDays, DaysBeforeYear, DaysBeforeMonth, IsLeap, CountedDays, ToShort;
    OkRange(x);
    RangeEnds();
    y := FromDaysCounts(ToDays(x) + 3);
    var d := FromDays(ToDays(x) + 3);
    CountedWithinYear(y, d.month, d.day);
    DayOfYearBound(y, d.month, d.day);
    YearOfDate(x);
    if y < x.year {
      YearsInOrder(y + 1, x.year);
    } else if x.year + 1 < y {
      YearsInOrder(x.year + 1, y - 1);
      YearsInOrder(y - 1, y);
    }
  }

  /** The year that both cases settle on is the ISO year, for every valid date. */
  lemma {:induction false} TrialYear(x: Date)
    requires Ok(x)
    ensures Countable(ToDays(x) + 3)
    ensures var y := FromDays(ToDays(x) + 3).year;
            IsoYear(x) == if ToDays(x) < WeekOneStart(y) then ToShort(y - 1) else y
  {
    hide ToDays, FromDays, DaysBeforeYear, WeekOneStart, MondayOf, IsLeap, ToShort;
    var y := YearAhead(x);
    WeekOneStartOfShort(y);
    IsoYearRange(x);
    ThursdayBefore(ToDays(x), y);
    MondayOfIsMonday(ToDays(x));
    YearOfDate(x);
    YearsInOrder(x.year, x.year + 1);
    ShortIsIdentity(IsoYear(x));
  }

  lemma {:induction false} IsoWeekBounds(x: Date)
    requires Ok(x)
    ensures IsoWeek(x) == (ThursdayOf(ToDays(x)) - DaysBeforeYear(IsoYear(x))) / 7 + 1 && 1 <= IsoWeek(x) <= 53
  {
    hide ToDays, DaysBeforeYear, IsoYear, IsLeap, DaysSince, CountDays;
    var t := ThursdayOf(ToDays(x));
    IsoYearIsYear(x);
    YearStep(IsoYear(x));
    YearLengthBounds(IsoYear(x));
    MondayOfIsMonday(ToDays(x));
    CountDaysClosedForm(THURSDAY, DaysBeforeYear(IsoYear(x)), t + 1);
    ThursdayAfterMonday(MondayOf(ToDays(x)));
  }

  lemma {:induction false} ThursdayAfterMonday(m: int)
    requires DayOfWeek(m) == MONDAY
    ensures DaysSince(m + 3, THURSDAY) == 0
  {
  }

  lemma {:induction false} IsoWeekByStart(x: Date)
    requires IsoDated(x)
    ensures var s := WeekOneStart(IsoYear(x));
            s <= ToDays(x) && IsoWeek(x) == (ToDays(x) - s) / 7 + 1 && 1 <= IsoWeek(x) <= WeeksIn(IsoYear(x))
    ensures 52 <= WeeksIn(IsoYear(x)) <= 53
  {
    hide ToDays, WeekOneStart, DaysBeforeYear, MondayOf, IsLeap, IsoYear, IsoWeek, WeeksIn;
    IsoYearRange(x);
    IsoYearIsYear(x);
    IsoYearByStart(ToDays(x), IsoYear(x));
    IsoWeekBounds(x);
    WeeksInYear(IsoYear(x));
  }

  /** What the two cases compute from that year: the week number is right exactly when the ISO year is
      a valid year. For the first two dates it is -3419451, since the start of their ISO year
      is looked up in the last December. */
  lemma {:induction false} TrialWeek(x: Date)
    requires Ok(x)
    ensures Countable(ToDays(x) + 3)
    ensures var y := FromDays(ToDays(x) + 3).year;
            var g := if ToDays(x) < WeekOneStart(y) then ToShort(y - 1) else y;
            var v := Quotient(ToDays(x) - WeekOneStart(g), 7) + 1;
            g == IsoYear(x) && (v == if IsoDated(x) then IsoWeek(x) else -3419451)
    ensures 1 <= IsoWeek(x) <= 53
  {
    hide ToDays, FromDays, WeekOneStart, ToShort, IsoYear, IsoWeek, WeeksIn, Quotient;
    TrialYear(x);
    IsoYearRange(x);
    IsoWeekBounds(x);
    var n := ToDays(x) - WeekOneStart(IsoYear(x));
    if IsoDated(x) {
      IsoWeekByStart(x);
      ShiftedQuotientIsFloor(n, 7);
    } else {
      EdgeStarts();
      RangeEnds();
      OkRange(x);
      FarQuotient(n);
    }
  }

  lemma {:induction false} FarQuotient(n: int)
    requires -23936166 <= n <= -23936165
    ensures Quotient(n, 7) == -3419452
  {
  }

  /** Case 'G'; None stands for the fail bit. */
  method FormatG(x: Date) returns (r: Option<int>)
    ensures r == if Ok(x) then Some(IsoYear(x)) else None
  {
    hide ToDays, FromDays, WeekOneStart, ToShort, IsoYear, IsoWeek, Quotient;
    if !Ok(x) {
      return None;
    }
    TrialWeek(x);
    var ld := ToDays(x);
    var y: int := FromDays(ld + 3).year;
    var start := WeekOneStart(y);
    if ld < start {
      y := ToShort(y - 1);
    }
    return Some(y);
  }

  /** Case 'V': right for every valid date but the first two. */
  method FormatV(x: Date) returns (r: Option<int>)
    ensures r.None? <==> !Ok(x)
    ensures Ok(x) ==> 1 <= IsoWeek(x) <= 53 && r == Some(if FIRST_DAY + 2 <= ToDays(x) then IsoWeek(x) else -3419451)
  {
    hide ToDays, FromDays, WeekOneStart, ToShort, IsoYear, IsoWeek, Quotient;
    if !Ok(x) {
      return None;
    }
    TrialWeek(x);
    var ld := ToDays(x);
    var y: int := FromDays(ld + 3).year;
    var st := WeekOneStart(y);
    if ld < st {
      y := ToShort(y - 1);
      st := WeekOneStart(y);
    }
    return Some(Quotient(ld - st, 7) + 1);
  }

  /** The number of ISO weeks of a year: 52 or 53. */
  function WeeksIn(g: int): int {
    (WeekOneStart(g + 1) - WeekOneStart(g)) / 7
  }

  lemma {:induction false} WeeksInYear(g: int)
    requires YearOk(g)
    ensures WeekOneStart(g + 1) == WeekOneStart(g) + 7 * WeeksIn(g) && 52 <= WeeksIn(g) <= 53
  {
    hide WeekOneStart, DaysBeforeYear, IsLeap, DayOfWeek;
    WeekOneStartCorrect(g);
    WeekOneStartCorrect(g + 1);
    MondaysApart(WeekOneStart(g + 1), WeekOneStart(g));
    YearStep(g);
  }
}
