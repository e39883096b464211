/** The weeks that begin on Sunday or Monday and the day of the year, as to_stream computes them for %U,
    %W and %j, and the resolution of from_stream: how the fields read from a format are combined into
    one date, and when that date agrees with all of them. */
module DateFields {
  import opened MachineInts
  import opened Gregorian
  import opened Weekdays
  import opened WeekDates
  import opened Wrappers

  const NOT_A_YEAR := INT_MIN
  const NOT_A_MONTH := 0
  const NOT_A_DAY := 0
  const NOT_A_DOY := -1
  const NOT_A_WEEKDAY := 8
  const NOT_A_WEEK_NUM := 100

  // ---- Weeks counted from the first Sunday or Monday

  /** The first Sunday or Monday in January */
  function FirstWeekday(y: short, first: nibble): (z: int)
    ensures -0x200_0000 <= z <= 0x200_0000
  {
    IndexedRange(IndexedDate(y, 1, first, 1));
    IndexedToDays(IndexedDate(y, 1, first, 1))
  }

  lemma {:induction false} FirstWeekdayCorrect(y: short, first: nibble)
    requires first <= 6
    ensures var s := FirstWeekday(y, first);
            DayOfWeek(s) == first && DaysBeforeYear(y) <= s <= DaysBeforeYear(y) + 6
  {
    hide IndexedToDays, DayOfWeek, DaysBeforeYear, MonthStart, FromDayCount, Difference;
    IndexedOffset(IndexedDate(y, 1, first, 1));
    MonthStartOfJanuary(y);
  }

  /** A day is a whole number of weeks and its days since `first` after the first such weekday. */
  lemma {:induction false} WeeksSinceFirst(z: int, y: short, first: nibble) returns (k: int)
    requires first <= 6
    ensures z == FirstWeekday(y, first) + 7 * k + DaysSince(z, first)
  {
    hide FirstWeekday, DayOfWeek;
    FirstWeekdayCorrect(y, first);
    WeeksKeepDayOfWeek(z, 0);
    DaysSinceLeadsBack(z, first);
    k := SameDayOfWeek(z - DaysSince(z, first), FirstWeekday(y, first));
  }

  /** The weekdays between a day and `z` are the weeks from the first of them on. */
  lemma {:induction false} CountIsWeeks(z: int, from: int, s: int, first: nibble, k: int)
    requires first <= 6 && from <= s <= from + 6 && DayOfWeek(s) == first && from <= z
    requires z == s + 7 * k + DaysSince(z, first)
    ensures CountDays(first, from, z + 1) == k + 1
  {
    hide CountDays, DayOfWeek;
    QuotientUnique(z - from + 7 - DaysSince(z, first), 7, k + 1, s - from);
    CountDaysClosedForm(first, from, z + 1);
  }

  lemma {:induction false} DaysSinceLeadsBack(z: int, first: nibble)
    requires first <= 6
    ensures DayOfWeek(z - DaysSince(z, first)) == first
  {
    var x := (z + 4) % 7 - first;
    SameResidue(z - x % 7 + 4, first, (z + 4) / 7 + x / 7);
  }

  /** Cases 'U' (Sunday) and 'W' (Monday) of to_stream */
  method FormatWeekOfYear(x: Date, first: nibble) returns (r: Option<int>)
    requires first <= 6
    ensures r.None? <==> !Ok(x)
    ensures Ok(x) ==> r == Some(WeekOfYear(x, first)) && 0 <= r.value <= 53
  {
    hide ToDays, FirstWeekday, DayOfWeek, DaysBeforeYear, DaysSince, CountDays, Quotient;
    if !Ok(x) {
      return None;
    }
    var ld := ToDays(x);
    var st := FirstWeekday(x.year, first);
    ghost var k := WeeksSinceFirst(ld, x.year, first);
    DaysSinceRange(ld, first);
    YearOfDate(x);
    YearStep(x.year);
    FirstWeekdayCorrect(x.year, first);
    CountIsWeeks(ld, DaysBeforeYear(x.year), st, first, k);
    if ld < st {
      return Some(0);
    }
    ShiftedQuotientIsFloor(ld - st, 7);
    QuotientUnique(ld - st, 7, k, DaysSince(ld, first));
    return Some(Quotient(ld - st, 7) + 1);
  }

  lemma {:induction false} DaysSinceRange(z: int, first: int)
    ensures 0 <= DaysSince(z, first) <= 6
  {
  }

  /** Case 'j' of to_stream */
  function DayOfYearOf(x: Date): int {
    ToDays(x) - MonthStart(x.year, 1) + 1
  }

  // ---- The trial dates of from_stream

  /** The days from the weekday `first` to the weekday that was read */
  function DaysFrom(first: nibble, wd: nat): (r: int)
    ensures 0 <= r <= 6
  {
    DifferenceIsResidue(MakeWeekday(wd), first);
    Difference(MakeWeekday(wd), first)
  }

  function IsoTrial(g: int, v: int, wd: nat): (z: int)
    requires -1000 <= v <= 1000
    ensures Countable(z)
  {
    StartRange(g);
    WeekOneStart(g) + 7 * (v - 1) + DaysFrom(MONDAY, wd)
  }

  lemma {:induction false} StartRange(g: int)
    ensures -0x200_0000 <= WeekOneStart(g) <= 0x200_0000
  {
    hide ToShort, FromDayCount;
    DifferenceIsResidue(FromDayCount(MonthEnd(ToShort(g - 1), 12)), THURSDAY);
    DifferenceIsResidue(MONDAY, THURSDAY);
  }

  function WeekTrial(y: int, n: int, wd: nat, first: nibble): (z: int)
    requires -1000 <= n <= 1000
    ensures Countable(z)
  {
    FirstWeekday(ToShort(y), first) + 7 * (n - 1) + DaysFrom(first, wd)
  }

  function DoyTrial(y: int, j: int): (z: int)
    requires -1000 <= j <= 1000
    ensures Countable(z)
  {
    MonthStart(ToShort(y), 1) + (j - 1)
  }

  lemma {:induction false} DaysFromIsDaysSince(z: int, first: nibble)
    requires first <= 6
    ensures DaysFrom(first, DayOfWeek(z)) == DaysSince(z, first)
  {
    DifferenceIsResidue(DayOfWeek(z), first);
  }

  lemma {:induction false} DaysFromDetermines(first: nibble, a: nat, b: nat)
    requires a <= 6 && b <= 6 && DaysFrom(first, a) == DaysFrom(first, b)
    ensures a == b
  {
    hide Difference;
    DifferenceIsResidue(a, first);
    DifferenceIsResidue(b, first);
    assert (a - first) % 7 == (b - first) % 7;
  }

  /** Resolving the ISO year, week and weekday of a date gives the date back, but for the first two
      valid dates, whose ISO year is not a valid year. */
  lemma {:induction false} IsoWeekRoundTrip(x: Date)
    requires Ok(x)
    ensures 1 <= IsoWeek(x) <= 53
    ensures IsoTrial(IsoYear(x), IsoWeek(x), DayOfWeek(ToDays(x))) == ToDays(x) <==> IsoDated(x)
  {
    hide ToDays, WeekOneStart, IsoYear, IsoWeek, DayOfWeek, DaysFrom, DaysBeforeYear, WeeksIn;
    IsoWeekBounds(x);
    IsoYearRange(x);
    if IsoDated(x) {
      IsoWeekByStart(x);
      DaysFromIsDaysSince(ToDays(x), MONDAY);
      WeekSplit(x);
    } else {
      EdgeStarts();
      RangeEnds();
    }
  }

  /** Within its ISO week a day is as many days after the Monday as its weekday says. */
  lemma {:induction false} WeekSplit(x: Date)
    requires IsoDated(x)
    ensures var z, s := ToDays(x), WeekOneStart(IsoYear(x)); z == s + 7 * ((z - s) / 7) + DaysSince(z, MONDAY)
  {
    hide ToDays, WeekOneStart, IsoYear, DayOfWeek, DaysBeforeYear;
    var z, g := ToDays(x), IsoYear(x);
    IsoYearRange(x);
    WeekOneStartCorrect(g);
    DaysSinceLeadsBack(z, MONDAY);
    DaysSinceRange(z, MONDAY);
    var k := SameDayOfWeek(z - DaysSince(z, MONDAY), WeekOneStart(g));
    QuotientUnique(z - WeekOneStart(g), 7, k, DaysSince(z, MONDAY));
  }

  /** Resolving any week that the ISO year has, and only such a week, gives a day of that week. */
  lemma {:induction false} IsoTrialIsInWeek(g: int, v: nat, wd: nat)
    requires YearOk(g) && v <= 99 && wd <= 6
    ensures var x := FromDays(IsoTrial(g, v, wd));
            Ok(x) ==> (IsoYear(x) == g && IsoWeek(x) == v <==> 1 <= v <= WeeksIn(g)) && DayOfWeek(ToDays(x)) == wd
  {
    hide ToDays, FromDays, LastDay, WeekOneStart, IsoYear, IsoWeek, DayOfWeek, DaysFrom, DaysBeforeYear, WeeksIn;
    hide ThursdayOf;
    var x := FromDays(IsoTrial(g, v, wd));
    IsoTrialRange(g, v, wd);
    InverseNearYear(IsoTrial(g, v, wd), g);
    IsoTrialWeekday(g, v, wd);
    if Ok(x) && IsoYear(x) == g {
      IsoYearRange(x);
      IsoWeekByStart(x);
    }
    if Ok(x) && 1 <= v <= WeeksIn(g) {
      IsoYearRange(x);
      WeeksInYear(g);
      IsoYearByStart(ToDays(x), g);
      IsoYearIsYear(x);
      YearUnique(ThursdayOf(ToDays(x)), g, IsoYear(x));
      IsoWeekByStart(x);
      QuotientUnique(ToDays(x) - WeekOneStart(g), 7, v - 1, DaysFrom(MONDAY, wd));
    }
  }

  lemma {:induction false} IsoTrialWeekday(g: int, v: int, wd: nat)
    requires YearOk(g) && -1000 <= v <= 1000 && wd <= 6
    ensures DayOfWeek(IsoTrial(g, v, wd)) == wd
    ensures MondayOf(IsoTrial(g, v, wd)) == WeekOneStart(g) + 7 * (v - 1)
  {
    hide WeekOneStart, DayOfWeek, DaysFrom;
    WeekOneStartCorrect(g);
    WeeksKeepDayOfWeek(WeekOneStart(g), v - 1);
    DaysFromLeadsTo(WeekOneStart(g) + 7 * (v - 1), MONDAY, wd);
    DaysFromMonday(wd);
  }

  lemma {:induction false} DaysFromMonday(wd: nat)
    requires wd <= 6
    ensures DaysFrom(MONDAY, wd) == if wd == SUNDAY then 6 else wd - 1
  {
    DifferenceIsResidue(MakeWeekday(wd), MONDAY);
  }

  lemma {:induction false} DaysFromLeadsTo(z: int, first: nibble, wd: nat)
    requires wd <= 6 && DayOfWeek(z) == first
    ensures DayOfWeek(z + DaysFrom(first, wd)) == wd
  {
    hide Difference;
    DifferenceIsResidue(wd, first);
    SmallResidue(wd - first);
    SameResidue(z + DaysFrom(first, wd) + 4, wd, (z + 4) / 7 + if wd < first then 1 else 0);
  }

  /** Year, week of the year and weekday determine the date, week 0 included. */
  lemma {:induction false} WeekOfYearRoundTrip(x: Date, first: nibble)
    requires Ok(x) && first <= 6
    ensures 0 <= WeekOfYear(x, first) <= 53
    ensures WeekTrial(x.year, WeekOfYear(x, first), DayOfWeek(ToDays(x)), first) == ToDays(x)
  {
    hide ToDays, FirstWeekday, DayOfWeek, DaysFrom, DaysBeforeYear, ToShort, DaysSince, CountDays;
    ShortIsIdentity(x.year);
    var k := WeeksSinceFirst(ToDays(x), x.year, first);
    DaysSinceRange(ToDays(x), first);
    DaysFromIsDaysSince(ToDays(x), first);
    YearOfDate(x);
    YearStep(x.year);
    FirstWeekdayCorrect(x.year, first);
    CountIsWeeks(ToDays(x), DaysBeforeYear(x.year), FirstWeekday(x.year, first), first, k);
  }

  /** A trial date that stays in its year has the week number and weekday it was made from. */
  lemma {:induction false} WeekTrialIsInWeek(y: short, n: nat, wd: nat, first: nibble)
    requires YearOk(y) && n <= 99 && wd <= 6 && first <= 6
    ensures var x := FromDays(WeekTrial(y, n, wd, first));
            Ok(x) && x.year == y ==> WeekOfYear(x, first) == n && DayOfWeek(ToDays(x)) == wd
  {
    hide ToDays, FromDays, LastDay, FirstWeekday, DayOfWeek, DaysFrom, DaysBeforeYear, ToShort, DaysSince, CountDays;
    var z := WeekTrial(y, n, wd, first);
    WeekTrialRange(y, n, wd, first);
    InverseNearYear(z, y);
    if Ok(FromDays(z)) && FromDays(z).year == y {
      ShortIsIdentity(y);
      var k := WeeksSinceFirst(z, y, first);
      DaysSinceRange(z, first);
      DaysFromIsDaysSince(z, first);
      WeeksKeepDayOfWeek(z, 0);
      YearOfDate(FromDays(z));
      FirstWeekdayCorrect(y, first);
      CountIsWeeks(z, DaysBeforeYear(y), FirstWeekday(y, first), first, k);
      assert k == n - 1;
      DaysFromDetermines(first, DayOfWeek(z), wd);
    }
  }

  /** The day of the year is that of the month and the lengths of the months before; it lies in the year
      and determines the date. */
  lemma {:induction false} DayOfYearRoundTrip(x: Date)
    requires Ok(x)
    ensures DayOfYearOf(x) == DaysBeforeMonth(x.year, x.month) + x.day
    ensures 1 <= DayOfYearOf(x) <= YearLength(x.year)
    ensures DoyTrial(x.year, DayOfYearOf(x)) == ToDays(x)
  {
    hide ToDays, DaysBeforeYear, DaysBeforeMonth, MonthStart, ToShort, IsLeap;
    ShortIsIdentity(x.year);
    MonthStartOfJanuary(x.year);
    ToDaysCountsDays(x);
    YearOfDate(x);
    YearStep(x.year);
    YearLengthBounds(x.year);
  }

  /** Case 'u' of to_stream: Sunday is 7. */
  function PrintedWeekday(wd: byte): nat {
    if wd != 0 then wd else 7
  }

  /** Case 'u' of from_stream; None stands for the fail bit. */
  function ReadWeekday(n: nat): Option<nat> {
    if !(1 <= n <= 7) then None else if n == 7 then Some(0) else Some(n)
  }

  /** The printed weekday counts the days of the week from Monday on, and reading it gives the weekday
      back. A weekday made from it is the same, 7 included. */
  lemma {:induction false} WeekdayRoundTrip(z: int)
    ensures 0 <= DayOfWeek(z) <= 6
    ensures var u := PrintedWeekday(DayOfWeek(z));
            u == z - MondayOf(z) + 1 && 1 <= u <= 7
            && ReadWeekday(u) == Some(DayOfWeek(z)) && MakeWeekday(u) == MakeWeekday(DayOfWeek(z)) == DayOfWeek(z)
  {
    hide DayOfWeek;
    WeeksKeepDayOfWeek(z, 0);
  }

  // ---- Resolution

  /** The fields left by reading; each may hold its not_a_... value. */
  datatype Fields = Fields(Y: int, m: int, d: int, j: int, wd: nat, G: int, V: nat, U: nat, W: nat) {
    /** The ranges that reading with the default field widths leaves; month and day may have a sign. */
    predicate Readable() {
      -99 <= m <= 99 && -99 <= d <= 99 && -1 <= j <= 999 && (wd <= 6 || wd == NOT_A_WEEKDAY)
      && V <= NOT_A_WEEK_NUM && U <= NOT_A_WEEK_NUM && W <= NOT_A_WEEK_NUM
      && (G == NOT_A_YEAR || YearOk(G))
    }

    predicate HasIso() {
      G != NOT_A_YEAR && V != NOT_A_WEEK_NUM && wd != NOT_A_WEEKDAY
    }

    predicate HasYear() {
      YearOk(Y) || HasIso()
    }

    predicate HasWeek(n: nat) {
      HasYear() && n != NOT_A_WEEK_NUM && wd != NOT_A_WEEKDAY
    }

    predicate Computed() {
      HasIso() || HasWeek(U) || HasWeek(W)
    }

    /** Enough fields to name a date */
    predicate Determines() {
      Computed() || (HasYear() && j != NOT_A_DOY) || (HasYear() && m != NOT_A_MONTH && d != NOT_A_DAY)
    }

    predicate WeekFieldsAgree(x: Date) {
      && (wd != NOT_A_WEEKDAY ==> wd == DayOfWeek(ToDays(x)))
      && (U != NOT_A_WEEK_NUM ==> U == WeekOfYear(x, SUNDAY))
      && (W != NOT_A_WEEK_NUM ==> W == WeekOfYear(x, MONDAY))
    }

    predicate IsoFieldsAgree(x: Date) {
      && (G != NOT_A_YEAR ==> G == IsoYear(x))
      && (V != NOT_A_WEEK_NUM ==> V == IsoWeek(x))
    }

    /** Every field that was read is the one that to_stream computes for `x`. */
    predicate Agrees(x: Date) {
      && (YearOk(Y) ==> Y == x.year)
      && (m != NOT_A_MONTH ==> m == x.month)
      && (d != NOT_A_DAY ==> d == x.day)
      && (j != NOT_A_DOY ==> j == DayOfYearOf(x))
      && WeekFieldsAgree(x) && IsoFieldsAgree(x)
    }
  }

  /** Year, month and day while they are being resolved */
  datatype Ymd = Ymd(Y: int, m: int, d: int) {
    /** Fill in what is missing from a trial date; None is the jump to `broken`. */
    function Reconcile(trial: Date): Option<Ymd> {
      if Y != NOT_A_YEAR && ToShort(Y) != trial.year then None
      else ReconcileDay(trial, if Y == NOT_A_YEAR then trial.year else Y)
    }

    function ReconcileDay(trial: Date, year: int): Option<Ymd> {
      if m != NOT_A_MONTH && ToByte(m) != trial.month then None
      else if d != NOT_A_DAY && ToByte(d) != trial.day then None
      else Some(Ymd(year, if m == NOT_A_MONTH then trial.month else m, if d == NOT_A_DAY then trial.day else d))
    }

    function ToDate(): Date {
      Date(ToShort(Y), ToByte(m), ToByte(d))
    }

    /** What is known so far belongs to `x`. */
    predicate Holds(x: Date) {
      (Y == NOT_A_YEAR || Y == x.year) && (m == NOT_A_MONTH || m == x.month) && (d == NOT_A_DAY || d == x.day)
    }

    predicate Is(x: Date) {
      Y == x.year && m == x.month && d == x.day
    }

    predicate Small() {
      (Y == NOT_A_YEAR || -0x8000 <= Y < 0x8000) && -99 <= m <= 99 && -99 <= d <= 99
    }
  }

  /** The weekday of a date, as the number of days since Sunday */
  function WeekdayOf(x: Date): int {
    DayCountFits(x);
    Difference(FromDayCount(ToDays(x)), SUNDAY)
  }

  /** The checks on a valid date: the weekday always, the week fields only when no trial date was
      computed from week fields. */
  predicate Checked(f: Fields, x: Date) {
    && (f.wd != NOT_A_WEEKDAY ==> f.wd == WeekdayOf(x))
    && (!f.Computed() ==>
          && IsoChecked(f, x)
          && (f.U != NOT_A_WEEK_NUM ==> f.U == (ToDays(x) - FirstWeekday(x.year, SUNDAY)) / 7 + 1)
          && (f.W != NOT_A_WEEK_NUM ==> f.W == (ToDays(x) - FirstWeekday(x.year, MONDAY)) / 7 + 1))
  }

  predicate IsoChecked(f: Fields, x: Date) {
    (f.G == NOT_A_YEAR && f.V == NOT_A_WEEK_NUM) ||
    (Countable(ToDays(x) + 3) &&
     var y := FromDays(ToDays(x) + 3).year;
     var g := if ToDays(x) < WeekOneStart(y) then ToShort(y - 1) else y;
     (f.G != NOT_A_YEAR ==> f.G == g)
     && (f.V != NOT_A_WEEK_NUM ==> f.V == Quotient(ToDays(x) - WeekOneStart(g), 7) + 1))
  }

  /** The resolution as one expression; None is the jump to `broken`. */
  function Resolved(f: Fields): Option<Date>
    requires f.Readable()
  {
    var s0 := Ymd(if YearOk(f.Y) then f.Y else NOT_A_YEAR, f.m, f.d);
    var s1 :- if f.HasIso() then s0.Reconcile(FromDays(IsoTrial(f.G, f.V, f.wd))) else Some(s0);
    var s2 :- if f.HasWeek(f.U) then s1.Reconcile(FromDays(WeekTrial(s1.Y, f.U, f.wd, SUNDAY))) else Some(s1);
    var s3 :- if f.HasWeek(f.W) then s2.Reconcile(FromDays(WeekTrial(s2.Y, f.W, f.wd, MONDAY))) else Some(s2);
    var s4 :- if f.HasYear() && f.j != NOT_A_DOY then s3.ReconcileDay(FromDays(DoyTrial(s3.Y, f.j)), s3.Y)
        else Some(s3);
    var x := s4.ToDate();
    if Ok(x) && !Checked(f, x) then None else Some(x)
  }

  /** ... and as the source runs it. */
  method Resolve(f: Fields) returns (r: Option<Date>)
    requires f.Readable()
    ensures r == Resolved(f)
  {
    hide WeekOneStart, IsoTrial, WeekTrial, DoyTrial, FromDays, ToDays, IsoChecked, WeekdayOf, FirstWeekday, LastDay,
        ToShort, ToByte;
    var Y, m, d := f.Y, f.m, f.d;
    if Y < -0x7fff || Y > 0x7fff {
      Y := NOT_A_YEAR;
    }
    var computed := false;
    if f.G != NOT_A_YEAR && f.V != NOT_A_WEEK_NUM && f.wd != NOT_A_WEEKDAY {
      var s :- Ymd(Y, m, d).Reconcile(FromDays(IsoTrial(f.G, f.V, f.wd)));
      Y, m, d, computed := s.Y, s.m, s.d, true;
    }
    if Y != NOT_A_YEAR && f.U != NOT_A_WEEK_NUM && f.wd != NOT_A_WEEKDAY {
      var s :- Ymd(Y, m, d).Reconcile(FromDays(WeekTrial(Y, f.U, f.wd, SUNDAY)));
      Y, m, d, computed := s.Y, s.m, s.d, true;
    }
    if Y != NOT_A_YEAR && f.W != NOT_A_WEEK_NUM && f.wd != NOT_A_WEEKDAY {
      var s :- Ymd(Y, m, d).Reconcile(FromDays(WeekTrial(Y, f.W, f.wd, MONDAY)));
      Y, m, d, computed := s.Y, s.m, s.d, true;
    }
    if f.j != NOT_A_DOY && Y != NOT_A_YEAR {
      var s :- Ymd(Y, m, d).ReconcileDay(FromDays(DoyTrial(Y, f.j)), Y);
      m, d := s.m, s.d;
    }
    var ymd := Ymd(Y, m, d).ToDate();
    if Ok(ymd) && !Checked(f, ymd) {
      return None;
    }
    return Some(ymd);
  }

  // ---- Every date is found from fields that agree with it

  lemma {:induction false} ReconcileHits(s: Ymd, x: Date)
    requires s.Holds(x)
    ensures s.Reconcile(x).Some? && s.Reconcile(x).value.Is(x)
    ensures s.Y == x.year ==> s.ReconcileDay(x, s.Y).Some? && s.ReconcileDay(x, s.Y).value.Is(x)
  {
    ShortIsIdentity(x.year);
    NarrowingIsIdentity(x.month);
    NarrowingIsIdentity(x.day);
  }

  lemma {:induction false} IsToDate(s: Ymd, x: Date)
    requires s.Is(x)
    ensures s.ToDate() == x
  {
    ShortIsIdentity(x.year);
    NarrowingIsIdentity(x.month);
    NarrowingIsIdentity(x.day);
  }

  lemma {:induction false} TrialsHit(f: Fields, x: Date)
    requires f.Readable() && Ok(x) && f.Agrees(x)
    ensures f.HasIso() ==> FromDays(IsoTrial(f.G, f.V, f.wd)) == x
    ensures f.HasWeek(f.U) ==> FromDays(WeekTrial(x.year, f.U, f.wd, SUNDAY)) == x
    ensures f.HasWeek(f.W) ==> FromDays(WeekTrial(x.year, f.W, f.wd, MONDAY)) == x
    ensures f.j != NOT_A_DOY ==> FromDays(DoyTrial(x.year, f.j)) == x
  {
    hide ToDays, FromDays, IsoTrial, WeekTrial, DoyTrial, IsoYear, IsoWeek, WeekOfYear, DayOfYearOf, LastDay;
    ToDaysThenFromDays(x);
    IsoYearRange(x);
    IsoWeekRoundTrip(x);
    WeekOfYearRoundTrip(x, SUNDAY);
    WeekOfYearRoundTrip(x, MONDAY);
    DayOfYearRoundTrip(x);
  }

  /** The checks accept a date that agrees with the week fields, unless they compute the ISO week of one
      of the first two dates. */
  lemma {:induction false} ChecksHold(f: Fields, x: Date)
    requires f.Readable() && Ok(x) && f.WeekFieldsAgree(x) && f.IsoFieldsAgree(x)
    ensures Checked(f, x) <==> IsoDated(x) || f.V == NOT_A_WEEK_NUM || f.Computed()
  {
    hide ToDays, FromDays, FirstWeekday, WeekOneStart, IsoYear, IsoWeek, DaysBeforeYear, DaysSince, LastDay, ToShort,
        Quotient;
    hide DayOfWeek;
    hide WeekOfYear;
    IsoYearRange(x);
    TrialWeek(x);
    WeekdayOfCorrect(x);
    CheckedWeekNumber(x, SUNDAY);
    CheckedWeekNumber(x, MONDAY);
  }

  lemma {:induction false} WeekdayOfCorrect(x: Date)
    ensures WeekdayOf(x) == DayOfWeek(ToDays(x))
  {
    hide ToDays, FromDayCount, Difference;
    DayCountFits(x);
    FromDayCountIsResidue(ToDays(x));
    DifferenceIsResidue(DayOfWeek(ToDays(x)), SUNDAY);
  }

  /** Fields that agree with a date and suffice to name one resolve to that date. The only exceptions are
      the first two valid dates when their ISO week is read, without the ISO year, and no date is computed
      from week fields: then the fields are refused. */
  lemma {:induction false} ResolvesToDate(f: Fields, x: Date)
    requires f.Readable() && Ok(x) && f.Agrees(x) && f.Determines()
    ensures Resolved(f) == if IsoDated(x) || f.V == NOT_A_WEEK_NUM || f.Computed() then Some(x) else None
  {
    hide ToDays, FromDays, IsoTrial, WeekTrial, DoyTrial, LastDay, Checked;
    hide Ymd.Reconcile, Ymd.ReconcileDay, Fields.WeekFieldsAgree, Fields.IsoFieldsAgree, Ymd.ToDate;
    TrialsHit(f, x);
    ChecksHold(f, x);
    var s0 := Ymd(if YearOk(f.Y) then f.Y else NOT_A_YEAR, f.m, f.d);
    ReconcileHits(s0, x);
    var s1 := if f.HasIso() then s0.Reconcile(x).value else s0;
    ReconcileHits(s1, x);
    var s2 := if f.HasWeek(f.U) then s1.Reconcile(x).value else s1;
    ReconcileHits(s2, x);
    var s3 := if f.HasWeek(f.W) then s2.Reconcile(x).value else s2;
    ReconcileHits(s3, x);
    var s4 := if f.HasYear() && f.j != NOT_A_DOY then s3.ReconcileDay(x, s3.Y).value else s3;
    assert s4.Is(x);
    IsToDate(s4, x);
  }

  // ---- What resolution guarantees about the fields it was given

  predicate HasMonthAndDay(x: Date) {
    MonthOk(x.month) && 1 <= x.day <= 31
  }

  /** A month or day that was read with a sign is stored as a byte that no date has. */
  lemma {:induction false} ByteMatches(n: int, b: byte)
    requires -99 <= n <= 99 && 1 <= b <= 31 && ToByte(n) == b
    ensures n == b
  {
  }

  lemma {:induction false} ReconcileFixes(s: Ymd, trial: Date)
    requires s.Small() && HasMonthAndDay(trial) && s.Reconcile(trial).Some?
    ensures s.Holds(trial) && s.Reconcile(trial).value.Is(trial)
  {
    hide ToByte, ToShort;
    if s.Y != NOT_A_YEAR {
      ShortIsIdentity(s.Y);
    }
    ReconcileDayFixes(s, trial, if s.Y == NOT_A_YEAR then trial.year else s.Y);
  }

  lemma {:induction false} ReconcileDayFixes(s: Ymd, trial: Date, year: int)
    requires s.Small() && HasMonthAndDay(trial) && s.ReconcileDay(trial, year).Some?
    ensures s.ReconcileDay(trial, year).value == Ymd(year, trial.month, trial.day)
    ensures (s.m != NOT_A_MONTH ==> s.m == trial.month) && (s.d != NOT_A_DAY ==> s.d == trial.day)
  {
    hide ToByte;
    if s.m != NOT_A_MONTH {
      ByteMatches(s.m, trial.month);
    }
    if s.d != NOT_A_DAY {
      ByteMatches(s.d, trial.day);
    }
  }

  /** Near a valid year, a day that from_days turns into a valid date is the day of that date. */
  lemma {:induction false} InverseNearYear(z: int, y: int)
    requires YearOk(y) && DaysBeforeYear(y) - 10 <= z <= DaysBeforeYear(y) + 700
    ensures Countable(z)
    ensures Ok(FromDays(z)) ==> ToDays(FromDays(z)) == z
  {
    hide ToDays, FromDays, CountedDays, DaysBeforeYear, DaysBeforeMonth, IsLeap, YearLength, LastDay, ToShort;
    RangeEnds();
    YearRangeEnds();
    YearsInOrder(-0x7fff, y);
    YearsInOrder(y, 0x8000);
    var x := FromDays(z);
    var ty := FromDaysCounts(z);
    CountedWithinYear(ty, x.month, x.day);
    DayOfYearBound(ty, x.month, x.day);
    YearNearby(z, y, ty);
    if Ok(x) {
      ShortKeepsNearby(ty);
      ToDaysCountsDays(x);
    }
  }

  lemma {:induction false} ShortKeepsNearby(y: int)
    requires -0x8000 <= y <= 0x8000 && YearOk(ToShort(y))
    ensures ToShort(y) == y
  {
  }

  lemma {:induction false} YearNearby(z: int, y: int, ty: int)
    requires DaysBeforeYear(y) - 10 <= z <= DaysBeforeYear(y) + 700
    requires DaysBeforeYear(ty) <= z < DaysBeforeYear(ty + 1)
    ensures y - 1 <= ty <= y + 1
  {
    hide DaysBeforeYear;
    if ty < y - 1 {
      YearsInOrder(ty + 1, y - 1);
      YearsInOrder(y - 1, y);
    } else if y + 1 < ty {
      YearsInOrder(y, y + 2);
      YearsInOrder(y + 2, ty);
    }
  }

  /** One week stage: afterwards the fields are those of its trial date, and nothing known is lost. */
  lemma {:induction false} WeekStage(s: Ymd, z: int) returns (t: Ymd)
    requires s.Small() && Countable(z) && s.Reconcile(FromDays(z)).Some?
    ensures s.Reconcile(FromDays(z)) == Some(t) && t.Is(FromDays(z)) && s.Holds(FromDays(z))
    ensures t.Small() && t.Y != NOT_A_YEAR && t.m != NOT_A_MONTH && t.d != NOT_A_DAY
  {
    hide FromDays, Ymd.Reconcile;
    DayIsSmall(z);
    ReconcileFixes(s, FromDays(z));
    t := s.Reconcile(FromDays(z)).value;
  }

  /** What every resolution that ends in a valid date has verified. */
  predicate Established(f: Fields, x: Date)
    requires f.Readable()
  {
    && (f.HasIso() ==> FromDays(IsoTrial(f.G, f.V, f.wd)) == x)
    && (f.HasWeek(f.U) ==> FromDays(WeekTrial(x.year, f.U, f.wd, SUNDAY)) == x)
    && (f.HasWeek(f.W) ==> FromDays(WeekTrial(x.year, f.W, f.wd, MONDAY)) == x)
    && (f.HasYear() && f.j != NOT_A_DOY ==>
          FromDays(DoyTrial(x.year, f.j)).month == x.month && FromDays(DoyTrial(x.year, f.j)).day == x.day)
    && (YearOk(f.Y) ==> f.Y == x.year)
    && (f.m != NOT_A_MONTH ==> f.m == x.month)
    && (f.d != NOT_A_DAY ==> f.d == x.day)
    && Checked(f, x)
  }

  lemma {:induction false} ResolvedEstablishes(f: Fields, x: Date)
    requires f.Readable() && Resolved(f) == Some(x) && Ok(x)
    ensures Established(f, x)
  {
    hide ToDays, FromDays, IsoTrial, WeekTrial, DoyTrial, LastDay, Checked;
    hide Ymd.Reconcile, Ymd.ReconcileDay, Ymd.ToDate;
    var s0 := Ymd(if YearOk(f.Y) then f.Y else NOT_A_YEAR, f.m, f.d);
    var s1 := s0;
    if f.HasIso() {
      s1 := WeekStage(s0, IsoTrial(f.G, f.V, f.wd));
    }
    var s2 := s1;
    if f.HasWeek(f.U) {
      s2 := WeekStage(s1, WeekTrial(s1.Y, f.U, f.wd, SUNDAY));
    }
    var s3 := s2;
    if f.HasWeek(f.W) {
      s3 := WeekStage(s2, WeekTrial(s2.Y, f.W, f.wd, MONDAY));
    }
    var s4 := s3;
    if f.HasYear() && f.j != NOT_A_DOY {
      DayIsSmall(DoyTrial(s3.Y, f.j));
      ReconcileDayFixes(s3, FromDays(DoyTrial(s3.Y, f.j)), s3.Y);
      s4 := s3.ReconcileDay(FromDays(DoyTrial(s3.Y, f.j)), s3.Y).value;
    }
    assert s4.ToDate() == x;
    OkMonthAndDay(x);
    ToDateFields(s4);
    if s4.Y != NOT_A_YEAR {
      IsToDate(s4, Date(s4.Y, s4.m, s4.d));
    }
  }

  lemma {:induction false} OkMonthAndDay(x: Date)
    requires Ok(x)
    ensures HasMonthAndDay(x)
  {
  }

  lemma {:induction false} ToDateFields(s: Ymd)
    requires s.Small() && HasMonthAndDay(s.ToDate())
    ensures s.ToDate().month == s.m && s.ToDate().day == s.d
  {
    ByteMatches(s.m, s.ToDate().month);
    ByteMatches(s.d, s.ToDate().day);
  }

  /** Whenever a valid date is resolved, the year, month, day and weekday fields and the Sunday and Monday
      week numbers agree with it. ISO year and week agree exactly when the ISO year has the week, if they
      gave the date, and always if no week fields did. The day of the year agrees exactly when the year
      has the day; without a year it is not looked at. */
  lemma {:induction false} ResolvedAgrees(f: Fields, x: Date)
    requires f.Readable() && Resolved(f) == Some(x) && Ok(x)
    ensures (YearOk(f.Y) ==> f.Y == x.year) && (f.m != NOT_A_MONTH ==> f.m == x.month)
            && (f.d != NOT_A_DAY ==> f.d == x.day) && f.WeekFieldsAgree(x)
    ensures f.HasIso() ==> (f.IsoFieldsAgree(x) <==> 1 <= f.V <= WeeksIn(f.G))
    ensures !f.Computed() ==> f.IsoFieldsAgree(x)
    ensures f.HasYear() && f.j != NOT_A_DOY ==> (f.j == DayOfYearOf(x) <==> 1 <= f.j <= YearLength(x.year))
    ensures !f.HasYear() ==> forall j :: -1 <= j <= 999 ==> Resolved(f.(j := j)) == Some(x)
  {
    hide ToDays, FromDays, IsoTrial, WeekTrial, DoyTrial, LastDay, Resolved, DayOfYearOf, FirstWeekday, WeekdayOf;
    hide IsoChecked, IsoWeek, IsoYear, WeekOfYear, WeeksIn, YearLength, DayOfWeek;
    ResolvedEstablishes(f, x);
    WeekFieldsFollow(f, x);
    if f.HasIso() {
      IsoTrialIsInWeek(f.G, f.V, f.wd);
    }
    if !f.Computed() {
      IsoFieldsFollow(f, x);
    }
    if f.HasYear() && f.j != NOT_A_DOY {
      DayOfYearFollows(x.year, f.j);
    }
    if !f.HasYear() {
      forall j | -1 <= j <= 999
        ensures Resolved(f.(j := j)) == Resolved(f)
      {
        LoneDayOfYearIgnored(f, j);
      }
    }
  }

  lemma {:induction false} IsoTrialRange(g: int, v: int, wd: nat)
    requires YearOk(g) && 0 <= v <= 99
    ensures DaysBeforeYear(g) - 10 <= IsoTrial(g, v, wd) <= DaysBeforeYear(g) + 700
  {
    hide WeekOneStart, DaysFrom, DaysBeforeYear;
    WeekOneStartCorrect(g);
  }

  lemma {:induction false} WeekTrialRange(y: short, n: int, wd: nat, first: nibble)
    requires YearOk(y) && 0 <= n <= 99 && first <= 6
    ensures DaysBeforeYear(y) - 10 <= WeekTrial(y, n, wd, first) <= DaysBeforeYear(y) + 700
  {
    hide FirstWeekday, DaysFrom, DaysBeforeYear, ToShort;
    ShortIsIdentity(y);
    FirstWeekdayCorrect(y, first);
  }

  lemma {:induction false} WeekFieldsFollow(f: Fields, x: Date)
    requires f.Readable() && Ok(x) && Established(f, x)
    ensures f.WeekFieldsAgree(x)
  {
    hide ToDays, FromDays, WeekTrial, IsoTrial, DoyTrial, LastDay, FirstWeekday, DaysBeforeYear, DaysSince, DayOfWeek,
        IsoChecked, WeekOfYear, WeekdayOf;
    WeekdayOfCorrect(x);
    if f.HasWeek(f.U) {
      WeekTrialIsInWeek(x.year, f.U, f.wd, SUNDAY);
    }
    if f.HasWeek(f.W) {
      WeekTrialIsInWeek(x.year, f.W, f.wd, MONDAY);
    }
    CheckedWeekNumber(x, SUNDAY);
    CheckedWeekNumber(x, MONDAY);
  }

  lemma {:induction false} CheckedWeekNumber(x: Date, first: nibble)
    requires Ok(x) && first <= 6
    ensures (ToDays(x) - FirstWeekday(x.year, first)) / 7 + 1 == WeekOfYear(x, first)
  {
    hide ToDays, FirstWeekday, DayOfWeek, DaysSince, DaysBeforeYear, CountDays;
    YearOfDate(x);
    var k := WeeksSinceFirst(ToDays(x), x.year, first);
    DaysSinceRange(ToDays(x), first);
    FirstWeekdayCorrect(x.year, first);
    CountIsWeeks(ToDays(x), DaysBeforeYear(x.year), FirstWeekday(x.year, first), first, k);
    QuotientUnique(ToDays(x) - FirstWeekday(x.year, first), 7, k, DaysSince(ToDays(x), first));
  }

  lemma {:induction false} IsoFieldsFollow(f: Fields, x: Date)
    requires f.Readable() && Ok(x) && IsoChecked(f, x)
    ensures f.IsoFieldsAgree(x)
  {
    hide ToDays, FromDays, WeekOneStart, LastDay, IsoYear, IsoWeek, Quotient, ToShort;
    TrialWeek(x);
    IsoYearRange(x);
  }

  lemma {:induction false} DayOfYearFollows(y: short, j: nat)
    requires YearOk(y) && j <= 999
    ensures var t := FromDays(DoyTrial(y, j)); var x := Date(y, t.month, t.day);
            Ok(x) ==> (j == DayOfYearOf(x) <==> 1 <= j <= YearLength(y))
  {
    hide ToDays, FromDays, MonthStart, DaysBeforeYear, LastDay, YearLength, ToShort;
    var t := FromDays(DoyTrial(y, j));
    var x := Date(y, t.month, t.day);
    ShortIsIdentity(y);
    MonthStartOfJanuary(y);
    YearStep(y);
    if Ok(x) {
      DayOfYearRoundTrip(x);
      if 1 <= j <= YearLength(y) {
        YearFound(DoyTrial(y, j), y);
      }
    }
  }

  /** A lone ISO week number, or a lone ISO year, is not looked at once Sunday or Monday weeks have
      given the date: from_stream accepts any value for it. */
  lemma {:induction false} LoneIsoFieldIgnored(f: Fields, g: int, v: nat)
    requires f.Readable() && f.G == NOT_A_YEAR && f.V == NOT_A_WEEK_NUM
    requires f.HasWeek(f.U) || f.HasWeek(f.W)
    requires v < NOT_A_WEEK_NUM && YearOk(g)
    ensures Resolved(f.(V := v)) == Resolved(f) == Resolved(f.(G := g))
  {
    hide ToDays, FromDays, IsoTrial, WeekTrial, DoyTrial, LastDay, IsoChecked, WeekdayOf, FirstWeekday;
    hide Ymd.Reconcile, Ymd.ReconcileDay, Ymd.ToDate;
  }

  /** A lone day of the year is not looked at when there is no year. */
  lemma {:induction false} LoneDayOfYearIgnored(f: Fields, j: int)
    requires f.Readable() && !f.HasYear() && -1 <= j <= 999
    ensures Resolved(f.(j := j)) == Resolved(f)
  {
    hide ToDays, FromDays, IsoTrial, WeekTrial, DoyTrial, LastDay, WeekdayOf, FirstWeekday, WeekOneStart, Quotient;
    hide Ymd.Reconcile, Ymd.ReconcileDay, Ymd.ToDate;
  }

  // ---- Weeks and days that a year does not have

  function IsoFields(g: int, v: nat, wd: nat): Fields {
    Fields(NOT_A_YEAR, NOT_A_MONTH, NOT_A_DAY, NOT_A_DOY, wd, g, v, NOT_A_WEEK_NUM, NOT_A_WEEK_NUM)
  }

  function DoyFields(y: int, j: int): Fields {
    Fields(y, NOT_A_MONTH, NOT_A_DAY, j, NOT_A_WEEKDAY, NOT_A_YEAR, NOT_A_WEEK_NUM, NOT_A_WEEK_NUM, NOT_A_WEEK_NUM)
  }

  /** Every ISO week number is accepted, whether or not the ISO year has the week: 53 in a year of 52 weeks
      or 54 in any other is the first week of the next year. The result is a valid date exactly when that day
      is one; at the end of the last valid year it is not. */
  lemma {:induction false} EveryIsoWeekAccepted(g: int, v: nat, wd: nat)
    requires YearOk(g) && v <= 99 && wd <= 6
    ensures IsoFields(g, v, wd).Readable()
    ensures Resolved(IsoFields(g, v, wd)) == Some(FromDays(IsoTrial(g, v, wd)))
    ensures Ok(FromDays(IsoTrial(g, v, wd))) <==> FIRST_DAY <= IsoTrial(g, v, wd) <= LAST_DAY
    ensures DayOfWeek(IsoTrial(g, v, wd)) == wd && MondayOf(IsoTrial(g, v, wd)) == WeekOneStart(g) + 7 * (v - 1)
    ensures v == WeeksIn(g) + 1 ==> IsoTrial(g, v, wd) == IsoTrial(g + 1, 1, wd)
  {
    hide ToDays, FromDays, IsoTrial, WeekTrial, DoyTrial, LastDay, IsoChecked, WeekdayOf, FirstWeekday;
    hide WeeksIn, DayOfWeek, MondayOf, WeekOneStart, Ymd.Reconcile, Ymd.ToDate;
    var z := IsoTrial(g, v, wd);
    IsoTrialRange(g, v, wd);
    InverseNearYear(z, g);
    IsoTrialWeekday(g, v, wd);
    var x := FromDays(z);
    FromDaysThenToDays(z);
    if Ok(x) {
      OkRange(x);
    }
    WeekdayOfCorrect(x);
    ReconcileHits(Ymd(NOT_A_YEAR, NOT_A_MONTH, NOT_A_DAY), x);
    IsToDate(Ymd(x.year, x.month, x.day), x);
    FirstWeekOfNextYear(g, v, wd);
  }

  lemma {:induction false} FirstWeekOfNextYear(g: int, v: nat, wd: nat)
    requires YearOk(g) && v <= 99
    ensures v == WeeksIn(g) + 1 ==> IsoTrial(g, v, wd) == IsoTrial(g + 1, 1, wd)
  {
    hide WeekOneStart, DaysFrom, WeeksIn;
    WeeksInYear(g);
  }

  /** Every day of the year is accepted in every year; the year stays, and month and day are those that
      are reached by counting on: the day after the last one is 1 January of the same year. */
  lemma {:induction false} EveryDayOfYearAccepted(y: int, j: nat)
    requires YearOk(y) && j <= 999
    ensures DoyFields(y, j).Readable()
    ensures var x := FromDays(DoyTrial(y, j)); Resolved(DoyFields(y, j)) == Some(Date(y, x.month, x.day))
    ensures DoyTrial(y, j) == DaysBeforeYear(y) + j - 1
    ensures j == YearLength(y) + 1 ==> Resolved(DoyFields(y, j)) == Some(Date(y, 1, 1))
  {
    hide ToDays, FromDays, IsoTrial, WeekTrial, DoyTrial, LastDay, YearLength, DaysBeforeYear;
    hide Ymd.ReconcileDay, Ymd.ToDate, Checked;
    var x := FromDays(DoyTrial(y, j));
    ReconcileHits(Ymd(y, NOT_A_MONTH, NOT_A_DAY), Date(y, x.month, x.day));
    SameMonthAndDay(Ymd(y, NOT_A_MONTH, NOT_A_DAY), x, Date(y, x.month, x.day));
    IsToDate(Ymd(y, x.month, x.day), Date(y, x.month, x.day));
    NothingToCheck(y, j, Date(y, x.month, x.day));
    DoyTrialCounts(y, j);
    NewYear(y);
  }

  lemma {:induction false} DoyTrialCounts(y: int, j: nat)
    requires YearOk(y) && j <= 999
    ensures DoyTrial(y, j) == DaysBeforeYear(y) + j - 1
  {
    hide DaysBeforeYear, MonthStart, ToShort;
    ShortIsIdentity(y);
    MonthStartOfJanuary(y);
  }

  lemma {:induction false} NothingToCheck(y: int, j: int, x: Date)
    ensures Checked(DoyFields(y, j), x)
  {
  }

  lemma {:induction false} SameMonthAndDay(s: Ymd, a: Date, b: Date)
    requires a.month == b.month && a.day == b.day
    ensures s.ReconcileDay(a, s.Y) == s.ReconcileDay(b, s.Y)
  {
  }

  lemma {:induction false} NewYear(y: int)
    requires YearOk(y)
    ensures 0 <= YearLength(y) + 1 <= 999
    ensures var x := FromDays(DoyTrial(y, YearLength(y) + 1)); x.month == 1 && x.day == 1
  {
    hide FromDays, DaysBeforeYear, CountedDays, YearLength, ToShort, MonthStart, LastDay;
    YearLengthBounds(y);
    ShortIsIdentity(y);
    MonthStartOfJanuary(y);
    YearStep(y);
    JanuaryFirst(y + 1);
    var z := DoyTrial(y, YearLength(y) + 1);
    var ty := FromDaysCounts(z);
    JanuaryIsValid(y + 1);
    CountingInjective(ty, FromDays(z).month, FromDays(z).day, y + 1, 1, 1);
  }

  lemma {:induction false} JanuaryIsValid(y: int)
    ensures Valid(y, 1, 1)
  {
  }
}
