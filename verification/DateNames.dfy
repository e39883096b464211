/** What from_stream makes of any fields that it has read: the dates that fields name, stated on the fields
    alone, and the resolution as the search for such a date. */
module DateNames {
  import opened MachineInts
  import opened Gregorian
  import opened Weekdays
  import opened WeekDates
  import opened DateFields
  import opened Wrappers

  /** Year, month and day that were read are those of `x`. */
  predicate Matches(f: Fields, x: Date) {
    && (YearOk(f.Y) ==> f.Y == x.year)
    && (f.m != NOT_A_MONTH ==> f.m == x.month)
    && (f.d != NOT_A_DAY ==> f.d == x.day)
  }

  predicate SameDayOfMonth(a: Date, b: Date) {
    a.month == b.month && a.day == b.day
  }

  /** Every week date or day of the year that was read leads to `x`, the latter in its year. */
  predicate TrialsLeadTo(f: Fields, x: Date)
    requires f.Readable()
  {
    && (f.HasIso() ==> FromDays(IsoTrial(f.G, f.V, f.wd)) == x)
    && (f.HasWeek(f.U) ==> FromDays(WeekTrial(x.year, f.U, f.wd, SUNDAY)) == x)
    && (f.HasWeek(f.W) ==> FromDays(WeekTrial(x.year, f.W, f.wd, MONDAY)) == x)
    && (f.j != NOT_A_DOY ==> SameDayOfMonth(FromDays(DoyTrial(x.year, f.j)), x))
  }

  /** A valid date is held against the weekday, and against the week fields when none of them gave it. The
      ISO week of the first two valid dates is never right. */
  predicate Acceptable(f: Fields, x: Date) {
    Ok(x) ==>
      && (f.wd != NOT_A_WEEKDAY ==> f.wd == DayOfWeek(ToDays(x)))
      && (!f.Computed() ==>
            f.WeekFieldsAgree(x) && f.IsoFieldsAgree(x) && (f.V == NOT_A_WEEK_NUM || IsoDated(x)))
  }

  /** What fields resolve to: the date that their week fields lead to, or else the one that year and day of
      the year lead to, or else year, month and day as they were read, with 0 for those that were not. */
  predicate Names(f: Fields, x: Date)
    requires f.Readable()
  {
    && Acceptable(f, x)
    && if f.Computed() || (f.HasYear() && f.j != NOT_A_DOY) then
         Matches(f, x) && TrialsLeadTo(f, x)
       else
         x == Date(if YearOk(f.Y) then f.Y else 0, ToByte(f.m), ToByte(f.d))
  }

  lemma {:induction false} CheckedIsAcceptable(f: Fields, x: Date)
    requires f.Readable() && Ok(x)
    ensures Checked(f, x) <==> Acceptable(f, x)
  {
    hide ToDays, FromDays, FirstWeekday, WeekOneStart, IsoYear, IsoWeek, LastDay, IsoChecked, WeekdayOf, WeekOfYear, Ok;
    hide DayOfWeek;
    WeekdayOfCorrect(x);
    CheckedWeekNumber(x, SUNDAY);
    CheckedWeekNumber(x, MONDAY);
    IsoCheckedIs(f, x);
  }

  lemma {:induction false} IsoCheckedIs(f: Fields, x: Date)
    requires f.Readable() && Ok(x)
    ensures IsoChecked(f, x) <==> f.IsoFieldsAgree(x) && (f.V == NOT_A_WEEK_NUM || IsoDated(x))
  {
    hide ToDays, FromDays, WeekOneStart, LastDay, IsoYear, IsoWeek, Quotient, ToShort;
    TrialWeek(x);
    IsoYearRange(x);
  }

  lemma {:induction false} ReconcileIff(s: Ymd, t: Date)
    requires s.Small() && HasMonthAndDay(t)
    ensures s.Reconcile(t) == if s.Holds(t) then Some(Ymd(t.year, t.month, t.day)) else None
  {
    hide ToShort, ToByte;
    if s.Holds(t) {
      ReconcileHits(s, t);
    } else if s.Reconcile(t).Some? {
      ReconcileFixes(s, t);
    }
  }

  lemma {:induction false} ReconcileDayIff(s: Ymd, t: Date)
    requires s.Small() && HasMonthAndDay(t)
    ensures s.ReconcileDay(t, s.Y) ==
            if (s.m == NOT_A_MONTH || s.m == t.month) && (s.d == NOT_A_DAY || s.d == t.day) then
              Some(Ymd(s.Y, t.month, t.day))
            else None
  {
    hide ToByte;
    NarrowingIsIdentity(t.month);
    NarrowingIsIdentity(t.day);
    if s.ReconcileDay(t, s.Y).Some? {
      ReconcileDayFixes(s, t, s.Y);
    }
  }

  function YmdOf(t: Date): Ymd {
    Ymd(t.year, t.month, t.day)
  }

  /** Once a trial date has been taken over, a further one must be the same. */
  lemma {:induction false} SecondTrial(t: Date, z: int)
    requires HasMonthAndDay(t) && Countable(z)
    ensures YmdOf(t).Reconcile(FromDays(z)) == if FromDays(z) == t then Some(YmdOf(t)) else None
    ensures YmdOf(t).ReconcileDay(FromDays(z), t.year) ==
      if SameDayOfMonth(FromDays(z), t) then Some(YmdOf(t)) else None
    ensures YmdOf(t).ToDate() == t
  {
    hide FromDays, Ymd.Reconcile, Ymd.ReconcileDay, Ymd.ToDate;
    DayIsSmall(z);
    ReconcileIff(YmdOf(t), FromDays(z));
    ReconcileDayIff(YmdOf(t), FromDays(z));
    IsToDate(YmdOf(t), t);
  }

  /** The end of the resolution: the stored date, unless a check fails */
  function Ended(f: Fields, x: Date): Option<Date> {
    if Ok(x) && !Checked(f, x) then None else Some(x)
  }

  lemma {:induction false} EndedIs(f: Fields, x: Date)
    requires f.Readable()
    ensures Ended(f, x) == if Acceptable(f, x) then Some(x) else None
  {
    hide Checked, LastDay;
    if Ok(x) {
      CheckedIsAcceptable(f, x);
    }
  }

  lemma {:induction false} ResolvedFromWeeks(f: Fields, x: Date)
    requires f.Readable() && f.Computed()
    ensures Resolved(f) == Some(x) <==> Names(f, x)
  {
    hide ToDays, FromDays, IsoTrial, WeekTrial, DoyTrial, Ok, Checked, Acceptable, Ymd.Reconcile, Ymd.ReconcileDay,
      Ymd.ToDate;
    var s0 := Ymd(if YearOk(f.Y) then f.Y else NOT_A_YEAR, f.m, f.d);
    var z := if f.HasIso() then IsoTrial(f.G, f.V, f.wd)
             else if f.HasWeek(f.U) then WeekTrial(f.Y, f.U, f.wd, SUNDAY)
             else WeekTrial(f.Y, f.W, f.wd, MONDAY);
    var t := FromDays(z);
    DayIsSmall(z);
    ReconcileIff(s0, t);
    SecondTrial(t, WeekTrial(t.year, f.U, f.wd, SUNDAY));
    SecondTrial(t, WeekTrial(t.year, f.W, f.wd, MONDAY));
    if f.j != NOT_A_DOY {
      SecondTrial(t, DoyTrial(t.year, f.j));
    }
    EndedIs(f, t);
    assert s0.Holds(t) <==> Matches(f, t);
  }

  lemma {:induction false} ResolvedFromDay(f: Fields, x: Date)
    requires f.Readable() && !f.Computed()
    ensures Resolved(f) == Some(x) <==> Names(f, x)
  {
    hide ToDays, FromDays, IsoTrial, WeekTrial, DoyTrial, Ok, Checked, Acceptable, Ymd.Reconcile, Ymd.ReconcileDay,
      Ymd.ToDate;
    var s0 := Ymd(if YearOk(f.Y) then f.Y else NOT_A_YEAR, f.m, f.d);
    StoredFields(f);
    if f.HasYear() && f.j != NOT_A_DOY {
      var t := FromDays(DoyTrial(f.Y, f.j));
      DayIsSmall(DoyTrial(f.Y, f.j));
      ReconcileDayIff(s0, t);
      IsToDate(Ymd(f.Y, t.month, t.day), Date(f.Y, t.month, t.day));
      EndedIs(f, Date(f.Y, t.month, t.day));
    } else {
      EndedIs(f, s0.ToDate());
    }
  }

  lemma {:induction false} StoredFields(f: Fields)
    ensures Ymd(if YearOk(f.Y) then f.Y else NOT_A_YEAR, f.m, f.d).ToDate() ==
            Date(if YearOk(f.Y) then f.Y else 0, ToByte(f.m), ToByte(f.d))
  {
    if YearOk(f.Y) {
      ShortIsIdentity(f.Y);
    }
  }

  /** For all fields: they resolve to a date exactly when they name it; fields that name none are refused. */
  lemma {:induction false} ResolvedIffNamed(f: Fields, x: Date)
    requires f.Readable()
    ensures Resolved(f) == Some(x) <==> Names(f, x)
  {
    hide Resolved, Names;
    if f.Computed() {
      ResolvedFromWeeks(f, x);
    } else {
      ResolvedFromDay(f, x);
    }
  }

  /** Year, month and day that do not make a valid date are handed on as they were read, with 0 for what is
      missing: from_stream for a year and a month takes them from there. */
  lemma {:induction false} IncompleteDateKept(f: Fields)
    requires f.Readable() && YearOk(f.Y) && !f.Computed() && f.j == NOT_A_DOY && f.m >= 0 && f.d >= 0
    requires !Ok(Date(f.Y, f.m, f.d))
    ensures Resolved(f) == Some(Date(f.Y, f.m, f.d))
  {
    hide Resolved, Ok;
    NarrowingIsIdentity(f.m);
    NarrowingIsIdentity(f.d);
    ResolvedIffNamed(f, Date(f.Y, f.m, f.d));
  }

  /** Without a year, not_a_year itself is stored as a short, which is 0: a month and a day alone are
      resolved in the year 0, and every field that was read is held against that date. */
  lemma {:induction false} MissingYearIsYearZero(f: Fields)
    requires f.Readable() && !f.HasYear()
    ensures var x := Date(0, ToByte(f.m), ToByte(f.d));
            Resolved(f) == if Ok(x) && !(f.WeekFieldsAgree(x) && f.IsoFieldsAgree(x)) then None else Some(x)
  {
    hide ToDays, FromDays, IsoTrial, WeekTrial, DoyTrial, LastDay, Checked, Ymd.Reconcile, Ymd.ReconcileDay;
    hide DayOfWeek, WeekOfYear, Fields.IsoFieldsAgree;
    var x := Date(0, ToByte(f.m), ToByte(f.d));
    if Ok(x) {
      OkInYearZero(x);
      CheckedIsAcceptable(f, x);
    }
  }

  lemma {:induction false} OkInYearZero(x: Date)
    requires Ok(x) && x.year == 0
    ensures IsoDated(x)
  {
    hide ToDays, DaysBeforeYear, LastDay;
    YearOfDate(x);
    YearRangeEnds();
    YearsInOrder(-0x7fff, 0);
  }
}
