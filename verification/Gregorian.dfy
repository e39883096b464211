/** year_month_day: the closed-form conversions between day counts and dates of the proleptic
    Gregorian calendar (ISO 8601:2004, section 3.2.1). */
module Gregorian {
  import opened MachineInts

  /** The three stored fields; Ok says when they name a date. */
  datatype Date = Date(year: short, month: byte, day: byte)

  const MONTH_LENGTHS: seq<byte> := [31, 28, 31, 30, 31, 30, 31, 31, 30, 31, 30, 31]

  predicate YearOk(y: int) {
    -0x7fff <= y <= 0x7fff
  }

  predicate MonthOk(m: int) {
    1 <= m <= 12
  }

  predicate IsLeap(y: int) {
    Remainder(y, 4) == 0 && (Remainder(y, 100) != 0 || Remainder(y, 400) == 0)
  }

  function LastDay(y: int, m: byte): byte {
    if (m != 2 || !IsLeap(y)) && MonthOk(m) then MONTH_LENGTHS[m - 1] else 29
  }

  predicate Ok(x: Date) {
    YearOk(x.year) && MonthOk(x.month) && 1 <= x.day <= LastDay(x.year, x.month)
  }

  /** Months counted from March, so that the leap day is the last day of the shifted year. */
  function MarchMonth(m: byte): nat {
    if m > 2 then m - 3 else m + 9
  }

  function MarchYear(x: Date): int {
    x.year - (if x.month <= 2 then 1 else 0)
  }

  function DaysBeforeMarchYear(yoe: nat): int {
    yoe * 365 + yoe / 4 - yoe / 100
  }

  function MarchDay(m: byte, d: byte): int {
    (153 * MarchMonth(m) + 2) / 5 + d - 1
  }

  /** to_days: month, day and everything computed from them are unsigned in the source. */
  function ToDays(x: Date): int {
    var y := MarchYear(x);
    var era := Quotient(if y >= 0 then y else y - 399, 400);
    var yoe := ToUnsigned(y - era * 400);
    var doy := ToUnsigned(MarchDay(x.month, x.day));
    var doe := ToUnsigned(DaysBeforeMarchYear(yoe) + doy);
    era * 146097 + ToInt(doe) - 719468
  }

  /** The day counts for which the first addition of from_days does not overflow. */
  predicate Countable(dp: int) {
    INT_MIN <= dp <= INT_MAX - 719468
  }

  function Era(z: int): int {
    Quotient(if z >= 0 then z else z - 146096, 146097)
  }

  function YearOfEra(doe: nat): nat {
    ToUnsigned(doe - doe / 1460 + doe / 36524 - doe / 146096) / 365
  }

  function DayOfYear(doe: nat, yoe: nat): nat {
    ToUnsigned(doe - DaysBeforeMarchYear(yoe))
  }

  function ShiftedMonth(doy: nat): nat {
    (5 * doy + 2) / 153
  }

  /** The calendar date of a day of a year that starts in March. */
  function FromMarchYear(y: int, doy: nat): Date {
    var mp := ShiftedMonth(doy);
    var d := ToUnsigned(doy - (153 * mp + 2) / 5 + 1);
    var m := if mp < 10 then mp + 3 else mp - 9;
    Date(ToShort(y + if m <= 2 then 1 else 0), ToByte(m), ToByte(d))
  }

  function FromDays(dp: int): Date
    requires Countable(dp)
  {
    var z := dp + 719468;
    var era := Era(z);
    var doe := ToUnsigned(z - era * 146097);
    var yoe := YearOfEra(doe);
    FromMarchYear(yoe + era * 400, DayOfYear(doe, yoe))
  }

  predicate Less(x: Date, y: Date) {
    if x.year < y.year then true
    else if x.year > y.year then false
    else if x.month < y.month then true
    else if x.month > y.month then false
    else x.day < y.day
  }

  // ---- Counting days one year and one month at a time from 1970-01-01

  function YearLength(y: int): int {
    if IsLeap(y) then 366 else 365
  }

  function DaysBeforeYear(y: int): int
    decreases if y < 1970 then 1970 - y else y - 1970
  {
    if y == 1970 then 0
    else if y > 1970 then DaysBeforeYear(y - 1) + YearLength(y - 1)
    else DaysBeforeYear(y + 1) - YearLength(y)
  }

  function DaysBeforeMonth(y: int, m: int): int
    requires MonthOk(m)
  {
    if m == 1 then 0 else DaysBeforeMonth(y, m - 1) + LastDay(y, m - 1)
  }

  function CountedDays(y: int, m: int, d: int): int
    requires MonthOk(m)
  {
    DaysBeforeYear(y) + DaysBeforeMonth(y, m) + d - 1
  }

  // ---- to_days refines counting

  /** Days in the years 0 .. y-1 when a year starts in March. */
  function MarchDays(y: int): int {
    365 * y + y / 4 - y / 100 + y / 400
  }

  lemma {:induction false} LeapYears(y: int)
    ensures IsLeap(y) <==> MarchDays(y) - MarchDays(y - 1) == 366
    ensures !IsLeap(y) <==> MarchDays(y) - MarchDays(y - 1) == 365
  {
    hide MarchDays, Remainder;
    RemainderZero(y, 4);
    RemainderZero(y, 100);
    RemainderZero(y, 400);
    MarchDaysStep(y);
    CenturyIsFourthYear(y);
  }

  lemma {:induction false} MarchDaysStep(y: int)
    ensures MarchDays(y) - MarchDays(y - 1) ==
            365 + (if y % 4 == 0 then 1 else 0) - (if y % 100 == 0 then 1 else 0) + (if y % 400 == 0 then 1 else 0)
  {
    QuotientStep(y, 4);
    QuotientStep(y, 100);
    QuotientStep(y, 400);
  }

  lemma {:induction false} CenturyIsFourthYear(y: int)
    ensures y % 100 == 0 ==> y % 4 == 0
    ensures y % 400 == 0 ==> y % 100 == 0
  {
    if y % 100 == 0 {
      QuotientUnique(y, 4, 25 * (y / 100), 0);
    }
    if y % 400 == 0 {
      QuotientUnique(y, 100, 4 * (y / 400), 0);
    }
  }

  lemma {:induction false} YearsClosedForm(y: int)
    ensures DaysBeforeYear(y) == MarchDays(y - 1) + 306 - 719468
    decreases if y < 1970 then 1970 - y else y - 1970
  {
    if y > 1970 {
      YearsClosedForm(y - 1);
      LeapYears(y - 1);
    } else if y < 1970 {
      YearsClosedForm(y + 1);
      LeapYears(y);
    }
  }

  lemma {:induction false} MonthsClosedForm(y: int, m: int)
    requires MonthOk(m)
    ensures DaysBeforeMonth(y, m) ==
            if m > 2 then (153 * (m - 3) + 2) / 5 + 59 + (if IsLeap(y) then 1 else 0)
            else (153 * (m + 9) + 2) / 5 - 306
  {
    hide IsLeap;
    if m > 1 {
      MonthsClosedForm(y, m - 1);
    }
  }

  lemma {:induction false} MarchDaysOfEra(era: int, yoe: int)
    requires 0 <= yoe < 400
    ensures MarchDays(400 * era + yoe) == era * 146097 + DaysBeforeMarchYear(yoe)
  {
    var y := 400 * era + yoe;
    assert y / 4 == 100 * era + yoe / 4;
    assert y / 100 == 4 * era + yoe / 100;
    assert y / 400 == era;
  }

  lemma {:induction false} ToDaysUnwrapped(x: Date)
    ensures ToDays(x) == MarchDays(MarchYear(x)) - 719468 + MarchDay(x.month, x.day)
  {
    var y := MarchYear(x);
    var era := Quotient(if y >= 0 then y else y - 399, 400);
    ShiftedQuotientIsFloor(y, 400);
    var yoe := y - era * 400;
    assert 0 <= yoe < 400;
    assert ToUnsigned(yoe) == yoe;
    var before, doy := DaysBeforeMarchYear(yoe), MarchDay(x.month, x.day);
    assert ToDays(x) == era * 146097 + ToInt(ToUnsigned(before + ToUnsigned(doy))) - 719468;
    assert 0 <= before <= 0x4_0000 && -1 <= doy <= 0x4000;
    WrappedSum(before, doy);
    MarchDaysOfEra(era, yoe);
  }

  lemma {:induction false} CountedDaysClosedForm(y: int, m: int, d: int)
    requires MonthOk(m)
    ensures CountedDays(y, m, d) == MarchDays(if m <= 2 then y - 1 else y) - 719468
                                    + (153 * MarchMonth(m) + 2) / 5 + d - 1
  {
    YearsClosedForm(y);
    MonthsClosedForm(y, m);
    LeapYears(y);
  }

  /** to_days is the naive count from the epoch, for every day field: a day 0 or a day past the end
      of the month counts on into the neighbouring months. */
  lemma {:induction false} ToDaysCountsDays(x: Date)
    requires MonthOk(x.month)
    ensures ToDays(x) == CountedDays(x.year, x.month, x.day)
  {
    ToDaysUnwrapped(x);
    CountedDaysClosedForm(x.year, x.month, x.day);
  }

  // ---- Counting is strictly increasing

  predicate Valid(y: int, m: int, d: int) {
    MonthOk(m) && 1 <= d <= LastDay(y, m)
  }

  predicate Earlier(y: int, m: int, d: int, y': int, m': int, d': int) {
    y < y' || (y == y' && (m < m' || (m == m' && d < d')))
  }

  lemma {:induction false} YearsIncrease(y: int, y': int)
    requires y <= y'
    ensures MarchDays(y) + 365 * (y' - y) <= MarchDays(y')
    decreases y' - y
  {
    if y < y' {
      YearsIncrease(y, y' - 1);
      LeapYears(y');
    }
  }

  lemma {:induction false} MonthsIncrease(y: int, m: int, m': int)
    requires MonthOk(m) && MonthOk(m') && m < m'
    ensures DaysBeforeMonth(y, m) + LastDay(y, m) <= DaysBeforeMonth(y, m')
  {
    hide IsLeap;
    if m + 1 < m' {
      MonthsIncrease(y, m, m' - 1);
    }
  }

  lemma {:induction false} DayOfYearBound(y: int, m: int, d: int)
    requires Valid(y, m, d)
    ensures 0 <= DaysBeforeMonth(y, m) + d - 1 < YearLength(y)
  {
    MonthsClosedForm(y, m);
  }

  lemma {:induction false} CountingIncreases(y: int, m: int, d: int, y': int, m': int, d': int)
    requires Valid(y, m, d) && Valid(y', m', d')
    requires Earlier(y, m, d, y', m', d')
    ensures CountedDays(y, m, d) < CountedDays(y', m', d')
  {
    DayOfYearBound(y, m, d);
    DayOfYearBound(y', m', d');
    if y < y' {
      YearsClosedForm(y);
      YearsClosedForm(y');
      YearsIncrease(y, y' - 1);
      LeapYears(y);
    } else if m < m' {
      MonthsIncrease(y, m, m');
    }
  }

  lemma {:induction false} CountingInjective(y: int, m: int, d: int, y': int, m': int, d': int)
    requires Valid(y, m, d) && Valid(y', m', d')
    requires CountedDays(y, m, d) == CountedDays(y', m', d')
    ensures y == y' && m == m' && d == d'
  {
    if Earlier(y, m, d, y', m', d') {
      CountingIncreases(y, m, d, y', m', d');
    } else if Earlier(y', m', d', y, m, d) {
      CountingIncreases(y', m', d', y, m, d);
    }
  }

  // ---- from_days

  /** A day of the 400-year era by century, four-year cycle, year of the cycle and day of the year.
      Only the last year of a cycle has a day 365, and the last cycle of a century has none unless
      the century is the last of the era. */
  datatype EraDay = EraDay(c: nat, q: nat, k: nat, t: nat) {
    predicate Valid() {
      c <= 3 && q <= 24 && k <= 3 && t <= 365 && (t == 365 ==> k == 3 && (q < 24 || c == 3))
    }

    function Year(): nat {
      100 * c + 4 * q + k
    }

    function Doe(): nat {
      36524 * c + 1461 * q + 365 * k + t
    }
  }

  lemma {:induction false} EraDayOf(doe: nat) returns (e: EraDay)
    requires doe <= 146096
    ensures e.Valid() && e.Doe() == doe
  {
    var c := if doe == 146096 then 3 else doe / 36524;
    var r := doe - 36524 * c;
    assert 0 <= r <= 36524 && (r == 36524 ==> c == 3);
    var q := r / 1461;
    var s := r - 1461 * q;
    var k := if s == 1460 then 3 else s / 365;
    e := EraDay(c, q, k, s - 365 * k);
  }

  lemma {:induction false} MarchDaysOfEraDay(e: EraDay)
    requires e.Valid()
    ensures MarchDays(e.Year()) == e.Doe() - e.t
    ensures MarchDays(e.Year() + 1) == e.Doe() - e.t
                                       + if e.k == 3 && (e.q < 24 || e.c == 3) then 366 else 365
  {
    StartOfEraDayYear(e);
    EndOfEraDayYear(e);
  }

  lemma {:induction false} StartOfEraDayYear(e: EraDay)
    requires e.Valid()
    ensures MarchDays(e.Year()) == e.Doe() - e.t
  {
    var y := e.Year();
    QuotientUnique(y, 4, 25 * e.c + e.q, e.k);
    QuotientUnique(y, 100, e.c, 4 * e.q + e.k);
    QuotientUnique(y, 400, 0, y);
  }

  lemma {:induction false} EndOfEraDayYear(e: EraDay)
    requires e.Valid()
    ensures MarchDays(e.Year() + 1) == e.Doe() - e.t
                                       + if e.k == 3 && (e.q < 24 || e.c == 3) then 366 else 365
  {
    var y := e.Year();
    var century := e.q == 24 && e.k == 3;
    QuotientUnique(y + 1, 4, 25 * e.c + e.q + if e.k == 3 then 1 else 0, if e.k == 3 then 0 else e.k + 1);
    QuotientUnique(y + 1, 100, e.c + if century then 1 else 0, if century then 0 else 4 * e.q + e.k + 1);
    QuotientUnique(y + 1, 400, if century && e.c == 3 then 1 else 0, if century && e.c == 3 then 0 else y + 1);
  }

  /** The division chain of from_days finds the shifted year that contains the day. */
  lemma {:induction false} YearOfEraCorrect(e: EraDay)
    requires e.Valid()
    ensures YearOfEra(e.Doe()) == e.Year()
  {
    var doe, n := e.Doe(), 24 * e.c + e.q + 365 * e.k + e.t;
    var carry := if n >= 1460 then 1 else 0;
    var last := if doe == 146096 then 1 else 0;
    QuotientUnique(doe, 1460, 25 * e.c + e.q + carry, n - 1460 * carry);
    QuotientUnique(doe, 36524, e.c + last, if last == 1 then 0 else 1461 * e.q + 365 * e.k + e.t);
    QuotientUnique(doe, 146096, last, if last == 1 then 0 else doe);
    YearOfEraChain(doe, 25 * e.c + e.q + carry, e.c + last, last, e.Year(), e.t - carry);
  }

  lemma {:induction false} YearOfEraChain(doe: nat, x: int, y: int, z: int, year: int, rest: int)
    requires doe <= 146096 && doe / 1460 == x && doe / 36524 == y && doe / 146096 == z
    requires doe - x + y - z == 365 * year + rest && 0 <= rest < 365
    ensures YearOfEra(doe) == year
  {
    hide ToUnsigned;
    NarrowingIsIdentity(doe - x + y - z);
    QuotientUnique(doe - x + y - z, 365, year, rest);
  }

  lemma {:induction false} MonthOfYear(doy: nat)
    requires doy <= 365
    ensures var mp := ShiftedMonth(doy);
            mp <= 11 && (153 * mp + 2) / 5 <= doy
            && doy - (153 * mp + 2) / 5 < (if mp == 11 then 29 else MONTH_LENGTHS[(mp + 2) % 12])
  {
  }

  lemma {:induction false} MarchDaysPeriodic(era: int, y: int)
    ensures MarchDays(400 * era + y) == era * 146097 + MarchDays(y)
  {
    QuotientUnique(400 * era + y, 4, 100 * era + y / 4, y % 4);
    QuotientUnique(400 * era + y, 100, 4 * era + y / 100, y % 100);
    QuotientUnique(400 * era + y, 400, era + y / 400, y % 400);
  }

  lemma {:induction false} DayOfEraCorrect(z: int) returns (era: int, doe: nat)
    requires Countable(z - 719468)
    ensures era == Era(z) && doe == ToUnsigned(z - Era(z) * 146097)
    ensures z == era * 146097 + doe && doe <= 146096
  {
    ShiftedQuotientIsFloor(z, 146097);
    era, doe := z / 146097, z % 146097;
  }

  lemma {:induction false} YearAndDayOfEra(era: int, doe: nat) returns (yoe: nat, doy: nat)
    requires doe <= 146096
    ensures yoe == YearOfEra(doe) && yoe <= 399
    ensures doy == DayOfYear(doe, yoe) && doy <= 365
    ensures era * 146097 + doe == MarchDays(yoe + era * 400) + doy
    ensures doy == 365 ==> IsLeap(yoe + era * 400 + 1)
  {
    hide IsLeap, MarchDays, DaysBeforeMarchYear, YearOfEra, ToUnsigned;
    var e := EraDayOf(doe);
    YearOfEraCorrect(e);
    MarchDaysOfEraDay(e);
    yoe, doy := e.Year(), e.t;
    MarchDaysOfEra(0, yoe);
    MarchDaysPeriodic(0, yoe);
    NarrowingIsIdentity(doe - DaysBeforeMarchYear(yoe));
    MarchDaysPeriodic(era, yoe);
    MarchDaysPeriodic(era, yoe + 1);
    LeapYears(yoe + era * 400 + 1);
  }

  /** The year that from_days computes, before it is stored as a short. */
  function CivilYear(y: int, doy: nat): int {
    if ShiftedMonth(doy) >= 10 then y + 1 else y
  }

  lemma {:induction false} FromMarchYearCounts(y: int, doy: nat)
    requires doy <= 365 && (doy == 365 ==> IsLeap(y + 1))
    ensures var x := FromMarchYear(y, doy);
            x.year == ToShort(CivilYear(y, doy)) && Valid(CivilYear(y, doy), x.month, x.day)
            && CountedDays(CivilYear(y, doy), x.month, x.day) == MarchDays(y) + doy - 719468
  {
    hide IsLeap, MarchDays, CountedDays, ShiftedMonth, ToUnsigned, ToByte, Valid;
    var mp := ShiftedMonth(doy);
    var d := doy - (153 * mp + 2) / 5 + 1;
    var m := if mp < 10 then mp + 3 else mp - 9;
    MonthAndDayValid(y, doy, m, d);
    NarrowingIsIdentity(d);
    NarrowingIsIdentity(m);
    CountedDaysClosedForm(CivilYear(y, doy), m, d);
  }

  lemma {:induction false} MonthAndDayValid(y: int, doy: nat, m: int, d: int)
    requires doy <= 365 && (doy == 365 ==> IsLeap(y + 1))
    requires var mp := ShiftedMonth(doy); d == doy - (153 * mp + 2) / 5 + 1 && m == if mp < 10 then mp + 3 else mp - 9
    ensures MonthOk(m) && 1 <= d <= 31 && Valid(CivilYear(y, doy), m, d) && ShiftedMonth(doy) == MarchMonth(m)
  {
    hide IsLeap, ShiftedMonth;
    MonthOfYear(doy);
    LeapDay(doy);
  }

  lemma {:induction false} LeapDay(doy: nat)
    ensures ShiftedMonth(doy) == 11 && doy - (153 * 11 + 2) / 5 == 28 ==> doy == 365
  {
  }

  /** from_days names the day that is counted, up to the storage of the year as a short; every
      intermediate stays in the range that the source writes beside it. */
  lemma {:induction false} FromDaysCounts(dp: int) returns (year: int)
    requires Countable(dp)
    ensures var era := Era(dp + 719468);
            var doe := ToUnsigned(dp + 719468 - era * 146097);
            var yoe := YearOfEra(doe);
            var doy := DayOfYear(doe, yoe);
            doe <= 146096 && yoe <= 399 && doy <= 365 && ShiftedMonth(doy) <= 11
    ensures var x := FromDays(dp);
            x.year == ToShort(year) && Valid(year, x.month, x.day) && CountedDays(year, x.month, x.day) == dp
  {
    hide IsLeap, MarchDays, CountedDays, YearOfEra, DayOfYear, Era, FromMarchYear, ToUnsigned;
    var era, doe := DayOfEraCorrect(dp + 719468);
    var yoe, doy := YearAndDayOfEra(era, doe);
    FromMarchYearCounts(yoe + era * 400, doy);
    MonthOfYear(doy);
    year := CivilYear(yoe + era * 400, doy);
  }

  // ---- Main results

  const FIRST_DATE := Date(-0x7fff, 1, 1)
  const LAST_DATE := Date(0x7fff, 12, 31)
  const FIRST_DAY := -12687428
  const LAST_DAY := 11248737

  /** The order is lexicographic, on dates that are not valid, too. */
  lemma {:induction false} LessIsLexicographic(x: Date, y: Date)
    ensures Less(x, y) <==>
            0x1_0000 * x.year + 0x100 * x.month + x.day < 0x1_0000 * y.year + 0x100 * y.month + y.day
  {
  }

  /** The field-by-field order of dates is the order of their day counts. */
  lemma {:induction false} LessIsDayOrder(x: Date, y: Date)
    requires Ok(x) && Ok(y)
    ensures Less(x, y) <==> ToDays(x) < ToDays(y)
  {
    hide CountedDays;
    ToDaysCountsDays(x);
    ToDaysCountsDays(y);
    if Less(x, y) {
      CountingIncreases(x.year, x.month, x.day, y.year, y.month, y.day);
    } else if Less(y, x) {
      CountingIncreases(y.year, y.month, y.day, x.year, x.month, x.day);
    }
  }

  lemma {:induction false} OkRange(x: Date)
    requires Ok(x)
    ensures FIRST_DAY <= ToDays(x) <= LAST_DAY && Countable(ToDays(x))
  {
    hide ToDays;
    RangeEnds();
    LessIsDayOrder(FIRST_DATE, x);
    LessIsDayOrder(x, LAST_DATE);
    assert Ok(FIRST_DATE) && Ok(LAST_DATE);
    assert !Less(x, FIRST_DATE) && !Less(LAST_DATE, x);
    LessIsDayOrder(x, FIRST_DATE);
    LessIsDayOrder(LAST_DATE, x);
  }

  lemma {:induction false} RangeEnds()
    ensures ToDays(FIRST_DATE) == FIRST_DAY == -12687428 && ToDays(LAST_DATE) == LAST_DAY == 11248737
  {
    hide ToDays, CountedDays, IsLeap;
    ToDaysCountsDays(FIRST_DATE);
    ToDaysCountsDays(LAST_DATE);
    CountedDaysClosedForm(-0x7fff, 1, 1);
    CountedDaysClosedForm(0x7fff, 12, 31);
  }

  /** A day count survives the trip through from_days and to_days, as a valid date, exactly when it
      lies between the first and the last valid date; beyond them the year does not fit a short. */
  lemma {:induction false} FromDaysThenToDays(dp: int)
    requires Countable(dp)
    ensures Ok(FromDays(dp)) && ToDays(FromDays(dp)) == dp <==> FIRST_DAY <= dp <= LAST_DAY
  {
    hide ToDays, FromDays, CountedDays, IsLeap, ToShort;
    var y := FromDaysCounts(dp);
    var x := FromDays(dp);
    if Ok(x) && ToDays(x) == dp {
      OkRange(x);
    } else if FIRST_DAY <= dp <= LAST_DAY {
      RangeEnds();
      ToDaysCountsDays(FIRST_DATE);
      ToDaysCountsDays(LAST_DATE);
      if y < -0x7fff {
        CountingIncreases(y, x.month, x.day, -0x7fff, 1, 1);
      } else if y > 0x7fff {
        CountingIncreases(0x7fff, 12, 31, y, x.month, x.day);
      }
      ShortIsIdentity(y);
      ToDaysCountsDays(x);
    }
  }

  /** Every valid date comes back unchanged from its day count. */
  lemma {:induction false} ToDaysThenFromDays(x: Date)
    requires Ok(x)
    ensures Countable(ToDays(x)) && FromDays(ToDays(x)) == x
  {
    hide ToDays, FromDays;
    OkRange(x);
    FromDaysThenToDays(ToDays(x));
    var x' := FromDays(ToDays(x));
    LessIsDayOrder(x, x');
    LessIsDayOrder(x', x);
  }

  /** The date after `x`, read off the calendar. */
  function NextDay(x: Date): Date
    requires Ok(x) && x != LAST_DATE
  {
    if x.day < LastDay(x.year, x.month) then Date(x.year, x.month, x.day + 1)
    else if x.month < 12 then Date(x.year, x.month + 1, 1)
    else Date(x.year + 1, 1, 1)
  }

  /** The closed forms step through the calendar one day at a time. */
  lemma {:induction false} NextDayIsNextCount(x: Date)
    requires Ok(x) && x != LAST_DATE
    ensures Ok(NextDay(x)) && ToDays(NextDay(x)) == ToDays(x) + 1
    ensures Countable(ToDays(x) + 1) && FromDays(ToDays(x) + 1) == NextDay(x)
  {
    hide ToDays, FromDays, CountedDays, IsLeap;
    var n := NextDay(x);
    ToDaysCountsDays(x);
    ToDaysCountsDays(n);
    NextDayCounts(x);
    ToDaysThenFromDays(n);
  }

  lemma {:induction false} NextDayCounts(x: Date)
    requires Ok(x) && x != LAST_DATE
    ensures var n := NextDay(x);
            Ok(n) && CountedDays(n.year, n.month, n.day) == CountedDays(x.year, x.month, x.day) + 1
  {
    hide IsLeap, DaysBeforeYear;
    if x.day == LastDay(x.year, x.month) && x.month == 12 {
      YearSteps(x.year);
    }
  }

  lemma {:induction false} YearSteps(y: int)
    ensures DaysBeforeYear(y + 1) == DaysBeforeYear(y) + DaysBeforeMonth(y, 12) + 31
  {
    hide IsLeap;
    MonthsClosedForm(y, 12);
  }
}
