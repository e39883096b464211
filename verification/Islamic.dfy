/** year_month_day of the tabular Islamic calendar: closed-form conversions over 30-year eras with 11
    leap years, refined from counting years and months. */
module Islamic {
  import opened MachineInts

  datatype Date = Date(year: short, month: byte, day: byte)

  const MONTH_LENGTHS: seq<byte> := [30, 29, 30, 29, 30, 29, 30, 29, 30, 29, 30, 29]

  predicate MonthOk(m: int) {
    1 <= m <= 12
  }

  function EraOf(y: int): int {
    Quotient(if y >= 0 then y else y - 29, 30)
  }

  predicate IsLeapOfEra(yoe: int) {
    yoe == 1 || yoe == 4 || yoe == 6 || yoe == 9 || yoe == 12 || yoe == 15
    || yoe == 17 || yoe == 20 || yoe == 23 || yoe == 25 || yoe == 28
  }

  predicate IsLeap(y: int) {
    IsLeapOfEra(ToUnsigned(y - 1 - EraOf(y - 1) * 30))
  }

  function LastDay(y: int, m: byte): byte
    requires MonthOk(m)
  {
    if m != 12 || !IsLeap(y) then MONTH_LENGTHS[m - 1] else 30
  }

  predicate Ok(x: Date) {
    MonthOk(x.month) && 1 <= x.day <= LastDay(x.year, x.month)
  }

  function DaysBeforeEraYear(yoe: nat): nat {
    yoe * 354 + (11 * (yoe + 1) + 3) / 30
  }

  function DaysBeforeMonthOf(m: int): int {
    29 * (m - 1) + m / 2
  }

  function ToDays(x: Date): int {
    var y := x.year - 1;
    var era := EraOf(y);
    var yoe := ToUnsigned(y - era * 30);
    var doy := ToUnsigned(DaysBeforeMonthOf(x.month) + x.day - 1);
    var doe := ToUnsigned(DaysBeforeEraYear(yoe) + doy);
    era * 10631 + ToInt(doe) - 492148
  }

  /** The day counts for which the first addition of from_days does not overflow. */
  predicate Countable(dp: int) {
    INT_MIN <= dp <= INT_MAX - 492148
  }

  function YearOfEra(doe: nat): int {
    (30 * doe + 10646) / 10631 - 1
  }

  function MonthOfYear(doy: nat): nat {
    (11 * doy + 330) / 325
  }

  function FromYear(y: int, doy: nat): Date {
    var m := MonthOfYear(doy);
    var d := ToUnsigned(doy - DaysBeforeMonthOf(m) + 1);
    Date(ToShort(y), ToByte(m), ToByte(d))
  }

  function EraOfDay(z: int): int {
    Quotient(if z >= 0 then z else z - 10630, 10631)
  }

  function FromDays(dp: int): Date
    requires Countable(dp)
  {
    var z := dp + 492148;
    var era := EraOfDay(z);
    var doe := ToUnsigned(z - era * 10631);
    var yoe := ToUnsigned(YearOfEra(doe));
    FromYear(yoe + era * 30 + 1, ToUnsigned(doe - DaysBeforeEraYear(yoe)))
  }

  // ---- Counting days one year and one month at a time from the epoch, day 1 of year 1

  function YearLength(y: int): int {
    if IsLeap(y) then 355 else 354
  }

  function DaysBeforeYear(y: int): int
    decreases if y < 1 then 1 - y else y - 1
  {
    if y == 1 then -492148
    else if y > 1 then DaysBeforeYear(y - 1) + YearLength(y - 1)
    else DaysBeforeYear(y + 1) - YearLength(y)
  }

  function DaysBeforeMonth(y: int, m: int): int
    requires MonthOk(m)
  {
    if m == 1 then 0 else DaysBeforeMonth(y, m - 1) + LastDay(y, m - 1)
  }

  function CountedDays(y: int, m: int, d: int): int
    requires MonthOk(m)
  {
    DaysBeforeYear(y) + DaysBeforeMonth(y, m) + d - 1
  }

  /** The number of leap years among the first `yoe` years of an era, counted from the list. */
  function LeapYearsBefore(yoe: nat): nat {
    if yoe == 0 then 0 else LeapYearsBefore(yoe - 1) + if IsLeapOfEra(yoe - 1) then 1 else 0
  }

  /** The division in the closed form counts exactly the leap years of the list. */
  lemma {:induction false} LeapTermCounts(yoe: nat)
    requires yoe <= 30
    ensures (11 * (yoe + 1) + 3) / 30 == LeapYearsBefore(yoe)
  {
    hide IsLeapOfEra;
    if yoe > 0 {
      LeapTermCounts(yoe - 1);
      LeapTermStep(yoe - 1);
    }
  }

  /** The term grows by one at the listed years; q is the number of leap years before. */
  lemma {:induction false} LeapTermStep(yoe: nat)
    requires yoe < 30
    ensures (11 * (yoe + 2) + 3) / 30 == (11 * (yoe + 1) + 3) / 30 + if IsLeapOfEra(yoe) then 1 else 0
  {
    var q := (11 * (yoe + 1) + 3) / 30;
    var r := 11 * (yoe + 1) + 3 - 30 * q;
    if r >= 19 {
      QuotientUnique(11 * (yoe + 2) + 3, 30, q + 1, r - 19);
    } else {
      QuotientUnique(11 * (yoe + 2) + 3, 30, q, r + 11);
    }
    LeapResidue(yoe, q);
  }

  lemma {:induction false} LeapResidue(yoe: nat, q: nat)
    requires yoe < 30 && 0 <= 11 * (yoe + 1) + 3 - 30 * q < 30
    ensures IsLeapOfEra(yoe) <==> 11 * (yoe + 1) + 3 - 30 * q >= 19
  {
    assert q <= 11;
    if q == 0 {} else if q == 1 {} else if q == 2 {} else if q == 3 {} else if q == 4 {} else if q == 5 {}
    else if q == 6 {} else if q == 7 {} else if q == 8 {} else if q == 9 {} else if q == 10 {} else {}
  }

  /** Days before year `y + 1`, with whole eras and the year of the era */
  function EraDays(y: int): int {
    (10631 * y + 14) / 30
  }

  lemma {:induction false} EraDaysSplit(era: int, yoe: nat)
    ensures EraDays(30 * era + yoe) == era * 10631 + DaysBeforeEraYear(yoe)
  {
    var r := 11 * (yoe + 1) + 3;
    QuotientUnique(10631 * (30 * era + yoe) + 14, 30, 10631 * era + 354 * yoe + r / 30, r % 30);
  }

  lemma {:induction false} EraOfIsFloor(y: int)
    ensures EraOf(y) == y / 30 && ToUnsigned(y - EraOf(y) * 30) == y % 30
  {
    ShiftedQuotientIsFloor(y, 30);
  }

  lemma {:induction false} YearStep(y: int)
    ensures EraDays(y) == EraDays(y - 1) + YearLength(y)
  {
    hide ToUnsigned, EraOf, EraDays, IsLeapOfEra, LeapYearsBefore, DaysBeforeEraYear;
    EraOfIsFloor(y - 1);
    var era, yoe := (y - 1) / 30, (y - 1) % 30;
    EraDaysSplit(era, yoe);
    EraDaysSplit(era, yoe + 1);
    EraYearStep(yoe);
  }

  lemma {:induction false} EraYearStep(yoe: nat)
    requires yoe < 30
    ensures DaysBeforeEraYear(yoe + 1) == DaysBeforeEraYear(yoe) + if IsLeapOfEra(yoe) then 355 else 354
  {
    LeapTermCounts(yoe);
    LeapTermCounts(yoe + 1);
  }

  lemma {:induction false} YearsClosedForm(y: int)
    ensures DaysBeforeYear(y) == EraDays(y - 1) - 492148
    decreases if y < 1 then 1 - y else y - 1
  {
    hide EraDays, IsLeap;
    if y > 1 {
      YearsClosedForm(y - 1);
      YearStep(y - 1);
    } else if y < 1 {
      YearsClosedForm(y + 1);
      YearStep(y);
    } else {
      EraDaysSplit(0, 0);
    }
  }

  lemma {:induction false} MonthsClosedForm(y: int, m: int)
    requires MonthOk(m)
    ensures DaysBeforeMonth(y, m) == DaysBeforeMonthOf(m)
  {
    hide IsLeap;
    if m > 1 {
      MonthsClosedForm(y, m - 1);
    }
  }

  lemma {:induction false} CountedDaysClosedForm(y: int, m: int, d: int)
    requires MonthOk(m)
    ensures CountedDays(y, m, d) == EraDays(y - 1) - 492148 + DaysBeforeMonthOf(m) + d - 1
  {
    hide EraDays, DaysBeforeMonthOf;
    YearsClosedForm(y);
    MonthsClosedForm(y, m);
  }

  /** to_days is the naive count from the epoch, for every day field. */
  lemma {:induction false} ToDaysCountsDays(x: Date)
    requires MonthOk(x.month)
    ensures ToDays(x) == CountedDays(x.year, x.month, x.day)
  {
    hide EraDays, EraOf, ToUnsigned, ToInt, CountedDays;
    var y := x.year - 1;
    EraOfIsFloor(y);
    EraDaysSplit(y / 30, y % 30);
    CountedDaysClosedForm(x.year, x.month, x.day);
    assert 0 <= DaysBeforeEraYear(y % 30) <= 0x1_0000;
    WrappedSum(DaysBeforeEraYear(y % 30), DaysBeforeMonthOf(x.month) + x.day - 1);
  }

  // ---- Counting is strictly increasing

  predicate Valid(y: int, m: int, d: int) {
    MonthOk(m) && 1 <= d <= LastDay(y, m)
  }

  predicate Earlier(y: int, m: int, d: int, y': int, m': int, d': int) {
    y < y' || (y == y' && (m < m' || (m == m' && d < d')))
  }

  lemma {:induction false} YearsIncrease(y: int, y': int)
    requires y <= y'
    ensures EraDays(y) + 354 * (y' - y) <= EraDays(y')
    decreases y' - y
  {
    hide EraDays, IsLeap;
    if y < y' {
      YearsIncrease(y, y' - 1);
      YearStep(y');
    }
  }

  lemma {:induction false} DayOfYearBound(y: int, m: int, d: int)
    requires Valid(y, m, d)
    ensures 0 <= DaysBeforeMonth(y, m) + d - 1 < YearLength(y)
  {
    hide IsLeap;
    MonthsClosedForm(y, m);
  }

  lemma {:induction false} CountingIncreases(y: int, m: int, d: int, y': int, m': int, d': int)
    requires Valid(y, m, d) && Valid(y', m', d')
    requires Earlier(y, m, d, y', m', d')
    ensures CountedDays(y, m, d) < CountedDays(y', m', d')
  {
    hide EraDays, IsLeap, DaysBeforeYear;
    DayOfYearBound(y, m, d);
    DayOfYearBound(y', m', d');
    if y < y' {
      YearsClosedForm(y);
      YearsClosedForm(y');
      YearsIncrease(y, y' - 1);
      YearStep(y);
    } else if m < m' {
      MonthsClosedForm(y, m);
      MonthsClosedForm(y, m');
    }
  }

  // ---- from_days

  /** The scaled division of from_days finds the year of the era that contains the day. */
  lemma {:induction false} YearOfEraCorrect(doe: nat)
    requires doe <= 10630
    ensures var yoe := YearOfEra(doe);
            0 <= yoe <= 29 && DaysBeforeEraYear(yoe) <= doe < DaysBeforeEraYear(yoe + 1)
  {
    var yoe := YearOfEra(doe);
    assert 10631 * yoe <= 30 * doe + 15 < 10631 * (yoe + 1);
    EraDaysSplit(0, yoe);
    EraDaysSplit(0, yoe + 1);
  }

  lemma {:induction false} MonthOfYearCorrect(doy: nat)
    requires doy <= 354
    ensures var m := MonthOfYear(doy);
            MonthOk(m) && DaysBeforeMonthOf(m) <= doy
            && doy < DaysBeforeMonthOf(m) + (if m == 12 then 30 else MONTH_LENGTHS[m - 1])
  {
  }

  lemma {:induction false} DayOfEraCorrect(z: int) returns (era: int, doe: nat)
    requires Countable(z - 492148)
    ensures era == EraOfDay(z) && doe == ToUnsigned(z - EraOfDay(z) * 10631)
    ensures z == era * 10631 + doe && doe <= 10630
  {
    ShiftedQuotientIsFloor(z, 10631);
    era, doe := z / 10631, z % 10631;
  }

  lemma {:induction false} FromYearCounts(y: int, doy: nat)
    requires doy < YearLength(y)
    ensures var x := FromYear(y, doy);
            x.year == ToShort(y) && Valid(y, x.month, x.day)
            && CountedDays(y, x.month, x.day) == EraDays(y - 1) - 492148 + doy
  {
    hide IsLeap, EraDays, CountedDays, MonthOfYear, ToUnsigned, ToByte, ToShort, DaysBeforeMonthOf;
    MonthOfYearCorrect(doy);
    var m := MonthOfYear(doy);
    var d := doy - DaysBeforeMonthOf(m) + 1;
    MonthStartOfLast();
    NarrowingIsIdentity(d);
    NarrowingIsIdentity(m);
    CountedDaysClosedForm(y, m, d);
  }

  lemma {:induction false} MonthStartOfLast()
    ensures DaysBeforeMonthOf(12) == 325
  {
  }

  /** from_days names the day that is counted, up to the storage of the year as a short; every
      intermediate stays in the range that the source writes beside it. */
  lemma {:induction false} FromDaysCounts(dp: int) returns (year: int)
    requires Countable(dp)
    ensures var doe := ToUnsigned(dp + 492148 - EraOfDay(dp + 492148) * 10631);
            var yoe := YearOfEra(doe);
            doe <= 10630 && 0 <= yoe <= 29 && 0 <= doe - DaysBeforeEraYear(yoe) <= 354
    ensures var x := FromDays(dp);
            x.year == ToShort(year) && Valid(year, x.month, x.day) && CountedDays(year, x.month, x.day) == dp
  {
    hide IsLeap, EraDays, CountedDays, EraOfDay, YearOfEra, ToUnsigned, FromYear, DaysBeforeEraYear, IsLeapOfEra;
    var era, doe := DayOfEraCorrect(dp + 492148);
    YearOfEraCorrect(doe);
    var yoe := YearOfEra(doe);
    year := yoe + era * 30 + 1;
    EraDaysSplit(era, yoe);
    EraDaysSplit(era, yoe + 1);
    YearStep(year);
    EraYearStep(yoe);
    NarrowingIsIdentity(yoe);
    NarrowingIsIdentity(doe - DaysBeforeEraYear(yoe));
    FromYearCounts(year, doe - DaysBeforeEraYear(yoe));
  }

  // ---- Main results

  const FIRST_DATE := Date(-0x8000, 1, 1)
  const LAST_DATE := Date(0x7fff, 12, 30)
  const FIRST_DAY := ToDays(FIRST_DATE)
  const LAST_DAY := ToDays(LAST_DATE)

  lemma {:induction false} RangeEnds()
    ensures FIRST_DAY == -12104389 && LAST_DAY == 11119384
  {
    hide ToDays, CountedDays, IsLeap;
    ToDaysCountsDays(FIRST_DATE);
    ToDaysCountsDays(LAST_DATE);
    CountedDaysClosedForm(-0x8000, 1, 1);
    CountedDaysClosedForm(0x7fff, 12, 30);
  }

  lemma {:induction false} OkRange(x: Date)
    requires Ok(x)
    ensures FIRST_DAY <= ToDays(x) <= LAST_DAY && Countable(ToDays(x))
  {
    hide ToDays, CountedDays, IsLeap;
    RangeEnds();
    ToDaysCountsDays(x);
    ToDaysCountsDays(FIRST_DATE);
    ToDaysCountsDays(LAST_DATE);
    if x != FIRST_DATE {
      CountingIncreases(-0x8000, 1, 1, x.year, x.month, x.day);
    }
    LastYearIsLeap();
    if x != LAST_DATE {
      CountingIncreases(x.year, x.month, x.day, 0x7fff, 12, 30);
    }
  }

  lemma {:induction false} LastYearIsLeap()
    ensures IsLeap(0x7fff)
  {
    EraOfIsFloor(0x7ffe);
  }

  lemma {:induction false} CountingInjective(y: int, m: int, d: int, y': int, m': int, d': int)
    requires Valid(y, m, d) && Valid(y', m', d')
    requires CountedDays(y, m, d) == CountedDays(y', m', d')
    ensures y == y' && m == m' && d == d'
  {
    hide CountedDays, IsLeap;
    if Earlier(y, m, d, y', m', d') {
      CountingIncreases(y, m, d, y', m', d');
    } else if Earlier(y', m', d', y, m, d) {
      CountingIncreases(y', m', d', y, m, d);
    }
  }

  /** A day count survives the trip through from_days and to_days, as a valid date, exactly when its
      year fits a short. */
  lemma {:induction false} FromDaysThenToDays(dp: int)
    requires Countable(dp)
    ensures Ok(FromDays(dp)) && ToDays(FromDays(dp)) == dp <==> FIRST_DAY <= dp <= LAST_DAY
  {
    hide ToDays, FromDays, CountedDays, IsLeap, ToShort;
    var y := FromDaysCounts(dp);
    var x := FromDays(dp);
    if Ok(x) && ToDays(x) == dp {
      OkRange(x);
    } else if FIRST_DAY <= dp <= LAST_DAY {
      ToDaysCountsDays(FIRST_DATE);
      ToDaysCountsDays(LAST_DATE);
      LastYearIsLeap();
      if y < -0x8000 {
        CountingIncreases(y, x.month, x.day, -0x8000, 1, 1);
      } else if y > 0x7fff {
        CountingIncreases(0x7fff, 12, 30, y, x.month, x.day);
      }
      ShortIsIdentity(y);
      ToDaysCountsDays(x);
    }
  }

  /** Every valid date comes back unchanged from its day count. */
  lemma {:induction false} ToDaysThenFromDays(x: Date)
    requires Ok(x)
    ensures Countable(ToDays(x)) && FromDays(ToDays(x)) == x
  {
    hide ToDays, FromDays, CountedDays, IsLeap;
    OkRange(x);
    FromDaysThenToDays(ToDays(x));
    var x' := FromDays(ToDays(x));
    ToDaysCountsDays(x);
    ToDaysCountsDays(x');
    CountingInjective(x.year, x.month, x.day, x'.year, x'.month, x'.day);
  }
}
