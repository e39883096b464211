/** Weekdays as residues of day counts, and the dates that name a day as the n-th or the last
    weekday of a month. Weekdays are encoded 0 (Sunday) to 6 (Saturday). */
module Weekdays {
  import opened MachineInts
  import opened Gregorian

  const SUNDAY := 0
  const MONDAY := 1
  const THURSDAY := 4

  /** weekday(unsigned): 7 is read as Sunday. */
  function MakeWeekday(wd: nat): byte {
    ToByte(if wd != 7 then wd else 0)
  }

  /** weekday::weekday_from_days; negative counts rely on 2^32 being 4 modulo 7. */
  function FromDayCount(z: int32): byte {
    var u := ToUnsigned(z);
    ToByte(if z >= -4 then ToUnsigned(u + 4) % 7 else u % 7)
  }

  /** The same member in islamic.h, on signed integers. */
  function FromDayCountSigned(z: int32): byte {
    ToByte(ToUnsigned(if z >= -4 then Remainder(z + 4, 7) else Remainder(z + 5, 7) + 6))
  }

  /** operator-(weekday, weekday) */
  function Difference(x: byte, y: byte): int {
    var wdu := x - y;
    var wk := Quotient(if wdu >= 0 then wdu else wdu - 6, 7);
    wdu - wk * 7
  }

  /** operator+(weekday, days) */
  function Plus(x: byte, days: int32): byte {
    var wdu := x + days;
    var wk := Quotient(if wdu >= 0 then wdu else wdu - 6, 7);
    MakeWeekday(ToUnsigned(wdu - wk * 7))
  }

  // ---- Weekdays are residues of day counts

  /** 1970-01-01 is a Thursday. */
  function DayOfWeek(z: int): int {
    (z + 4) % 7
  }

  /** Both formulas of the sources compute the residue. */
  lemma {:induction false} FromDayCountIsResidue(z: int32)
    ensures FromDayCount(z) == DayOfWeek(z)
  {
    hide ToUnsigned;
    if z < -4 {
      assert 0x1_0000_0000 == 7 * 613566756 + 4;
      UnsignedOfNegative(z);
      QuotientUnique(z + 0x1_0000_0000, 7, (z + 4) / 7 + 613566756, (z + 4) % 7);
    } else {
      UnsignedOfCount(z);
    }
  }

  lemma {:induction false} UnsignedOfNegative(z: int)
    requires -0x8000_0000 <= z < 0
    ensures ToUnsigned(z) == z + 0x1_0000_0000
  {
  }

  lemma {:induction false} UnsignedOfCount(z: int32)
    requires z >= -4
    ensures ToUnsigned(ToUnsigned(z) + 4) == z + 4
  {
  }

  lemma {:induction false} FromDayCountSignedIsResidue(z: int32)
    requires z <= INT_MAX - 4
    ensures FromDayCountSigned(z) == DayOfWeek(z)
  {
    if z < -4 {
      var n := -(z + 5);
      assert z + 4 == 7 * (-(n / 7) - 1) + (6 - n % 7);
      QuotientUnique(z + 4, 7, -(n / 7) - 1, 6 - n % 7);
    }
  }

  lemma {:induction false} DifferenceIsResidue(x: byte, y: byte)
    ensures Difference(x, y) == (x - y) % 7
  {
    ShiftedQuotientIsFloor(x - y, 7);
  }

  lemma {:induction false} PlusIsResidue(x: byte, days: int32)
    ensures Plus(x, days) == (x + days) % 7
  {
    ShiftedQuotientIsFloor(x + days, 7);
    NarrowingIsIdentity((x + days) % 7);
  }

  lemma {:induction false} SameResidue(a: int, b: int, k: int)
    requires a == b + 7 * k
    ensures a % 7 == b % 7
  {
    QuotientUnique(a, 7, b / 7 + k, b % 7);
  }

  lemma {:induction false} WeeksKeepDayOfWeek(z: int, k: int)
    ensures 0 <= DayOfWeek(z) <= 6 && DayOfWeek(z + 7 * k) == DayOfWeek(z)
  {
    SameResidue(z + 7 * k + 4, z + 4, k);
  }

  /** Two days with one weekday are a whole number of weeks apart. */
  lemma {:induction false} SameDayOfWeek(a: int, b: int) returns (k: int)
    requires DayOfWeek(a) == DayOfWeek(b)
    ensures a == b + 7 * k
  {
    k := (a + 4) / 7 - (b + 4) / 7;
  }

  /** The difference of weekdays leads forward from a day to the next day `wd`. */
  lemma {:induction false} DifferenceForward(wd: byte, z: int32)
    ensures var r := Difference(wd, FromDayCount(z)); 0 <= r <= 6 && DayOfWeek(z + r) == wd % 7
  {
    hide FromDayCount, Difference;
    FromDayCountIsResidue(z);
    var x := wd - (z + 4) % 7;
    DifferenceIsResidue(wd, (z + 4) % 7);
    SameResidue(z + x % 7 + 4, wd, (z + 4) / 7 - x / 7);
  }

  /** ... and back to the latest day `wd`. */
  lemma {:induction false} DifferenceBackward(wd: byte, z: int32)
    ensures var r := Difference(FromDayCount(z), wd); 0 <= r <= 6 && DayOfWeek(z - r) == wd % 7
  {
    hide FromDayCount, Difference;
    FromDayCountIsResidue(z);
    var x := (z + 4) % 7 - wd;
    DifferenceIsResidue((z + 4) % 7, wd);
    SameResidue(z - x % 7 + 4, wd, (z + 4) / 7 + x / 7);
  }

  /** Weekdays advance with the day count, in both directions, and their difference is the number of
      days from the one forward to the other. */
  lemma {:induction false} WeekdaysAdvance(z: int32, days: int32)
    requires INT_MIN <= z + days <= INT_MAX
    ensures Plus(FromDayCount(z), days) == FromDayCount(z + days)
    ensures Difference(FromDayCount(z + days), FromDayCount(z)) == days % 7
  {
    hide FromDayCount, Plus, Difference;
    FromDayCountIsResidue(z);
    FromDayCountIsResidue(z + days);
    PlusIsResidue(FromDayCount(z), days);
    DifferenceIsResidue(FromDayCount(z + days), FromDayCount(z));
    SameResidue(z + days + 4, (z + 4) % 7 + days, (z + 4) / 7);
    SameResidue((z + days + 4) % 7 - (z + 4) % 7, days, (z + 4) / 7 - (z + days + 4) / 7);
  }

  // ---- year_month_weekday

  type nibble = x: int | 0 <= x < 0x10

  /** The weekday and the index are stored in four bits each. */
  datatype IndexedDate = IndexedDate(year: short, month: byte, wd: nibble, index: nibble) {
    function Weekday(): byte {
      MakeWeekday(wd)
    }

    predicate Ok() {
      if !YearOk(year) || !MonthOk(month) || Weekday() > 6 || index < 1 then false
      else if index <= 4 then true
      else Difference(Weekday(), FromDayCount(MonthStart(year, month))) + ((index - 1) * 7 + 1)
           <= LastDay(year, month)
    }

    predicate SameAs(that: IndexedDate) {
      year == that.year && month == that.month && Weekday() == that.Weekday() && index == that.index
    }
  }

  function MonthStart(y: short, m: byte): (d: int32)
    ensures -0x100_0000 <= d <= 0x100_0000
  {
    DayCountFits(Date(y, m, 1));
    ToDays(Date(y, m, 1))
  }

  lemma {:induction false} DayCountFits(x: Date)
    ensures -0x100_0000 <= ToDays(x) <= 0x100_0000
  {
    hide ToDays;
    ToDaysUnwrapped(x);
    var y := MarchYear(x);
    assert -365 * 0x8001 - 0x4000 <= MarchDays(y) <= 365 * 0x8001 + 0x4000;
  }

  /** year_month_weekday::to_days: the index is unsigned in the source, so an index 0 wraps around
      and counts one week back. */
  function IndexedToDays(w: IndexedDate): int {
    var d := MonthStart(w.year, w.month);
    d + (Difference(w.Weekday(), FromDayCount(d)) + ToInt(ToUnsigned((w.index - 1) * 7)))
  }

  function IndexedFromDays(z: int32): IndexedDate
    requires Countable(z)
  {
    var wd := FromDayCount(z);
    var ymd := FromDays(z);
    FromDayCountIsResidue(z);
    DayIsSmall(z);
    IndexedDate(ymd.year, ymd.month, wd, (ymd.day - 1) / 7 + 1)
  }

  lemma {:induction false} DayIsSmall(z: int32)
    requires Countable(z)
    ensures 1 <= FromDays(z).day <= 31 && MonthOk(FromDays(z).month)
  {
    hide FromDays;
    var y := FromDaysCounts(z);
  }

  /** Near a month, from_days finds the year and month again exactly inside the month. */
  lemma {:induction false} FromDaysNearMonth(y: short, m: byte, off: int)
    requires YearOk(y) && MonthOk(m) && -7 <= off <= 104
    ensures var x := FromDays(MonthStart(y, m) + off);
            if 0 <= off < LastDay(y, m) then x == Date(y, m, off + 1) else x.year != y || x.month != m
  {
    hide FromDays, ToDays, CountedDays, IsLeap, LastDay;
    var z := MonthStart(y, m) + off;
    ToDaysCountsDays(Date(y, m, 1));
    CountedFromFirst(y, m, off + 1);
    if 0 <= off < LastDay(y, m) {
      ToDaysCountsDays(Date(y, m, off + 1));
      ToDaysThenFromDays(Date(y, m, off + 1));
    } else {
      var ty := FromDaysCounts(z);
      var x := FromDays(z);
      if x.year == y && x.month == m {
        CountedFromFirst(ty, m, x.day);
        YearNear(y, m, ty, x.day);
      }
    }
  }

  lemma {:induction false} CountedFromFirst(y: int, m: int, d: int)
    requires MonthOk(m)
    ensures CountedDays(y, m, d) == CountedDays(y, m, 1) + d - 1
  {
  }

  /** A year that is stored like `y` but is another year is far away. */
  lemma {:induction false} YearNear(y: short, m: byte, ty: int, d: int)
    requires MonthOk(m) && Valid(ty, m, d) && y == ToShort(ty)
    requires -7 <= CountedDays(ty, m, d) - CountedDays(y, m, 1) <= 104
    ensures ty == y
  {
    hide CountedDays, IsLeap;
    assert ty == y + 0x1_0000 * ((ty + 0x8000) / 0x1_0000);
    if ty < y - 1 {
      CountingIncreases(ty, m, d, y - 1, m, 1);
      YearApart(y - 1, m);
    } else if y + 1 < ty {
      CountingIncreases(y + 1, m, 1, ty, m, d);
      YearApart(y, m);
    }
  }

  lemma {:induction false} YearApart(y: int, m: int)
    requires MonthOk(m)
    ensures CountedDays(y + 1, m, 1) >= CountedDays(y, m, 1) + 365
  {
    hide IsLeap, CountedDays, MarchDays;
    CountedDaysClosedForm(y, m, 1);
    CountedDaysClosedForm(y + 1, m, 1);
    YearsIncrease(y - 1, y);
    YearsIncrease(y, y + 1);
  }

  /** An indexed date is `index - 1` weeks after the first such weekday of its month. */
  lemma {:induction false} IndexedOffset(w: IndexedDate)
    ensures var r := Difference(w.Weekday(), FromDayCount(MonthStart(w.year, w.month)));
            0 <= r <= 6
            && IndexedToDays(w) == MonthStart(w.year, w.month) + r + 7 * (w.index - 1)
            && DayOfWeek(IndexedToDays(w)) == w.Weekday() % 7
  {
    hide FromDayCount, Difference, ToDays, DayOfWeek, MakeWeekday;
    var d := MonthStart(w.year, w.month);
    WrappedSum(0, (w.index - 1) * 7);
    DifferenceForward(w.Weekday(), d);
    WeeksKeepDayOfWeek(d + Difference(w.Weekday(), FromDayCount(d)), w.index - 1);
  }

  /** The conversion through day counts gives an indexed date back exactly when it is valid. */
  lemma {:induction false} IndexedRoundTrip(w: IndexedDate)
    requires YearOk(w.year)
    ensures Countable(IndexedToDays(w))
    ensures IndexedFromDays(IndexedToDays(w)).SameAs(w) <==> w.Ok()
  {
    hide FromDayCount, Difference, ToDays, FromDays, LastDay, DayOfWeek, IndexedToDays;
    IndexedRange(w);
    var z := IndexedToDays(w);
    FromDayCountIsResidue(z);
    WeeksKeepDayOfWeek(z, 0);
    DayIsSmall(z);
    if MonthOk(w.month) && w.Weekday() <= 6 {
      IndexedDayOfMonth(w);
    }
  }

  /** The day of the month that an indexed date names is in the month exactly when the date is valid. */
  lemma {:induction false} IndexedDayOfMonth(w: IndexedDate)
    requires YearOk(w.year) && MonthOk(w.month) && w.Weekday() <= 6
    ensures var z := IndexedToDays(w);
            Countable(z) && DayOfWeek(z) == w.Weekday() &&
            var x := FromDays(z);
            (x.year == w.year && x.month == w.month && (x.day - 1) / 7 + 1 == w.index <==> w.Ok())
  {
    hide FromDayCount, Difference, ToDays, FromDays, IsLeap, DayOfWeek, IndexedToDays, MakeWeekday;
    var d := MonthStart(w.year, w.month);
    IndexedRange(w);
    IndexedOffset(w);
    var z := IndexedToDays(w);
    FromDaysNearMonth(w.year, w.month, z - d);
    if w.index >= 1 {
      QuotientUnique(z - d, 7, w.index - 1, Difference(w.Weekday(), FromDayCount(d)));
    }
  }

  lemma {:induction false} IndexedRange(w: IndexedDate)
    ensures -0x200_0000 <= IndexedToDays(w) <= 0x200_0000
  {
    hide FromDayCount, ToDays;
    var d := MonthStart(w.year, w.month);
    WrappedSum(0, (w.index - 1) * 7);
    DifferenceIsResidue(w.Weekday(), FromDayCount(d));
  }

  /** Every representable day is some valid indexed date, and converts back. */
  lemma {:induction false} DayRoundTrip(z: int32)
    requires FIRST_DAY <= z <= LAST_DAY
    ensures Countable(z) && IndexedFromDays(z).Ok() && IndexedToDays(IndexedFromDays(z)) == z
  {
    hide FromDayCount, Difference, ToDays, FromDays, IsLeap, CountedDays, DayOfWeek, IndexedToDays;
    RangeEnds();
    FromDaysThenToDays(z);
    var x := FromDays(z);
    var w := IndexedFromDays(z);
    var d := MonthStart(w.year, w.month);
    FromDayCountIsResidue(z);
    WeeksKeepDayOfWeek(z, 0);
    ToDaysCountsDays(x);
    ToDaysCountsDays(Date(x.year, x.month, 1));
    CountedFromFirst(x.year, x.month, x.day);
    IndexedOffset(w);
    var k := SameDayOfWeek(IndexedToDays(w), z);
  }

  // ---- year_month_weekday_last

  function MonthEnd(y: short, m: byte): (d: int32)
    ensures -0x100_0000 <= d <= 0x100_0000
  {
    DayCountFits(Date(y, m, LastDay(y, m)));
    ToDays(Date(y, m, LastDay(y, m)))
  }

  /** year_month_weekday_last::to_days */
  function LastWeekday(y: short, m: byte, wd: byte): int {
    var d := MonthEnd(y, m);
    d - Difference(FromDayCount(d), wd)
  }

  /** It is a day of the month, on that weekday (modulo 7), and the next such day is in another month. */
  lemma {:induction false} LastWeekdayIsLast(y: short, m: byte, wd: byte)
    requires YearOk(y) && MonthOk(m)
    ensures var z := LastWeekday(y, m, wd);
            Countable(z) && Countable(z + 7) && DayOfWeek(z) == wd % 7
            && 1 <= z - MonthStart(y, m) + 1 <= 31
            && FromDays(z) == Date(y, m, z - MonthStart(y, m) + 1)
            && (FromDays(z + 7).year != y || FromDays(z + 7).month != m)
  {
    hide FromDayCount, Difference, ToDays, FromDays, CountedDays, IsLeap, DayOfWeek;
    var z := LastWeekday(y, m, wd);
    DifferenceBackward(wd, MonthEnd(y, m));
    ToDaysCountsDays(Date(y, m, 1));
    ToDaysCountsDays(Date(y, m, LastDay(y, m)));
    CountedFromFirst(y, m, LastDay(y, m));
    assert MonthEnd(y, m) == MonthStart(y, m) + LastDay(y, m) - 1;
    FromDaysNearMonth(y, m, z - MonthStart(y, m));
    FromDaysNearMonth(y, m, z + 7 - MonthStart(y, m));
  }
}
