/** Day counting behind gl/mktime.c: the leap-year test, the closed form for the leap days between
    two years, and the difference in seconds between two broken-down times. */
module Calendar {
  import opened MachineInts

  const TM_YEAR_BASE := 1900

  // ----- Reference definitions: the Gregorian calendar, counted one year at a time -----

  /** The Gregorian rule, for every year, negative ones included. */
  predicate GregorianLeap(y: int) {
    y % 4 == 0 && (y % 100 != 0 || y % 400 == 0)
  }

  /** Length in days of the year that C writes as tm_year == year. */
  function YearLength(year: int): int {
    if GregorianLeap(year + TM_YEAR_BASE) then 366 else 365
  }

  /** How many years in lo .. hi (exclusive) are leap years, found by looking at each. */
  function LeapYearsIn(lo: int, hi: int): int
    requires lo <= hi
    decreases hi - lo
  {
    if lo == hi then 0
    else LeapYearsIn(lo, hi - 1) + (if GregorianLeap(hi - 1 + TM_YEAR_BASE) then 1 else 0)
  }

  /** Days from the start of 1970 to the start of `year`, found by adding up year lengths. */
  function DayNumber(year: int): int
    decreases if year >= 70 then year - 70 else 70 - year
  {
    if year == 70 then 0
    else if year > 70 then DayNumber(year - 1) + YearLength(year - 1)
    else DayNumber(year + 1) - YearLength(year)
  }

  /** Seconds from the start of 1970 to the given point, the fields not necessarily in range. */
  function LinearTime(year: int, yday: int, hour: int, min: int, sec: int): int {
    86400 * (DayNumber(year) + yday) + 3600 * hour + 60 * min + sec
  }

  /** Length of month k, the months numbered consecutively from January 1900. */
  function MonthLength(k: int): int {
    var m := k % 12;
    if m == 1 then YearLength(k / 12) - 337
    else if m == 3 || m == 5 || m == 8 || m == 10 then 30
    else 31
  }

  /** Days from the start of 1970 to the start of month k, found by adding up month lengths. */
  function MonthStart(k: int): int
    decreases if k >= 840 then k - 840 else 840 - k
  {
    if k == 840 then 0
    else if k > 840 then MonthStart(k - 1) + MonthLength(k - 1)
    else MonthStart(k + 1) - MonthLength(k)
  }

  /** Seconds from the start of 1970 to a time given as year, month, day of month, hour, minute and
      second, none of them necessarily in its usual range. */
  function RequestedTime(year: int, mon: int, mday: int, hour: int, min: int, sec: int): int {
    86400 * (MonthStart(12 * year + mon) + mday - 1) + 3600 * hour + 60 * min + sec
  }

  // ----- The code -----

  /** `__mon_yday` */
  const MON_YDAY: seq<seq<int>> := [
    [0, 31, 59, 90, 120, 151, 181, 212, 243, 273, 304, 334, 365],
    [0, 31, 60, 91, 121, 152, 182, 213, 244, 274, 305, 335, 366]
  ]

  /** `leapyear`: the year is counted from 1900. */
  predicate LeapYear(year: int) {
    year % 4 == 0
    && (CMod(year, 100) != 0
        || CDiv(year, 100) % 4 == -(TM_YEAR_BASE / 100) % 4)
  }

  /** a4 of `ydhms_diff`. */
  function FourYears(year: int): int {
    year / 4 + TM_YEAR_BASE / 4 - (if year % 4 == 0 then 1 else 0)
  }

  /** a100 of `ydhms_diff`. */
  function Centuries(year: int): int {
    var a4 := FourYears(year);
    CDiv(a4, 25) - (if CMod(a4, 25) < 0 then 1 else 0)
  }

  /** `intervening_leap_days` of `ydhms_diff`, in unbounded arithmetic. */
  function InterveningLeapDays(year1: int, year0: int): int {
    var a4, b4 := FourYears(year1), FourYears(year0);
    var a100, b100 := Centuries(year1), Centuries(year0);
    var a400, b400 := a100 / 4, b100 / 4;
    (a4 - b4) - (a100 - b100) + (a400 - b400)
  }

  /** The years that `ydhms_diff` demands: from 2 * INT_MIN to 2 * INT_MAX. */
  predicate YearAllowed(year: int) {
    -0x1_0000_0000 <= year <= 0xFFFF_FFFE
  }

  /** a400 of `ydhms_diff`, from a4 in 32 bits, as are the sums with it. */
  function LeapCycles(a4: Int32): (r: (Int32, Int32)) {
    var a100 := Wrap32(CDiv(a4, 25) - (if CMod(a4, 25) < 0 then 1 else 0));
    (a100, Wrap32(a100 / 4))
  }

  /** `intervening_leap_days` of `ydhms_diff`, in the arithmetic of int. */
  function LeapDaysInt(year1: Int64, year0: Int32): Int32 {
    var a4, b4 := Wrap32(FourYears(year1)), Wrap32(FourYears(year0));
    var (a100, a400) := LeapCycles(a4);
    var (b100, b400) := LeapCycles(b4);
    Wrap32(Wrap32(Wrap32(a4 - b4) - Wrap32(a100 - b100)) + Wrap32(a400 - b400))
  }

  /** `ydhms_diff`, with every time_t operation reduced to 64 bits and every int operation to 32. */
  function YdhmsDiff(year1: Int64, yday1: Int64, hour1: Int32, min1: Int32, sec1: Int32,
                     year0: Int32, yday0: Int32, hour0: Int32, min0: Int32, sec0: Int32): Int64
  {
    var years := Wrap64(year1 - year0);
    var days := Wrap64(365 * years + yday1 - yday0 + LeapDaysInt(year1, year0));
    var hours := Wrap64(24 * days + hour1 - hour0);
    var minutes := Wrap64(60 * hours + min1 - min0);
    Wrap64(60 * minutes + sec1 - sec0)
  }

  // ----- Leap years and leap days -----

  lemma LeapYearIsGregorian(year: int)
    ensures LeapYear(year) <==> GregorianLeap(year + TM_YEAR_BASE)
  {
    hide CDiv, CMod;
    var c, r := year / 100, year % 100;
    assert year == 100 * c + r;
    assert (year + 1900) % 4 == year % 4 && (year + 1900) % 100 == r by {
      DivUnique(year + 1900, 4, year / 4 + 475, year % 4);
      DivUnique(year + 1900, 100, c + 19, r);
    }
    CenturyRemainder(year);
    if r == 0 {
      DivUnique(c + 19, 4, (c + 19) / 4, (c + 19) % 4);
      DivUnique(year + 1900, 400, (c + 19) / 4, 100 * ((c + 19) % 4));
    }
  }

  lemma CenturyRemainder(year: int)
    ensures CMod(year, 100) == 0 <==> year % 100 == 0
    ensures year % 100 == 0 ==> CDiv(year, 100) == year / 100
  {
    DivUnique(-year, 100, if year % 100 == 0 then -(year / 100) else -(year / 100) - 1,
              if year % 100 == 0 then 0 else 100 - year % 100);
  }

  lemma CenturiesIsFloor(year: int)
    ensures FourYears(year) == (year + 1899) / 4
    ensures Centuries(year) == (year + 1899) / 100
    ensures Centuries(year) / 4 == (year + 1899) / 400
  {
    var n := year + 1899;
    var a4 := FourYears(year);
    assert a4 == n / 4;
    assert a4 / 25 == n / 100;
    assert Centuries(year) == a4 / 25;
  }

  lemma LeapDayStep(year: int)
    ensures FourYears(year + 1) - Centuries(year + 1) + Centuries(year + 1) / 4
         == FourYears(year) - Centuries(year) + Centuries(year) / 4
            + (if GregorianLeap(year + TM_YEAR_BASE) then 1 else 0)
  {
    CenturiesIsFloor(year);
    CenturiesIsFloor(year + 1);
    var y := year + 1900;
    FloorStep(y, 4);
    FloorStep(y, 100);
    FloorStep(y, 400);
  }

  /** The closed form counts exactly the leap years in between, whichever year is the later. */
  lemma {:induction false} InterveningLeapDaysCounts(lo: int, hi: int)
    requires lo <= hi
    ensures InterveningLeapDays(hi, lo) == LeapYearsIn(lo, hi)
    ensures InterveningLeapDays(lo, hi) == -LeapYearsIn(lo, hi)
    decreases hi - lo
  {
    if lo < hi {
      InterveningLeapDaysCounts(lo, hi - 1);
      LeapDayStep(hi - 1);
    }
  }

  lemma Wrap32Fits(x: int)
    requires -TWO_31 <= x < TWO_31
    ensures Wrap32(x) == x
  {
  }

  /** In the years allowed nothing leaves the range of an int. */
  lemma LeapDaysFit(year1: Int64, year0: Int32)
    requires YearAllowed(year1)
    ensures LeapDaysInt(year1, year0) == InterveningLeapDays(year1, year0)
  {
    hide Wrap32, FourYears, Centuries, CDiv, CMod;
    CyclesFit(year1);
    CyclesFit(year0);
    var a4, b4 := FourYears(year1), FourYears(year0);
    var a100, b100 := Centuries(year1), Centuries(year0);
    Wrap32Fits(a4 - b4);
    Wrap32Fits(a100 - b100);
    Wrap32Fits(a100 / 4 - b100 / 4);
    Wrap32Fits((a4 - b4) - (a100 - b100));
    Wrap32Fits((a4 - b4) - (a100 - b100) + (a100 / 4 - b100 / 4));
  }

  lemma CyclesFit(year: int)
    requires YearAllowed(year)
    ensures Wrap32(FourYears(year)) == FourYears(year)
    ensures LeapCycles(FourYears(year)) == (Centuries(year), Centuries(year) / 4)
    ensures 4 * FourYears(year) <= year + 1899 < 4 * FourYears(year) + 4
    ensures 100 * Centuries(year) <= year + 1899 < 100 * Centuries(year) + 100
  {
    CenturiesIsFloor(year);
    hide FourYears, CDiv, CMod, Wrap32;
    Wrap32Fits(FourYears(year));
    Wrap32Fits(Centuries(year));
    Wrap32Fits(Centuries(year) / 4);
  }

  // ----- Seconds between two broken-down times -----

  lemma {:induction false} DayNumberDifference(lo: int, hi: int)
    requires lo <= hi
    ensures DayNumber(hi) - DayNumber(lo) == 365 * (hi - lo) + LeapYearsIn(lo, hi)
    decreases hi - lo
  {
    if lo < hi {
      DayNumberDifference(lo, hi - 1);
      DayNumberStep(hi - 1);
    }
  }

  lemma DayNumberStep(year: int)
    ensures DayNumber(year + 1) == DayNumber(year) + YearLength(year)
  {
  }

  lemma DaysBetween(year1: int, year0: int)
    ensures 365 * (year1 - year0) + InterveningLeapDays(year1, year0) == DayNumber(year1) - DayNumber(year0)
  {
    if year0 <= year1 {
      InterveningLeapDaysCounts(year0, year1);
      DayNumberDifference(year0, year1);
    } else {
      InterveningLeapDaysCounts(year1, year0);
      DayNumberDifference(year1, year0);
    }
  }

  /** x and y leave the same low 64 bits. */
  predicate Congruent64(x: int, y: int) {
    (x - y) % TWO_64 == 0
  }

  lemma Wrap64Congruent(x: int)
    ensures Congruent64(Wrap64(x), x)
  {
    DivUnique(Wrap64(x) - x, TWO_64, -((x + TWO_63) / TWO_64), 0);
  }

  lemma CongruentScale(x: int, y: int, c: int, d: int)
    requires Congruent64(x, y)
    ensures Congruent64(c * x + d, c * y + d)
  {
    var k := (x - y) / TWO_64;
    assert c * x + d - (c * y + d) == c * (TWO_64 * k) == TWO_64 * (c * k);
    DivUnique(c * x + d - (c * y + d), TWO_64, c * k, 0);
  }

  lemma CongruentTrans(x: int, y: int, z: int)
    requires Congruent64(x, y) && Congruent64(y, z)
    ensures Congruent64(x, z)
  {
    DivUnique(x - z, TWO_64, (x - y) / TWO_64 + (y - z) / TWO_64, 0);
  }

  lemma CongruentWrap(x: int, y: int)
    requires Congruent64(x, y)
    ensures Wrap64(x) == Wrap64(y)
  {
    var q, r := (y + TWO_63) / TWO_64, (y + TWO_63) % TWO_64;
    DivUnique(x + TWO_63, TWO_64, q + (x - y) / TWO_64, r);
  }

  /** One line of `ydhms_diff`: scale a wrapped value and add to it. */
  lemma WrapStep(x: int, y: int, c: int, d: int)
    requires Congruent64(x, y)
    ensures Congruent64(Wrap64(c * x + d), c * y + d)
  {
    CongruentScale(x, y, c, d);
    Wrap64Congruent(c * x + d);
    CongruentTrans(Wrap64(c * x + d), c * x + d, c * y + d);
  }

  /** `ydhms_diff` is the elapsed time, reduced to 64 bits, for all fields in or out of range and all years allowed. */
  lemma YdhmsDiffIsElapsed(year1: Int64, yday1: Int64, hour1: Int32, min1: Int32, sec1: Int32,
                           year0: Int32, yday0: Int32, hour0: Int32, min0: Int32, sec0: Int32)
    requires YearAllowed(year1)
    ensures YdhmsDiff(year1, yday1, hour1, min1, sec1, year0, yday0, hour0, min0, sec0)
         == Wrap64(LinearTime(year1, yday1, hour1, min1, sec1) - LinearTime(year0, yday0, hour0, min0, sec0))
  {
    hide DayNumber, InterveningLeapDays, LeapDaysInt, Congruent64, Wrap64;
    DaysBetween(year1, year0);
    LeapDaysFit(year1, year0);
    var yd := yday1 - yday0 + InterveningLeapDays(year1, year0);
    var years := Wrap64(year1 - year0);
    Wrap64Congruent(year1 - year0);
    var days := Wrap64(365 * years + yd);
    var trueDays := 365 * (year1 - year0) + yd;
    WrapStep(years, year1 - year0, 365, yd);
    var hours := Wrap64(24 * days + (hour1 - hour0));
    var trueHours := 24 * trueDays + (hour1 - hour0);
    WrapStep(days, trueDays, 24, hour1 - hour0);
    var minutes := Wrap64(60 * hours + (min1 - min0));
    var trueMinutes := 60 * trueHours + (min1 - min0);
    WrapStep(hours, trueHours, 60, min1 - min0);
    CongruentScale(minutes, trueMinutes, 60, sec1 - sec0);
    CongruentWrap(60 * minutes + (sec1 - sec0), 60 * trueMinutes + (sec1 - sec0));
    assert 60 * trueMinutes + (sec1 - sec0)
        == LinearTime(year1, yday1, hour1, min1, sec1) - LinearTime(year0, yday0, hour0, min0, sec0);
  }

  // ----- Months -----

  lemma MonthStep(k: int)
    ensures MonthStart(k + 1) == MonthStart(k) + MonthLength(k)
  {
  }

  lemma MonthYdayStep(year: int, m: int)
    requires 0 <= m < 12
    ensures var row := if LeapYear(year) then 1 else 0;
            MON_YDAY[row][m + 1] == MON_YDAY[row][m] + MonthLength(12 * year + m)
    ensures var row := if LeapYear(year) then 1 else 0; MON_YDAY[row][0] == 0 && MON_YDAY[row][12] == YearLength(year)
  {
    LeapYearIsGregorian(year);
    DivUnique(12 * year + m, 12, year, m);
  }

  /** Month m (0 to 12) of a year starts as long after its first month as the table says. */
  lemma {:induction false} MonthStartInYear(year: int, m: nat)
    requires m <= 12
    ensures MonthStart(12 * year + m) == MonthStart(12 * year) + MON_YDAY[if LeapYear(year) then 1 else 0][m]
  {
    hide MonthStart, MonthLength, LeapYear, YearLength;
    if m == 0 {
      MonthYdayStep(year, 0);
    } else {
      MonthStartInYear(year, m - 1);
      MonthYdayStep(year, m - 1);
      MonthStep(12 * year + (m - 1));
    }
  }

  /** Counting months and counting years put the start of a year on the same day. */
  lemma {:induction false} YearStartsAtJanuary(year: int)
    ensures MonthStart(12 * year) == DayNumber(year)
    decreases if year >= 70 then year - 70 else 70 - year
  {
    if year > 70 {
      YearStartsAtJanuary(year - 1);
      MonthStartInYear(year - 1, 12);
      MonthYdayStep(year - 1, 0);
    } else if year < 70 {
      YearStartsAtJanuary(year + 1);
      MonthStartInYear(year, 12);
      MonthYdayStep(year, 0);
    }
  }

  /** The table entry for a month, as the code looks it up, gives the day on which that month starts. */
  lemma MonthTableCorrect(year: int, m: nat)
    requires m < 12
    ensures MonthStart(12 * year + m) == DayNumber(year) + MON_YDAY[if LeapYear(year) then 1 else 0][m]
  {
    YearStartsAtJanuary(year);
    MonthStartInYear(year, m);
  }

  // ----- Bounds -----

  lemma {:induction false} DayNumberBound(year: int)
    ensures year >= 70 ==> 365 * (year - 70) <= DayNumber(year) <= 366 * (year - 70)
    ensures year <= 70 ==> 366 * (year - 70) <= DayNumber(year) <= 365 * (year - 70)
    decreases if year >= 70 then year - 70 else 70 - year
  {
    if year > 70 {
      DayNumberBound(year - 1);
    } else if year < 70 {
      DayNumberBound(year + 1);
    }
  }
}
