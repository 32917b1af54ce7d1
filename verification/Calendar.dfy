/** Conversion of seconds since 1970 to a date and time of the proleptic Gregorian calendar. */
module Calendar {
  import opened Wrappers

  const INT_MIN: int := -0x8000_0000
  const INT_MAX: int := 0x7FFF_FFFF
  const LEAPOCH: int := 946684800 + 86400 * (31 + 29)
  const DAYS_PER_400Y: int := 365 * 400 + 97
  const DAYS_PER_100Y: int := 365 * 100 + 24
  const DAYS_PER_4Y: int := 365 * 4 + 1

  // Month lengths from March to February.
  const DAYS_IN_MONTH: seq<int> := [31, 30, 31, 30, 31, 31, 30, 31, 30, 31, 31, 29]

  // C division truncates towards zero, and the remainder has the sign of the dividend.
  function Quotient(a: int, b: int): int
    requires b > 0
  {
    if a >= 0 then a / b else -((-a) / b)
  }

  function Remainder(a: int, b: int): int
    requires b > 0
  {
    if a >= 0 then a % b else -((-a) % b)
  }

  /** Adjusting a negative remainder gives the floor of the quotient. */
  lemma FloorOf(a: int, b: int)
    requires b > 0
    ensures var q, r := Quotient(a, b), Remainder(a, b);
      a == (if r < 0 then q - 1 else q) * b + (if r < 0 then r + b else r) && -b < r < b
  {
    if a < 0 {
      assert -a == ((-a) / b) * b + (-a) % b;
    } else {
      assert a == (a / b) * b + a % b;
    }
  }

  // The calendar.  Months count from 0, years are the usual ones.

  predicate Leap(year: int) {
    year % 4 == 0 && (year % 100 != 0 || year % 400 == 0)
  }

  function LeapDay(year: int): int {
    if Leap(year) then 1 else 0
  }

  function YearLength(year: int): int {
    365 + LeapDay(year)
  }

  function MonthLength(year: int, month: int): int
    requires 0 <= month < 12
  {
    if month == 1 then (if Leap(year) then 29 else 28)
    else if month == 3 || month == 5 || month == 8 || month == 10 then 30
    else 31
  }

  /** Days from 1 January 1970 to 1 January of `year`. */
  function YearStart(year: int): int
    decreases if year >= 1970 then year - 1970 else 1970 - year
  {
    if year == 1970 then 0
    else if year > 1970 then YearStart(year - 1) + YearLength(year - 1)
    else YearStart(year + 1) - YearLength(year)
  }

  /** Days from 1 January to the first day of `month`. */
  function MonthStart(year: int, month: int): int
    requires 0 <= month < 12
  {
    if month == 0 then 0 else MonthStart(year, month - 1) + MonthLength(year, month - 1)
  }

  datatype Date = Date(year: int, month: int, day: int, hour: int, minute: int, second: int)

  predicate IsDate(d: Date) {
    && 0 <= d.month < 12 && 1 <= d.day <= MonthLength(d.year, d.month)
    && 0 <= d.hour < 24 && 0 <= d.minute < 60 && 0 <= d.second < 60
  }

  function DayOfYear(d: Date): int
    requires IsDate(d)
  {
    MonthStart(d.year, d.month) + d.day - 1
  }

  function Days(d: Date): int
    requires IsDate(d)
  {
    YearStart(d.year) + DayOfYear(d)
  }

  function Seconds(d: Date): int
    requires IsDate(d)
  {
    86400 * Days(d) + 3600 * d.hour + 60 * d.minute + d.second
  }

  // Facts about the calendar

  function LeapDays(year: int): int {
    (year - 1) / 4 - (year - 1) / 100 + (year - 1) / 400
  }

  lemma LeapDaysStep(year: int)
    ensures LeapDays(year + 1) == LeapDays(year) + LeapDay(year)
  {
    FloorStep4(year);
    FloorStep100(year);
    FloorStep400(year);
  }

  lemma FloorStep4(x: int)
    ensures x / 4 == (x - 1) / 4 + if x % 4 == 0 then 1 else 0
  {
  }

  lemma FloorStep100(x: int)
    ensures x / 100 == (x - 1) / 100 + if x % 100 == 0 then 1 else 0
    ensures x % 100 == 0 ==> x % 4 == 0
  {
  }

  lemma FloorStep400(x: int)
    ensures x / 400 == (x - 1) / 400 + if x % 400 == 0 then 1 else 0
    ensures x % 400 == 0 ==> x % 100 == 0
  {
  }

  lemma {:induction false} YearStartClosed(year: int)
    ensures YearStart(year) == 365 * (year - 1970) + LeapDays(year) - 477
    decreases if year >= 1970 then year - 1970 else 1970 - year
  {
    assert LeapDays(1970) == 477;
    hide LeapDays, Leap;
    if year > 1970 {
      YearStartClosed(year - 1);
      LeapDaysStep(year - 1);
    } else if year < 1970 {
      YearStartClosed(year + 1);
      LeapDaysStep(year);
    }
  }

  lemma MonthStarts(year: int)
    ensures var leap := if Leap(year) then 1 else 0;
      && MonthStart(year, 1) == 31 && MonthStart(year, 2) == 59 + leap && MonthStart(year, 3) == 90 + leap
      && MonthStart(year, 4) == 120 + leap && MonthStart(year, 5) == 151 + leap && MonthStart(year, 6) == 181 + leap
      && MonthStart(year, 7) == 212 + leap && MonthStart(year, 8) == 243 + leap && MonthStart(year, 9) == 273 + leap
      && MonthStart(year, 10) == 304 + leap && MonthStart(year, 11) == 334 + leap
  {
    assert MonthStart(year, 3) == MonthStart(year, 2) + 31;
    assert MonthStart(year, 6) == MonthStart(year, 5) + 30;
    assert MonthStart(year, 9) == MonthStart(year, 8) + 30;
  }

  // Years that begin in March, counted from the one that begins on 1 March 2000

  /** Days from 1 March 2000 to 1 March of the year `y` years later. */
  function MarchStart(y: int): int {
    365 * y + y / 4 - y / 100 + y / 400
  }

  lemma MarchFirst(y: int)
    ensures YearStart(2000 + y) + MonthStart(2000 + y, 2) == LEAPOCH / 86400 + MarchStart(y)
  {
    YearStartClosed(2000 + y);
    LeapDaysStep(2000 + y);
    MonthStarts(2000 + y);
    assert (2000 + y) / 4 == 500 + y / 4 && (2000 + y) / 100 == 20 + y / 100 && (2000 + y) / 400 == 5 + y / 400;
  }

  /** Splits a year into its cycles. */
  lemma YearCycles(qc: int, c: int, q: int, r: int)
    requires 0 <= c < 4 && 0 <= q < 25 && 0 <= r < 4
    ensures var y := r + 4 * q + 100 * c + 400 * qc;
      && y / 4 == q + 25 * c + 100 * qc && y % 4 == r
      && y / 100 == c + 4 * qc && y % 100 == r + 4 * q
      && y / 400 == qc && y % 400 == r + 4 * q + 100 * c
  {
  }

  lemma LeapCycles(qc: int, c: int, q: int, r: int)
    requires 0 <= c < 4 && 0 <= q < 25 && 0 <= r < 4
    ensures var y := r + 4 * q + 100 * c + 400 * qc;
      && (Leap(y) <==> r == 0 && (q != 0 || c == 0))
      && (Leap(y + 1) <==> r == 3 && (q != 24 || c == 3))
  {
    YearCycles(qc, c, q, r);
    if r < 3 {
      YearCycles(qc, c, q, r + 1);
    } else if q < 24 {
      YearCycles(qc, c, q + 1, 0);
    } else if c < 3 {
      YearCycles(qc, c + 1, 0, 0);
    } else {
      YearCycles(qc + 1, 0, 0, 0);
    }
  }

  /** The days before a year, from its cycles; only a leap day at the end makes room for a remainder of 365. */
  lemma Cycles(qc: int, c: int, q: int, r: int)
    requires 0 <= c < 4 && 0 <= q < 25 && 0 <= r < 4
    ensures var y := r + 4 * q + 100 * c + 400 * qc;
      && MarchStart(y) == qc * DAYS_PER_400Y + c * DAYS_PER_100Y + q * DAYS_PER_4Y + r * 365
      && (Leap(2000 + y) <==> r == 0 && (q != 0 || c == 0))
      && (Leap(2001 + y) <==> r == 3 && (q != 24 || c == 3))
  {
    var y := r + 4 * q + 100 * c + 400 * qc;
    YearCycles(qc, c, q, r);
    LeapCycles(qc, c, q, r);
    LeapShifted(y);
    LeapShifted(y + 1);
  }

  lemma LeapShifted(y: int)
    ensures Leap(2000 + y) <==> Leap(y)
  {
    assert (2000 + y) % 4 == y % 4 && (2000 + y) % 100 == y % 100 && (2000 + y) % 400 == y % 400;
  }

  // The conversion

  // Years since 1900, days of the week from Sunday and days of the year from 0.
  datatype Tm = Tm(sec: int, min: int, hour: int, mday: int, mon: int, year: int, wday: int, yday: int)

  function DateOf(tm: Tm): Date {
    Date(tm.year + 1900, tm.mon, tm.mday, tm.hour, tm.min, tm.sec)
  }

  /** 1 January 1970 was a Thursday. */
  function Weekday(d: Date): int
    requires IsDate(d)
  {
    (4 + Days(d)) % 7
  }

  // The `int` computations that can leave their range: 400 times the cycles, the sum of the years, the year that
  // the second check compares, and its step from December to January.
  datatype Place = InCycles | InSum | InCheck | InStep

  /** What a call comes to: the error code, an overflow, after which the language leaves everything open, or the
      fields. */
  datatype Conversion = Refused | Overflows(place: Place) | Converted(tm: Tm)

  predicate IsInt(n: int) {
    INT_MIN <= n <= INT_MAX
  }

  // The March years before the first, and from the second on, are in cycles whose 400 years leave the `int`s.
  const LOWEST_YEAR: int := 2000 - 2147483600
  const TOO_HIGH_YEAR: int := 2000 + 2147484000

  function FirstOfMarch(year: int): int {
    86400 * (YearStart(year) + MonthStart(year, 2))
  }

  /** The first check, which bounds the year only roughly. */
  predicate PassesCheck(t: int) {
    INT_MIN * 31622400 <= t <= INT_MAX * 31622400
  }

  /** The times for which every `int` of the computation stays in its range. */
  predicate InRange(t: int) {
    FirstOfMarch(LOWEST_YEAR) <= t < 86400 * YearStart(1900 + INT_MAX + 1)
  }

  /** Where the first overflow happens. */
  function PlaceOf(t: int): Place
    requires !InRange(t)
  {
    if t < FirstOfMarch(LOWEST_YEAR) || t >= FirstOfMarch(TOO_HIGH_YEAR) then InCycles
    else if t >= FirstOfMarch(2000 + INT_MAX + 1) then InSum
    else if t >= FirstOfMarch(1900 + INT_MAX + 1) then InCheck
    else InStep
  }

  /** C division, and the correction behind it when the remainder is negative. */
  method FloorDivide(a: int, b: int) returns (q: int, r: int)
    requires b > 0
    ensures a == q * b + r && 0 <= r < b
  {
    FloorOf(a, b);
    q, r := Quotient(a, b), Remainder(a, b);
    hide Quotient, Remainder;
    if r < 0 {
      r := r + b;
      q := q - 1;
    }
  }

  /** Centuries, leap cycles and years within 400 years: each quotient is capped so that the last, longer, cycle
      stays whole. */
  method SplitCycle(day: int) returns (c_cycles: int, q_cycles: int, remyears: int, remdays: int)
    requires 0 <= day < DAYS_PER_400Y
    ensures 0 <= c_cycles < 4 && 0 <= q_cycles < 25 && 0 <= remyears < 4 && 0 <= remdays <= 365
    ensures day == c_cycles * DAYS_PER_100Y + q_cycles * DAYS_PER_4Y + remyears * 365 + remdays
    ensures remdays == 365 ==> remyears == 3 && (q_cycles < 24 || c_cycles == 3)
  {
    c_cycles := Quotient(day, DAYS_PER_100Y);
    if c_cycles == 4 {
      c_cycles := c_cycles - 1;
    }
    remdays := day - c_cycles * DAYS_PER_100Y;
    assert 0 <= c_cycles < 4 && 0 <= remdays <= DAYS_PER_100Y && (remdays == DAYS_PER_100Y ==> c_cycles == 3);

    q_cycles := Quotient(remdays, DAYS_PER_4Y);
    if q_cycles == 25 {
      q_cycles := q_cycles - 1;
    }
    remdays := remdays - q_cycles * DAYS_PER_4Y;
    assert 0 <= q_cycles < 25 && 0 <= remdays < DAYS_PER_4Y;
    assert remdays == DAYS_PER_4Y - 1 ==> q_cycles < 24 || c_cycles == 3;

    remyears := Quotient(remdays, 365);
    if remyears == 4 {
      remyears := remyears - 1;
    }
    remdays := remdays - remyears * 365;
    assert 0 <= remyears < 4 && 0 <= remdays <= 365;
    assert remdays == 365 ==> remyears == 3 && (q_cycles < 24 || c_cycles == 3);
  }

  /** The year that begins in March and the day within it. */
  method SplitDays(days: int) returns (years: int, remdays: int, leap: int, overflow: Option<Place>)
    ensures days == MarchStart(years) + remdays
    ensures 0 <= remdays <= 365 && (remdays == 365 ==> Leap(2001 + years))
    ensures leap == LeapDay(2000 + years)
    ensures overflow ==
            if 2000 + years < LOWEST_YEAR || 2000 + years >= TOO_HIGH_YEAR then Some(InCycles)
            else if years > INT_MAX then Some(InSum) else None
  {
    hide Leap, MarchStart;
    var qc_cycles;
    qc_cycles, remdays := FloorDivide(days, DAYS_PER_400Y);
    var c_cycles, q_cycles, remyears;
    c_cycles, q_cycles, remyears, remdays := SplitCycle(remdays);
    leap := if remyears == 0 && (q_cycles != 0 || c_cycles == 0) then 1 else 0;
    years := remyears + 4 * q_cycles + 100 * c_cycles + 400 * qc_cycles;
    overflow := if !IsInt(400 * qc_cycles) then Some(InCycles) else if !IsInt(years) then Some(InSum) else None;
    CyclesFit(qc_cycles, years);
    hide IsInt;
    Cycles(qc_cycles, c_cycles, q_cycles, remyears);
  }

  lemma CyclesFit(qc: int, years: int)
    requires 0 <= years - 400 * qc < 400
    ensures IsInt(400 * qc) <==> LOWEST_YEAR <= 2000 + years < TOO_HIGH_YEAR
    ensures IsInt(400 * qc) ==> (IsInt(years) <==> years <= INT_MAX)
  {
  }

  /** Days from 1 March to the first of the month `months` later. */
  function Elapsed(months: nat): int
    requires months <= 12
  {
    if months == 0 then 0 else Elapsed(months - 1) + DAYS_IN_MONTH[months - 1]
  }

  /** Finds the month of a day counted from 1 March; the search stays inside the table. */
  method FindMonth(yearDays: int) returns (months: nat, remdays: int)
    requires 0 <= yearDays <= 365
    ensures months < 12 && 0 <= remdays < DAYS_IN_MONTH[months] && Elapsed(months) + remdays == yearDays
  {
    months, remdays := 0, yearDays;
    ElapsedTotal();
    while DAYS_IN_MONTH[months] <= remdays
      invariant months < 12 && 0 <= remdays && Elapsed(months) + remdays == yearDays
      decreases remdays
    {
      remdays := remdays - DAYS_IN_MONTH[months];
      months := months + 1;
    }
  }

  lemma ElapsedTotal()
    ensures Elapsed(10) == 306 && Elapsed(11) == 337 && Elapsed(12) == 366
  {
    assert Elapsed(2) == 61;
    assert Elapsed(4) == 122;
    assert Elapsed(6) == 184;
    assert Elapsed(8) == 245;
  }

  /** From March to December the table agrees with the calendar in every year. */
  lemma {:induction false} MonthsFromMarch(year: int, months: nat)
    requires months <= 9
    ensures MonthStart(year, months + 2) == MonthStart(year, 2) + Elapsed(months)
    ensures MonthLength(year, months + 2) == DAYS_IN_MONTH[months]
  {
    if months > 0 {
      MonthsFromMarch(year, months - 1);
    }
  }

  /** From March on, the civil year is the one the March year began in. */
  lemma DateFromMarch(years: int, months: nat, remdays: int)
    requires months < 10 && 0 <= remdays < DAYS_IN_MONTH[months]
    ensures var year, day := 2000 + years, Elapsed(months) + remdays;
      && remdays + 1 <= MonthLength(year, months + 2)
      && YearStart(year) + MonthStart(year, months + 2) + remdays == LEAPOCH / 86400 + MarchStart(years) + day
      && MonthStart(year, months + 2) + remdays == day + 59 + LeapDay(year) < 365 + LeapDay(year)
  {
    hide MarchStart, YearStart, Leap, MonthLength;
    MarchFirst(years);
    MonthsFromMarch(2000 + years, months);
    MonthStarts(2000 + years);
    ElapsedBefore(months);
  }

  /** January and February belong to the next civil year. */
  lemma DateFromJanuary(years: int, months: nat, remdays: int)
    requires 10 <= months < 12 && 0 <= remdays < DAYS_IN_MONTH[months]
    requires Elapsed(months) + remdays == 365 ==> Leap(2001 + years)
    ensures var year, day := 2001 + years, Elapsed(months) + remdays;
      && remdays + 1 <= MonthLength(year, months - 10)
      && YearStart(year) + MonthStart(year, months - 10) + remdays == LEAPOCH / 86400 + MarchStart(years) + day
      && MonthStart(year, months - 10) + remdays == day + 59 - 365 >= 0
  {
    hide MarchStart, YearStart, Leap;
    MarchFirst(years);
    MonthStarts(2000 + years);
    ElapsedTotal();
    MonthStarts(2001 + years);
    YearStep(2000 + years);
  }

  lemma ElapsedBefore(months: nat)
    requires months < 10
    ensures Elapsed(months) + DAYS_IN_MONTH[months] <= 306
  {
    assert Elapsed(3) == 92;
    assert Elapsed(6) == 184;
    assert Elapsed(9) == 275;
  }

  lemma YearStep(year: int)
    ensures YearStart(year + 1) == YearStart(year) + YearLength(year)
  {
  }

  lemma {:induction false} YearsGrow(a: int, b: int)
    requires a < b
    ensures YearStart(a) + YearLength(a) <= YearStart(b)
    decreases b - a
  {
    hide Leap;
    YearStep(b - 1);
    if a < b - 1 {
      YearsGrow(a, b - 1);
    }
  }

  lemma {:induction false} MonthsGrow(year: int, a: int, b: int)
    requires 0 <= a < b < 12
    ensures MonthStart(year, a) + MonthLength(year, a) <= MonthStart(year, b)
    decreases b
  {
    hide Leap;
    if a < b - 1 {
      MonthsGrow(year, a, b - 1);
    }
  }

  lemma DayOfYearFits(d: Date)
    requires IsDate(d)
    ensures 0 <= DayOfYear(d) < YearLength(d.year)
  {
    MonthStarts(d.year);
  }

  /** A date is determined by its number of seconds. */
  lemma DateIsUnique(a: Date, b: Date)
    requires IsDate(a) && IsDate(b) && Seconds(a) == Seconds(b)
    ensures a == b
  {
    hide Leap, MonthLength, MonthStart, YearStart;
    DayOfYearFits(a);
    DayOfYearFits(b);
    assert Days(a) == Days(b);
    if a.year < b.year {
      YearsGrow(a.year, b.year);
    } else if b.year < a.year {
      YearsGrow(b.year, a.year);
    } else if a.month < b.month {
      MonthsGrow(a.year, a.month, b.month);
    } else if b.month < a.month {
      MonthsGrow(a.year, b.month, a.month);
    }
  }

  /** A date lies before a year exactly when its seconds do. */
  lemma YearBound(d: Date, year: int)
    requires IsDate(d)
    ensures d.year < year <==> Seconds(d) < 86400 * YearStart(year)
  {
    hide Leap, MonthLength, MonthStart, YearStart;
    DayOfYearFits(d);
    if d.year < year {
      YearsGrow(d.year, year);
    } else if year < d.year {
      YearsGrow(year, d.year);
    }
  }

  /** A day of a March year lies before the first of March of a civil year exactly when its year does. */
  lemma MarchBound(years: int, day: int, year: int)
    requires 0 <= day <= 365 && (day == 365 ==> Leap(2001 + years))
    ensures 2000 + years < year <==> LEAPOCH / 86400 + MarchStart(years) + day < YearStart(year) + MonthStart(year, 2)
  {
    var from := 2000 + years;
    MarchFirst(years);
    MonthStarts(from);
    MonthStarts(year);
    hide Leap, MarchStart, YearStart, MonthStart;
    if from < year {
      YearStep(from);
      if from + 1 < year {
        YearsGrow(from + 1, year);
      }
    } else if year < from {
      YearsGrow(year, from);
    }
  }

  /** Days since 1 March 2000, seconds of the day and day of the week. */
  method SplitSeconds(t: int) returns (days: int, remsecs: int, wday: int)
    ensures t == 86400 * (LEAPOCH / 86400 + days) + remsecs && 0 <= remsecs < 86400
    ensures wday == (4 + LEAPOCH / 86400 + days) % 7
  {
    days, remsecs := FloorDivide(t - LEAPOCH, 86400);
    var weeks;
    weeks, wday := FloorDivide(3 + days, 7);
    WeekdayIs(days, weeks, wday);
  }

  lemma WeekdayIs(days: int, weeks: int, wday: int)
    requires 3 + days == weeks * 7 + wday && 0 <= wday < 7
    ensures wday == (4 + LEAPOCH / 86400 + days) % 7
  {
    assert 4 + LEAPOCH / 86400 + days == (weeks + 1574) * 7 + wday;
  }

  /** The second check, on the year, comes after that year has been computed, so it never refuses anything: a
      year it would refuse has overflowed before. */
  method SecsToTm(t: int) returns (r: Conversion)
    ensures r.Refused? <==> !PassesCheck(t)
    ensures r.Overflows? <==> PassesCheck(t) && !InRange(t)
    ensures r.Overflows? ==> r.place == PlaceOf(t)
    ensures r.Converted? ==>
              var d := DateOf(r.tm);
              IsDate(d) && Seconds(d) == t && r.tm.wday == Weekday(d) && r.tm.yday == DayOfYear(d)
    ensures r.Converted? ==> IsInt(r.tm.year) && forall d | IsDate(d) && Seconds(d) == t :: d == DateOf(r.tm)
  {
    hide Leap, MarchStart, YearStart, MonthStart, MonthLength, Elapsed, LeapDay;
    RangeInSeconds();
    if t < INT_MIN * 31622400 || t > INT_MAX * 31622400 {
      return Refused;
    }
    var days, remsecs, wday := SplitSeconds(t);
    var years, remdays, leap, overflow := SplitDays(days);
    MarchBound(years, remdays, LOWEST_YEAR);
    MarchBound(years, remdays, 1900 + INT_MAX + 1);
    MarchBound(years, remdays, 2000 + INT_MAX + 1);
    MarchBound(years, remdays, TOO_HIGH_YEAR);

    var yday := remdays + 31 + 28 + leap;
    if yday >= 365 + leap {
      yday := yday - (365 + leap);
    }
    var months;
    months, remdays := FindMonth(remdays);
    if overflow.Some? {
      return Overflows(overflow.value);
    }
    if !IsInt(years + 100) {
      return Overflows(InCheck);
    }
    assert !(years + 100 > INT_MAX || years + 100 < INT_MIN);
    var year, mon := years + 100, months + 2;
    if mon >= 12 {
      mon := mon - 12;
      year := year + 1;
      DateFromJanuary(years, months, remdays);
    } else {
      DateFromMarch(years, months, remdays);
    }
    var tm := Tm(remsecs % 60, remsecs / 60 % 60, remsecs / 3600, remdays + 1, mon, year, wday, yday);
    var d := DateOf(tm);
    TimeOfDay(remsecs);
    assert IsDate(d) && Seconds(d) == t && yday == DayOfYear(d);
    YearBound(d, 1900 + INT_MAX + 1);
    if !IsInt(year) {
      return Overflows(InStep);
    }
    forall other | IsDate(other) && Seconds(other) == t ensures other == d {
      DateIsUnique(other, d);
    }
    return Converted(tm);
  }

  lemma TimeOfDay(secs: int)
    requires 0 <= secs < 86400
    ensures secs == 3600 * (secs / 3600) + 60 * (secs / 60 % 60) + secs % 60
    ensures 0 <= secs / 3600 < 24
  {
  }

  /** The bounds in seconds. */
  lemma RangeInSeconds()
    ensures FirstOfMarch(LOWEST_YEAR) == -67768035934118400
    ensures 86400 * YearStart(1900 + INT_MAX + 1) == 67768036191676800
    ensures FirstOfMarch(1900 + INT_MAX + 1) == 67768036196860800
    ensures FirstOfMarch(2000 + INT_MAX + 1) == 67768039352620800
    ensures FirstOfMarch(TOO_HIGH_YEAR) == 67768050460636800
  {
    FirstOfMarchClosed(LOWEST_YEAR);
    YearStartClosed(1900 + INT_MAX + 1);
    FirstOfMarchClosed(1900 + INT_MAX + 1);
    FirstOfMarchClosed(2000 + INT_MAX + 1);
    FirstOfMarchClosed(TOO_HIGH_YEAR);
    hide FirstOfMarch, YearStart;
  }

  lemma FirstOfMarchClosed(year: int)
    ensures FirstOfMarch(year) == 86400 * (365 * (year - 1970) + LeapDays(year) - 477 + 59 + LeapDay(year))
  {
    YearStartClosed(year);
    MonthStarts(year);
  }

  /** All times that pass the first check and overflow nevertheless, by the place where they do. */
  lemma OverflowZones(t: int)
    ensures PassesCheck(t) && !InRange(t) <==>
            -67908586910515200 <= t < -67768035934118400 || 67768036191676800 <= t <= 67908586878892800
    ensures !InRange(t) ==>
              PlaceOf(t) == if t < 0 then InCycles
                            else if t < 67768036196860800 then InStep
                            else if t < 67768039352620800 then InCheck
                            else if t < 67768050460636800 then InSum
                            else InCycles
  {
    RangeInSeconds();
  }

  /** An input for each: the first second the second check would refuse, the first whose year is no `int`, and
      the first second of the year that check would let through as the lowest. */
  lemma OverflowInputs()
    ensures PassesCheck(67768036196860800) && !InRange(67768036196860800) && PlaceOf(67768036196860800) == InCheck
    ensures PassesCheck(67768039352620800) && !InRange(67768039352620800) && PlaceOf(67768039352620800) == InSum
    ensures FirstOfMarch(1900 + INT_MIN) == -67768040604556800
    ensures PassesCheck(-67768040604556800) && !InRange(-67768040604556800) && PlaceOf(-67768040604556800) == InCycles
  {
    RangeInSeconds();
    FirstOfMarchClosed(1900 + INT_MIN);
  }

  /** The second check passes and the year field overflows at the first second of the year after the last one. */
  lemma LastYearOverflows()
    ensures var t := 67768036191676800;
      && PassesCheck(t) && !InRange(t) && PlaceOf(t) == InStep
      && forall d | IsDate(d) && Seconds(d) == t :: d.year - 1900 == INT_MAX + 1
  {
    var year := 1900 + INT_MAX + 1;
    RangeInSeconds();
    var first := Date(year, 0, 1, 0, 0, 0);
    assert Seconds(first) == 67768036191676800;
    forall d | IsDate(d) && Seconds(d) == 67768036191676800 ensures d.year == year {
      DateIsUnique(d, first);
    }
  }
}
