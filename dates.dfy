/**
 * Local calendar arithmetic of JavaScript `Date` objects, after the day
 * computations of ECMA-262 section 21.4.1 (DayFromYear, MakeDay, WeekDay):
 * proleptic Gregorian leap years, a month argument carried into the year with
 * floor and modulo, and a day argument that overflows into adjacent months.
 * Time zones are not modelled: a date is the local wall-clock value.
 */
module Dates {

  const MsPerDay: int := 86400000

  predicate IsLeapYear(y: int) {
    y % 4 == 0 && (y % 100 != 0 || y % 400 == 0)
  }

  function DaysInYear(y: int): int {
    if IsLeapYear(y) then 366 else 365
  }

  /** Days of month `m` (0 = January) of year `y`. */
  function DaysInMonth(y: int, m: int): (n: int)
    requires 0 <= m < 12
    ensures 28 <= n <= 31
    ensures n == 29 <==> m == 1 && IsLeapYear(y)
  {
    if m == 1 then (if IsLeapYear(y) then 29 else 28)
    else if m == 3 || m == 5 || m == 8 || m == 10 then 30
    else 31
  }

  /** Days of year `y` before its month `m` (12 gives the whole year). */
  function DaysBeforeMonth(y: int, m: int): int
    requires 0 <= m <= 12
  {
    var common := [0, 31, 59, 90, 120, 151, 181, 212, 243, 273, 304, 334, 365];
    common[m] + if m >= 2 && IsLeapYear(y) then 1 else 0
  }

  lemma DaysBeforeMonthStep(y: int, m: int)
    requires 0 <= m < 12
    ensures DaysBeforeMonth(y, m + 1) == DaysBeforeMonth(y, m) + DaysInMonth(y, m)
  {
  }

  /**
   * The day number of January 1 of `y`, counted from 1970-01-01: each year adds
   * its length. DayFromYearFormula shows it is ECMA-262's closed form.
   */
  function DayFromYear(y: int): int
    decreases if y < 1970 then 1970 - y else y - 1970
  {
    if y == 1970 then 0
    else if y > 1970 then DayFromYear(y - 1) + DaysInYear(y - 1)
    else DayFromYear(y + 1) - DaysInYear(y)
  }

  /** ECMA-262 DayFromYear: 365 * (y - 1970) + floor((y - 1969) / 4) - floor((y - 1901) / 100) + floor((y - 1601) / 400). */
  function DayFromYearEcma(y: int): int {
    365 * (y - 1970) + (y - 1969) / 4 - (y - 1901) / 100 + (y - 1601) / 400
  }

  lemma EcmaYearStep(y: int)
    ensures DayFromYearEcma(y + 1) == DayFromYearEcma(y) + DaysInYear(y)
  {
    var d4, d100, d400 := StepCount(y, 4), StepCount(y, 100), StepCount(y, 400);
    FloorStep4(y);
    FloorStep100(y);
    FloorStep400(y);
    assert DayFromYearEcma(y + 1) == 365 * (y - 1969) + (y - 1968) / 4 - (y - 1900) / 100 + (y - 1600) / 400;
    LeapCount(y);
  }

  /** A year's length counted as the Gregorian rule's three corrections. */
  lemma LeapCount(y: int)
    ensures DaysInYear(y) == 365 + StepCount(y, 4) - StepCount(y, 100) + StepCount(y, 400)
  {
    if y % 400 == 0 {
      assert y == 100 * (4 * (y / 400));
    }
    if y % 100 == 0 {
      assert y == 4 * (25 * (y / 100));
    }
  }

  /** 1 when `y` is a multiple of `n`, else 0: how much a floor quotient by `n` grows from year `y - 1` to `y`. */
  function StepCount(y: int, n: int): int
    requires n > 0
  {
    if y % n == 0 then 1 else 0
  }

  lemma FloorStep4(y: int)
    ensures (y - 1968) / 4 - (y - 1969) / 4 == StepCount(y, 4)
  {
    var q, r := y / 4, y % 4;
    assert (y - 1968) / 4 == q - 492;
    if r == 0 {
      assert y - 1969 == 4 * (q - 493) + 3;
    } else {
      assert y - 1969 == 4 * (q - 492) + (r - 1);
    }
  }

  lemma FloorStep100(y: int)
    ensures (y - 1900) / 100 - (y - 1901) / 100 == StepCount(y, 100)
  {
    var q, r := y / 100, y % 100;
    assert (y - 1900) / 100 == q - 19;
    if r == 0 {
      assert y - 1901 == 100 * (q - 20) + 99;
    } else {
      assert y - 1901 == 100 * (q - 19) + (r - 1);
    }
  }

  lemma FloorStep400(y: int)
    ensures (y - 1600) / 400 - (y - 1601) / 400 == StepCount(y, 400)
  {
    var q, r := y / 400, y % 400;
    assert (y - 1600) / 400 == q - 4;
    if r == 0 {
      assert y - 1601 == 400 * (q - 5) + 399;
    } else {
      assert y - 1601 == 400 * (q - 4) + (r - 1);
    }
  }

  lemma {:induction false} DayFromYearFormula(y: int)
    ensures DayFromYear(y) == DayFromYearEcma(y)
    decreases if y < 1970 then 1970 - y else y - 1970
  {
    if y > 1970 {
      DayFromYearFormula(y - 1);
      EcmaYearStep(y - 1);
    } else if y < 1970 {
      DayFromYearFormula(y + 1);
      EcmaYearStep(y);
    }
  }

  /**
   * ECMA-262 MakeDay for integer arguments: the month carries into the year by
   * floor division and modulo 12, and the day is added to the first of the month.
   */
  function MakeDay(year: int, month: int, date: int): int {
    var ym := year + month / 12;
    var mn := month % 12;
    DayFromYear(ym) + DaysBeforeMonth(ym, mn) + date - 1
  }

  /** The day number of the first day of the month with index `k` (12 * year + month). */
  function MonthStart(k: int): int {
    DayFromYear(k / 12) + DaysBeforeMonth(k / 12, k % 12)
  }

  /** A calendar day: `year`, `month` from 0 (January) to 11 and `day` of the month. */
  datatype Date = Date(year: int, month: int, day: int) {
    predicate Valid() {
      0 <= month < 12 && 1 <= day <= DaysInMonth(year, month)
    }
  }

  function DayNumber(d: Date): int {
    MakeDay(d.year, d.month, d.day)
  }

  /** The index of the month of `d`, counting months from year 0. */
  function MonthIndex(d: Date): int {
    12 * d.year + d.month
  }

  /** ECMA-262 WeekDay: 0 is Sunday. 1970-01-01 was a Thursday. */
  function Weekday(d: Date): (w: int)
    ensures 0 <= w < 7
  {
    (DayNumber(d) + 4) % 7
  }

  /** A Date value: a local calendar day and the milliseconds since its midnight. */
  datatype Stamp = Stamp(date: Date, ms: int) {
    predicate Valid() {
      date.Valid() && 0 <= ms < MsPerDay
    }
  }

  /** `getTime()` for a local date-time (time zones are not modelled). */
  function Time(s: Stamp): int {
    DayNumber(s.date) * MsPerDay + s.ms
  }

  lemma YearStep(y: int)
    ensures DayFromYear(y + 1) == DayFromYear(y) + DaysInYear(y)
  {
  }

  /** Division by 12 has one quotient and remainder. */
  lemma DivMod12(n: int, q: int, r: int)
    requires n == 12 * q + r && 0 <= r < 12
    ensures n / 12 == q && n % 12 == r
  {
  }

  lemma MonthIndexDiv(y: int, m: int)
    ensures (12 * y + m) / 12 == y + m / 12 && (12 * y + m) % 12 == m % 12
  {
    DivMod12(12 * y + m, y + m / 12, m % 12);
  }

  /** MakeDay depends on year and month only through the month index. */
  lemma MakeDayByMonthIndex(y: int, m: int, d: int)
    ensures MakeDay(y, m, d) == MonthStart(12 * y + m) + d - 1
  {
    MonthIndexDiv(y, m);
  }

  /** Consecutive months are as far apart as the days of the earlier one. */
  lemma MonthStartStep(k: int)
    ensures MonthStart(k + 1) == MonthStart(k) + DaysInMonth(k / 12, k % 12)
  {
    var y, m := k / 12, k % 12;
    if m == 11 {
      DivMod12(k + 1, y + 1, 0);
      YearStep(y);
    } else {
      DivMod12(k + 1, y, m + 1);
      DaysBeforeMonthStep(y, m);
    }
  }

  lemma {:induction false} MonthStartMonotone(i: int, j: int)
    requires i <= j
    ensures MonthStart(i) + 28 * (j - i) <= MonthStart(j)
    decreases j - i
  {
    if i < j {
      MonthStartMonotone(i, j - 1);
      MonthStartStep(j - 1);
    }
  }

  /** A valid date lies in its month's run of day numbers. */
  lemma DateInMonth(d: Date)
    requires d.Valid()
    ensures DayNumber(d) == MonthStart(MonthIndex(d)) + d.day - 1
    ensures MonthStart(MonthIndex(d)) <= DayNumber(d) < MonthStart(MonthIndex(d) + 1)
  {
    var k := MonthIndex(d);
    MakeDayByMonthIndex(d.year, d.month, d.day);
    DivMod12(k, d.year, d.month);
    MonthStartStep(k);
    assert MonthStart(k + 1) == MonthStart(k) + DaysInMonth(d.year, d.month);
  }

  /** The month and day of a valid date are determined by its day number. */
  lemma DateOfDayNumber(d: Date, k: int)
    requires d.Valid()
    requires MonthStart(k) <= DayNumber(d) < MonthStart(k + 1)
    ensures MonthIndex(d) == k && d.year == k / 12 && d.month == k % 12
    ensures d.day == DayNumber(d) - MonthStart(k) + 1
  {
    DateInMonth(d);
    MonthOfDay(MonthIndex(d), k, DayNumber(d));
    MonthIndexDiv(d.year, d.month);
  }

  /** A day number lies in one month only. */
  lemma MonthOfDay(i: int, k: int, n: int)
    requires MonthStart(i) <= n < MonthStart(i + 1)
    requires MonthStart(k) <= n < MonthStart(k + 1)
    ensures i == k
  {
    if i < k {
      MonthStartMonotone(i + 1, k);
    } else if i > k {
      MonthStartMonotone(k + 1, i);
    }
  }

  /** Two valid dates with the same day number are the same date. */
  lemma DayNumberInjective(a: Date, b: Date)
    requires a.Valid() && b.Valid() && DayNumber(a) == DayNumber(b)
    ensures a == b
  {
    DateInMonth(a);
    DateOfDayNumber(b, MonthIndex(a));
  }

  /** Day numbers and month indices of valid dates are ordered alike. */
  lemma MonthIndexMonotone(a: Date, b: Date)
    requires a.Valid() && b.Valid() && DayNumber(a) <= DayNumber(b)
    ensures MonthIndex(a) <= MonthIndex(b)
  {
    DateInMonth(a);
    DateInMonth(b);
    if MonthIndex(a) > MonthIndex(b) {
      MonthStartMonotone(MonthIndex(b) + 1, MonthIndex(a));
    }
  }

  /** Instants of valid stamps are ordered like their days. */
  lemma TimeOrdersDays(a: Stamp, b: Stamp)
    requires a.Valid() && b.Valid() && Time(a) <= Time(b)
    ensures DayNumber(a.date) <= DayNumber(b.date)
  {
  }

  /**
   * The valid date `d` days after the first of month `m` of year `y`, minus one:
   * a day outside the month rolls into the months before or after it.
   */
  function NormalizeDay(y: int, m: int, d: int): (r: Date)
    requires 0 <= m < 12
    ensures r.Valid()
    ensures DayNumber(r) == MakeDay(y, m, d)
    decreases if d < 1 then 1 else 0, if d < 1 then 1 - d else d
  {
    if d < 1 then
      var py, pm := if m == 0 then y - 1 else y, if m == 0 then 11 else m - 1;
      DayBeforeMonth(y, m, d);
      NormalizeDay(py, pm, d + DaysInMonth(py, pm))
    else if d > DaysInMonth(y, m) then
      var ny, nm := if m == 11 then y + 1 else y, if m == 11 then 0 else m + 1;
      DayAfterMonth(y, m, d);
      NormalizeDay(ny, nm, d - DaysInMonth(y, m))
    else
      Date(y, m, d)
  }

  /** Day `d` of a month is day `d` plus the length of the month before, counted in that month. */
  lemma DayBeforeMonth(y: int, m: int, d: int)
    requires 0 <= m < 12
    ensures var py, pm := if m == 0 then y - 1 else y, if m == 0 then 11 else m - 1;
      MakeDay(py, pm, d + DaysInMonth(py, pm)) == MakeDay(y, m, d)
  {
    var py, pm := if m == 0 then y - 1 else y, if m == 0 then 11 else m - 1;
    var k := 12 * py + pm;
    assert k + 1 == 12 * y + m;
    MakeDayByMonthIndex(y, m, d);
    MakeDayByMonthIndex(py, pm, d + DaysInMonth(py, pm));
    DivMod12(k, py, pm);
    MonthStartStep(k);
  }

  /** Day `d` of a month is day `d` minus its length, counted in the month after. */
  lemma DayAfterMonth(y: int, m: int, d: int)
    requires 0 <= m < 12
    ensures var ny, nm := if m == 11 then y + 1 else y, if m == 11 then 0 else m + 1;
      MakeDay(ny, nm, d - DaysInMonth(y, m)) == MakeDay(y, m, d)
  {
    var ny, nm := if m == 11 then y + 1 else y, if m == 11 then 0 else m + 1;
    NextMonthDay(y, m, ny, nm, d);
  }

  /** DayAfterMonth with the next month's year and month given by their month index. */
  lemma NextMonthDay(y: int, m: int, ny: int, nm: int, d: int)
    requires 0 <= m < 12 && 12 * ny + nm == 12 * y + m + 1
    ensures MakeDay(ny, nm, d - DaysInMonth(y, m)) == MakeDay(y, m, d)
  {
    var k := 12 * y + m;
    MakeDayByMonthIndex(y, m, d);
    MakeDayByMonthIndex(ny, nm, d - DaysInMonth(y, m));
    MonthStartStep(k);
    DivMod12(k, y, m);
    assert MonthStart(12 * ny + nm) == MonthStart(k) + DaysInMonth(y, m);
  }

  /** `new Date(y, m, d)` without the two-digit-year rule (as `setMonth` computes it). */
  function MakeDate(y: int, m: int, d: int): (r: Date)
    ensures r.Valid()
    ensures DayNumber(r) == MakeDay(y, m, d)
  {
    MonthIndexDiv(y, m);
    MakeDayByMonthIndex(y + m / 12, m % 12, d);
    MakeDayByMonthIndex(y, m, d);
    NormalizeDay(y + m / 12, m % 12, d)
  }

  /** ECMA-262 MakeFullYear of the Date constructor: years 0 to 99 mean 1900 to 1999. */
  function FullYear(y: int): int {
    if 0 <= y <= 99 then 1900 + y else y
  }

  /** The calendar day of `new Date(year, month, day)` (local midnight). */
  function LocalDate(year: int, month: int, day: int): (r: Date)
    ensures r.Valid()
    ensures DayNumber(r) == MakeDay(FullYear(year), month, day)
  {
    MakeDate(FullYear(year), month, day)
  }

  /** A valid date built from its own fields is itself. */
  lemma MakeDateOfValid(d: Date)
    requires d.Valid()
    ensures MakeDate(d.year, d.month, d.day) == d
  {
    DayNumberInjective(MakeDate(d.year, d.month, d.day), d);
  }

  /** `new Date(y, m, d)` of a valid day with a year of 100 or more is that day. */
  lemma LocalDateOfValid(d: Date)
    requires d.Valid() && d.year >= 100
    ensures LocalDate(d.year, d.month, d.day) == d
  {
    MakeDateOfValid(d);
  }

  /** `date.setMonth(m)`: the same day of month `m` (normalised), at the same time of day. */
  function SetMonth(s: Stamp, m: int): (r: Stamp)
    ensures r.date.Valid() && r.ms == s.ms
    ensures DayNumber(r.date) == MakeDay(s.date.year, m, s.date.day)
  {
    Stamp(MakeDate(s.date.year, m, s.date.day), s.ms)
  }

  /** The first day of the month with index `k`. */
  function FirstOfMonth(k: int): (d: Date)
    ensures d.Valid() && d.day == 1 && MonthIndex(d) == k
    ensures DayNumber(d) == MonthStart(k)
  {
    MakeDayByMonthIndex(k / 12, k % 12, 1);
    Date(k / 12, k % 12, 1)
  }

  /** Midnight of a month's first day is at or before a date-time exactly when the date-time is in that month or a later one. */
  lemma MonthStartBefore(k: int, s: Stamp)
    requires s.Valid()
    ensures Time(Stamp(FirstOfMonth(k), 0)) <= Time(s) <==> k <= MonthIndex(s.date)
  {
    DateInMonth(s.date);
    var j := MonthIndex(s.date);
    if k <= j {
      MonthStartMonotone(k, j);
    } else {
      MonthStartMonotone(j + 1, k);
    }
  }

  /** Moving a date-time one month on with `setMonth` moves it later. */
  lemma SetMonthAdvances(s: Stamp)
    ensures Time(SetMonth(s, s.date.month + 1)) > Time(s)
  {
    NextMonthLater(s.date.year, s.date.month, s.date.day);
    LaterDayLaterTime(s, SetMonth(s, s.date.month + 1));
  }

  /** The same day of the next month comes later. */
  lemma NextMonthLater(y: int, m: int, d: int)
    ensures MakeDay(y, m + 1, d) > MakeDay(y, m, d)
  {
    MakeDayByMonthIndex(y, m + 1, d);
    MakeDayByMonthIndex(y, m, d);
    MonthStartMonotone(12 * y + m, 12 * y + m + 1);
  }

  /** Of two date-times at the same time of day, the one on the later day is later. */
  lemma LaterDayLaterTime(a: Stamp, b: Stamp)
    requires DayNumber(a.date) < DayNumber(b.date) && a.ms == b.ms
    ensures Time(a) < Time(b)
  {
    var x, y := DayNumber(a.date), DayNumber(b.date);
    assert y * MsPerDay - x * MsPerDay == (y - x) * MsPerDay;
  }

  /** `setMonth` one on from the first of a month is the first of the next month. */
  lemma SetMonthOfFirst(k: int, ms: int)
    ensures SetMonth(Stamp(FirstOfMonth(k), ms), FirstOfMonth(k).month + 1) == Stamp(FirstOfMonth(k + 1), ms)
  {
    var f := FirstOfMonth(k);
    var r := SetMonth(Stamp(f, ms), f.month + 1);
    MakeDayByMonthIndex(f.year, f.month + 1, 1);
    assert 12 * f.year + f.month + 1 == k + 1;
    DayNumberInjective(r.date, FirstOfMonth(k + 1));
  }
}
