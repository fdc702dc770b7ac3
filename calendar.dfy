/** The proleptic Gregorian calendar as Python's `datetime` and `calendar.timegm` count it:
    `date.toordinal()` numbers 0001-01-01 as day 1, and the POSIX epoch 1970-01-01 is ordinal
    719163, so a civil date becomes a signed count of days since the epoch. */
module Calendar {
  import opened Common


  datatype Date = Date(year: int, month: int, day: int)

  /** The ordinal of 1970-01-01, Python's `_EPOCH_ORD` inside `calendar.timegm`. */
  const EpochOrdinal: int := 719163

  predicate IsLeap(y: int) { y % 4 == 0 && (y % 100 != 0 || y % 400 == 0) }

  function DaysInYear(y: int): (n: int)
    ensures 365 <= n <= 366
  {
    if IsLeap(y) then 366 else 365
  }

  function DaysInMonth(y: int, m: int): (n: int)
    requires 1 <= m <= 12
    ensures 28 <= n <= 31
    ensures n == 29 <==> m == 2 && IsLeap(y)
  {
    if m == 2 then (if IsLeap(y) then 29 else 28)
    else if m == 4 || m == 6 || m == 9 || m == 11 then 30
    else 31
  }

  /** A date whose month and day exist in its year (the year itself is unrestricted). */
  predicate ValidDate(d: Date)
  {
    1 <= d.month <= 12 && 1 <= d.day <= DaysInMonth(d.year, d.month)
  }

  /** Days in the years before `y`, counted from 0001-01-01 (`_days_before_year`). */
  function DaysBeforeYear(y: int): int
  {
    var p := y - 1;
    p * 365 + p / 4 - p / 100 + p / 400
  }

  /** Days in the months of year `y` before month `m` (`_days_before_month`). */
  function DaysBeforeMonth(y: int, m: int): (n: int)
    requires 1 <= m <= 12
    ensures 0 <= n <= 335
  {
    var table := [0, 31, 59, 90, 120, 151, 181, 212, 243, 273, 304, 334];
    table[m - 1] + (if m > 2 && IsLeap(y) then 1 else 0)
  }

  /** Signed days from 1970-01-01 to `d`: `date(y, m, 1).toordinal() - 719163 + d - 1`. */
  function DaysFromCivil(d: Date): int
    requires 1 <= d.month <= 12
  {
    DaysBeforeYear(d.year) + DaysBeforeMonth(d.year, d.month) + d.day - EpochOrdinal
  }

  /** Each month starts where the previous one ends. */
  lemma DaysBeforeMonthStep(y: int, m: int)
    requires 1 <= m < 12
    ensures DaysBeforeMonth(y, m + 1) == DaysBeforeMonth(y, m) + DaysInMonth(y, m)
  {
  }

  /** December ends where the year ends. */
  lemma DaysBeforeDecember(y: int)
    ensures DaysBeforeMonth(y, 12) + DaysInMonth(y, 12) == DaysInYear(y)
  {
  }

  /** Months are laid out in increasing order. */
  lemma DaysBeforeMonthMonotone(y: int, m: int, k: int)
    requires 1 <= m <= k <= 12
    ensures DaysBeforeMonth(y, m) <= DaysBeforeMonth(y, k)
    ensures m < k ==> DaysBeforeMonth(y, m) + DaysInMonth(y, m) <= DaysBeforeMonth(y, k)
  {
  }

  /** Days before year `y`, when `y - 1` is split into 400-, 100-, 4- and 1-year cycles. */
  lemma DaysBeforeYearCycles(a: int, b: int, c: int, e: int)
    requires 0 <= b <= 3 && 0 <= c <= 24 && 0 <= e <= 3
    ensures DaysBeforeYear(400 * a + 100 * b + 4 * c + e + 1)
            == 146097 * a + 36524 * b + 1461 * c + 365 * e
  {
    var p := 400 * a + 100 * b + 4 * c + e;
    DivModUnique(p, 4, 100 * a + 25 * b + c, e);
    DivModUnique(p, 100, 4 * a + b, 4 * c + e);
    DivModUnique(p, 400, a, 100 * b + 4 * c + e);
  }

  /** The year holding the zero-based day `n` (counted from 0001-01-01) and the zero-based day
      within that year: the 400/100/4/1-year cycle decomposition of `_ord2ymd`. */
  function YearAndDay(n: int): (r: (int, int))
    ensures 0 <= r.1 < DaysInYear(r.0)
    ensures DaysBeforeYear(r.0) + r.1 == n
  {
    var n400, r400 := n / 146097, n % 146097;
    var n100, r100 := r400 / 36524, r400 % 36524;
    var n4, r4 := r100 / 1461, r100 % 1461;
    var n1, r1 := r4 / 365, r4 % 365;
    var year := n400 * 400 + n100 * 100 + n4 * 4 + n1 + 1;
    if n1 == 4 || n100 == 4 then
      CycleEnd(n400, n100, n4, n1);
      (year - 1, 365)
    else
      DaysBeforeYearCycles(n400, n100, n4, n1);
      (year, r1)
  }

  /** The last day of a 4-year or 400-year cycle is December 31 of a leap year. */
  lemma CycleEnd(n400: int, n100: int, n4: int, n1: int)
    requires 0 <= n100 <= 4 && 0 <= n4 <= 24 && 0 <= n1 <= 4
    requires n100 == 4 ==> n4 == 0 && n1 == 0
    requires n1 == 4 ==> n100 < 4 && n4 <= 23
    requires n1 == 4 || n100 == 4
    ensures var y := n400 * 400 + n100 * 100 + n4 * 4 + n1;
            IsLeap(y) && DaysBeforeYear(y) + 365
              == 146097 * n400 + 36524 * n100 + 1461 * n4 + 365 * n1
  {
    if n100 == 4 {
      FourHundredYearEnd(n400);
    } else {
      FourYearEnd(n400, n100, n4);
    }
  }

  lemma FourHundredYearEnd(a: int)
    ensures IsLeap(400 * a + 400)
    ensures DaysBeforeYear(400 * a + 400) + 365 == 146097 * a + 36524 * 4
  {
    var y := 400 * a + 400;
    DivModUnique(y, 400, a + 1, 0);
    DivModUnique(y, 4, 100 * a + 100, 0);
    DaysBeforeYearCycles(a, 3, 24, 3);
  }

  lemma FourYearEnd(a: int, b: int, c: int)
    requires 0 <= b <= 3 && 0 <= c <= 23
    ensures IsLeap(400 * a + 100 * b + 4 * c + 4)
    ensures DaysBeforeYear(400 * a + 100 * b + 4 * c + 4) + 365
            == 146097 * a + 36524 * b + 1461 * c + 365 * 4
  {
    var y := 400 * a + 100 * b + 4 * c + 4;
    DivModUnique(y, 4, 100 * a + 25 * b + c + 1, 0);
    DivModUnique(y, 100, 4 * a + b, 4 * c + 4);
    DaysBeforeYearCycles(a, b, c, 3);
  }

  /** The month of year `y` holding the zero-based day `doy`, searched from month `m` on. */
  function MonthOf(y: int, doy: int, m: int): (r: int)
    requires 1 <= m <= 12
    requires DaysBeforeMonth(y, m) <= doy < DaysInYear(y)
    ensures m <= r <= 12
    ensures DaysBeforeMonth(y, r) <= doy < DaysBeforeMonth(y, r) + DaysInMonth(y, r)
    decreases 12 - m
  {
    if m == 12 then
      DaysBeforeDecember(y);
      12
    else if doy < DaysBeforeMonth(y, m + 1) then
      DaysBeforeMonthStep(y, m);
      m
    else
      MonthOf(y, doy, m + 1)
  }

  /** The civil date `n` days after 1970-01-01 (negative `n`: before it),
      as `date.fromordinal(n + 719163)` computes it. */
  function CivilFromDays(n: int): (d: Date)
  {
    var (y, doy) := YearAndDay(n + EpochOrdinal - 1);
    var m := MonthOf(y, doy, 1);
    Date(y, m, doy - DaysBeforeMonth(y, m) + 1)
  }

  /** Every day count names a valid date, and counting that date's days gives the count back. */
  lemma CivilFromDaysRoundTrip(n: int)
    ensures ValidDate(CivilFromDays(n))
    ensures DaysFromCivil(CivilFromDays(n)) == n
  {
  }

  /** A year count split into 400-, 100-, 4- and 1-year cycles. */
  lemma CycleDigits(p: int) returns (a: int, b: int, c: int, e: int)
    ensures p == 400 * a + 100 * b + 4 * c + e
    ensures 0 <= b <= 3 && 0 <= c <= 24 && 0 <= e <= 3
  {
    a := p / 400;
    var r := p % 400;
    b := r / 100;
    c := r % 100 / 4;
    e := r % 100 % 4;
  }

  /** Within a year, the zero-based day determines the cycle decomposition. */
  lemma YearAndDayOfYearStart(y: int, doy: int)
    requires 0 <= doy < DaysInYear(y)
    ensures YearAndDay(DaysBeforeYear(y) + doy) == (y, doy)
  {
    var a, b, c, e := CycleDigits(y - 1);
    DaysBeforeYearCycles(a, b, c, e);
    if doy == 365 {
      LeapYearLastCycle(y, a, b, c, e);
    }
    YearAndDayDigits(a, b, c, e, doy);
  }

  /** YearAndDay on a day given by its cycle digits and its zero-based day of the year. */
  lemma YearAndDayDigits(a: int, b: int, c: int, e: int, doy: int)
    requires 0 <= b <= 3 && 0 <= c <= 24 && 0 <= e <= 3 && 0 <= doy <= 365
    requires doy == 365 ==> e == 3 && (c == 24 ==> b == 3)
    ensures YearAndDay(146097 * a + 36524 * b + 1461 * c + 365 * e + doy) == (400 * a + 100 * b + 4 * c + e + 1, doy)
  {
    var n := 146097 * a + 36524 * b + 1461 * c + 365 * e + doy;
    var r400 := 36524 * b + 1461 * c + 365 * e + doy;
    DivModUnique(n, 146097, a, r400);
    if b == 3 && c == 24 && e == 3 && doy == 365 {
      DivModUnique(r400, 36524, 4, 0);
      YearAndDayCase(n, a, 4, 0, 0, 0);
    } else {
      var r100 := 1461 * c + 365 * e + doy;
      DivModUnique(r400, 36524, b, r100);
      DivModUnique(r100, 1461, c, 365 * e + doy);
      if doy == 365 {
        DivModUnique(365 * e + doy, 365, 4, 0);
        YearAndDayCase(n, a, b, c, 4, 0);
      } else {
        DivModUnique(365 * e + doy, 365, e, doy);
        YearAndDayCase(n, a, b, c, e, doy);
      }
    }
  }

  /** YearAndDay, given the quotients and the last remainder of its decomposition. */
  lemma YearAndDayCase(n: int, n400: int, n100: int, n4: int, n1: int, r1: int)
    requires n / 146097 == n400
    requires n % 146097 / 36524 == n100
    requires n % 146097 % 36524 / 1461 == n4
    requires n % 146097 % 36524 % 1461 / 365 == n1
    requires n % 146097 % 36524 % 1461 % 365 == r1
    ensures YearAndDay(n) == if n1 == 4 || n100 == 4
                             then (n400 * 400 + n100 * 100 + n4 * 4 + n1, 365)
                             else (n400 * 400 + n100 * 100 + n4 * 4 + n1 + 1, r1)
  {
  }

  /** Only a leap year has a zero-based day 365, and a leap year ends a 4-year cycle. */
  lemma LeapYearLastCycle(y: int, a: int, b: int, c: int, e: int)
    requires y - 1 == 400 * a + 100 * b + 4 * c + e
    requires 0 <= b <= 3 && 0 <= c <= 24 && 0 <= e <= 3
    requires IsLeap(y)
    ensures e == 3
    ensures c == 24 && e == 3 ==> b == 3
  {
    assert y == 4 * (100 * a + 25 * b + c) + (e + 1);
    if e < 3 {
      DivModUnique(y, 4, 100 * a + 25 * b + c, e + 1);
    }
    if c == 24 && b < 3 {
      assert y == 400 * a + 100 * (b + 1);
      DivModUnique(y, 100, 4 * a + b + 1, 0);
      DivModUnique(y, 400, a, 100 * (b + 1));
    }
  }

  /** The month search finds the month a valid date lies in. */
  lemma MonthOfDate(d: Date)
    requires ValidDate(d)
    ensures MonthOf(d.year, DaysBeforeMonth(d.year, d.month) + d.day - 1, 1) == d.month
  {
    var y, doy := d.year, DaysBeforeMonth(d.year, d.month) + d.day - 1;
    if d.month < 12 {
      DaysBeforeMonthStep(y, d.month);
      DaysBeforeMonthMonotone(y, d.month + 1, 12);
    }
    DaysBeforeDecember(y);
    var r := MonthOf(y, doy, 1);
    if r < d.month {
      DaysBeforeMonthMonotone(y, r, d.month);
    } else if r > d.month {
      DaysBeforeMonthMonotone(y, d.month, r);
    }
  }

  /** Counting a valid date's days and converting back gives the date: with
      CivilFromDaysRoundTrip, DaysFromCivil is a bijection from valid dates onto the integers. */
  lemma DaysFromCivilRoundTrip(d: Date)
    requires ValidDate(d)
    ensures CivilFromDays(DaysFromCivil(d)) == d
  {
    var y := d.year;
    var doy := DaysBeforeMonth(y, d.month) + d.day - 1;
    var n := DaysFromCivil(d);
    assert YearAndDay(n + EpochOrdinal - 1) == (y, doy) by {
      DayOfYearInYear(d);
      YearAndDayOfYearStart(y, doy);
      assert n + EpochOrdinal - 1 == DaysBeforeYear(y) + doy;
    }
    MonthOfDate(d);
    CivilFromDaysOfDate(n, d);
  }

  /** A day count whose year and zero-based day are those of a valid date, read back as a date. */
  lemma CivilFromDaysOfDate(n: int, d: Date)
    requires ValidDate(d)
    requires YearAndDay(n + EpochOrdinal - 1) == (d.year, DaysBeforeMonth(d.year, d.month) + d.day - 1)
    requires MonthOf(d.year, DaysBeforeMonth(d.year, d.month) + d.day - 1, 1) == d.month
    ensures CivilFromDays(n) == d
  {
    CivilFromDaysParts(n, d.year, DaysBeforeMonth(d.year, d.month) + d.day - 1);
  }

  /** CivilFromDays read from the year and zero-based day that YearAndDay finds. */
  lemma CivilFromDaysParts(n: int, y: int, doy: int)
    requires YearAndDay(n + EpochOrdinal - 1) == (y, doy)
    ensures 0 <= doy < DaysInYear(y)
    ensures CivilFromDays(n) == Date(y, MonthOf(y, doy, 1), doy - DaysBeforeMonth(y, MonthOf(y, doy, 1)) + 1)
  {
  }

  /** A valid date's zero-based day of the year lies inside its year. */
  lemma DayOfYearInYear(d: Date)
    requires ValidDate(d)
    ensures 0 <= DaysBeforeMonth(d.year, d.month) + d.day - 1 < DaysInYear(d.year)
  {
    if d.month < 12 {
      DaysBeforeMonthStep(d.year, d.month);
      DaysBeforeMonthMonotone(d.year, d.month + 1, 12);
    }
    DaysBeforeDecember(d.year);
  }

  /** The day after a valid date, by the calendar's rules rather than by counting. */
  function NextDay(d: Date): (r: Date)
    requires ValidDate(d)
    ensures ValidDate(r)
  {
    if d.day < DaysInMonth(d.year, d.month) then Date(d.year, d.month, d.day + 1)
    else if d.month < 12 then Date(d.year, d.month + 1, 1)
    else Date(d.year + 1, 1, 1)
  }

  /** A year contributes its own length to the days before the next one. */
  lemma DaysBeforeYearStep(y: int)
    ensures DaysBeforeYear(y + 1) == DaysBeforeYear(y) + DaysInYear(y)
  {
    var p := y - 1;
    FloorStep(p, 4);
    FloorStep(p, 100);
    FloorStep(p, 400);
    LeapByMultiples(y);
    assert p + 1 == y;
  }

  /** A leap year adds one day for each of 4 and 400 that divides it and removes one for 100. */
  lemma LeapByMultiples(y: int)
    ensures DaysInYear(y) == 365 + (if y % 4 == 0 then 1 else 0) - (if y % 100 == 0 then 1 else 0)
                                 + (if y % 400 == 0 then 1 else 0)
  {
    if y % 100 == 0 {
      DivModUnique(y, 4, 25 * (y / 100), 0);
    }
    if y % 400 == 0 {
      DivModUnique(y, 100, 4 * (y / 400), 0);
    }
  }

  /** Stepping the dividend by one raises the floor quotient exactly at multiples of `d`. */
  lemma FloorStep(p: int, d: int)
    requires d > 0
    ensures (p + 1) / d == if (p + 1) % d == 0 then p / d + 1 else p / d
  {
    var q, r := (p + 1) / d, (p + 1) % d;
    if r == 0 {
      DivModUnique(p, d, q - 1, d - 1);
    } else {
      DivModUnique(p, d, q, r - 1);
    }
  }

  /** Consecutive calendar days are consecutive day counts. */
  lemma DaysFromCivilNextDay(d: Date)
    requires ValidDate(d)
    ensures DaysFromCivil(NextDay(d)) == DaysFromCivil(d) + 1
  {
    if d.day == DaysInMonth(d.year, d.month) {
      if d.month < 12 {
        DaysBeforeMonthStep(d.year, d.month);
      } else {
        DaysBeforeDecember(d.year);
        DaysBeforeYearStep(d.year);
      }
    }
  }

  /** 1970-01-01 is day zero; 0001-01-01 and 9999-12-31 bound the years `datetime` accepts. */
  lemma CalendarAnchors()
    ensures DaysFromCivil(Date(1970, 1, 1)) == 0
    ensures DaysFromCivil(Date(1, 1, 1)) == -719162
    ensures DaysFromCivil(Date(9999, 12, 31)) == 2932896
  {
  }
}
