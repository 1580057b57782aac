/**
  The proleptic Gregorian calendar as used by java.time: conversion between a
  day index (whole days since 1970-01-01) and a civil (year, month, day).

  Day indexes are decomposed into 400-year eras that start on 1 March, so that
  the leap day is the last day of a "March year" and every step of the
  decomposition is a division by a constant. CivilFromDays and YearOfEra
  divide by named constants, which keeps those divisions out of the arithmetic
  of callers; products are written with the literals.
 */
module Calendar {

  datatype Date = Date(year: int, month: int, day: int)

  /** Gregorian leap-year rule. */
  predicate IsLeapYear(y: int) {
    y % 4 == 0 && (y % 100 != 0 || y % 400 == 0)
  }

  function DaysInMonth(y: int, m: int): int
    requires 1 <= m <= 12
  {
    if m == 2 then (if IsLeapYear(y) then 29 else 28)
    else if m == 4 || m == 6 || m == 9 || m == 11 then 30
    else 31
  }

  /** A date that exists in the calendar. */
  predicate Valid(d: Date) {
    1 <= d.month <= 12 && 1 <= d.day <= DaysInMonth(d.year, d.month)
  }

  /** The calendar day after `d`, by the month and year rollover rules. */
  function NextDay(d: Date): (n: Date)
    requires Valid(d)
    ensures Valid(n)
  {
    if d.day < DaysInMonth(d.year, d.month) then Date(d.year, d.month, d.day + 1)
    else if d.month < 12 then Date(d.year, d.month + 1, 1)
    else Date(d.year + 1, 1, 1)
  }

  /** Lexicographic order on (year, month, day). */
  predicate Before(a: Date, b: Date) {
    a.year < b.year
    || (a.year == b.year && a.month < b.month)
    || (a.year == b.year && a.month == b.month && a.day < b.day)
  }

  /** Days in a 400-year era, in its first three centuries, in a four-year cycle with a leap day, and in a common year. */
  const DaysPerEra: int := 146097
  const DaysPerCentury: int := 36524
  const DaysPerFourYears: int := 1461
  const DaysPerYear: int := 365

  /** Days from 0000-03-01 to 1970-01-01. */
  const EpochShift: int := 719468

  /** Days before March year `yoe` of an era (March year `yoe` ends in February of year `yoe + 1`). */
  function DaysBeforeEraYear(yoe: int): int
    requires 0 <= yoe <= 400
  {
    365 * yoe + yoe / 4 - yoe / 100 + yoe / 400
  }

  /** Days before March-based month `mp` (0 = March, ..., 11 = February). */
  function DaysBeforeMarchMonth(mp: int): int
    requires 0 <= mp <= 11
  {
    [0, 31, 61, 92, 122, 153, 184, 214, 245, 275, 306, 337][mp]
  }

  /** Civil month number of March-based month `mp`. */
  function CivilMonth(mp: int): int
    requires 0 <= mp <= 11
  {
    if mp < 10 then mp + 3 else mp - 9
  }

  /** March-based month number of civil month `m`. */
  function MarchMonth(m: int): int
    requires 1 <= m <= 12
  {
    if m > 2 then m - 3 else m + 9
  }

  lemma {:induction false} MulAtLeast(m: int, d: int)
    requires 0 < m && 1 <= d
    ensures m * d >= m
    decreases d
  {
    if d > 1 {
      MulAtLeast(m, d - 1);
      assert m * d == m * (d - 1) + m;
    }
  }

  /** Euclidean division is determined by a quotient and a remainder in range. */
  lemma DivModUnique(x: int, m: int, q: int, r: int)
    requires 0 < m && 0 <= r < m && x == m * q + r
    ensures x / m == q && x % m == r
  {
    var q' := x / m;
    var r' := x % m;
    if q' > q {
      assert m * q' == m * q + m * (q' - q);
      MulAtLeast(m, q' - q);
    } else if q' < q {
      assert m * q == m * q' + m * (q - q');
      MulAtLeast(m, q - q');
    }
  }

  /** The quotient by `k` steps up exactly when the next number is a multiple of `k`. */
  lemma DivStep(x: int, k: int)
    requires 0 <= x && 0 < k
    ensures (x + 1) / k == x / k + (if (x + 1) % k == 0 then 1 else 0)
  {
    var q := x / k;
    var r := x % k;
    if r == k - 1 {
      DivModUnique(x + 1, k, q + 1, 0);
    } else {
      DivModUnique(x + 1, k, q, r + 1);
    }
  }

  lemma EraYearLength(yoe: int)
    requires 0 <= yoe < 400
    ensures DaysBeforeEraYear(yoe + 1) - DaysBeforeEraYear(yoe) == (if IsLeapYear(yoe + 1) then 366 else 365)
  {
    var y := yoe + 1;
    DivStep(yoe, 4);
    DivStep(yoe, 100);
    DivStep(yoe, 400);
    if y % 100 == 0 {
      DivModUnique(y, 4, 25 * (y / 100), 0);
    }
    if y % 400 == 0 {
      DivModUnique(y, 100, 4 * (y / 400), 0);
    }
  }

  lemma {:induction false} EraYearMonotone(a: int, b: int)
    requires 0 <= a <= b <= 400
    ensures DaysBeforeEraYear(a) <= DaysBeforeEraYear(b)
    decreases b - a
  {
    if a < b {
      EraYearLength(a);
      EraYearMonotone(a + 1, b);
    }
  }

  lemma LeapYearPeriodic(y: int, era: int)
    ensures IsLeapYear(era * 400 + y) == IsLeapYear(y)
  {
    var x := era * 400 + y;
    DivModUnique(x, 4, era * 100 + y / 4, y % 4);
    DivModUnique(x, 100, era * 4 + y / 100, y % 100);
    DivModUnique(x, 400, era + y / 400, y % 400);
  }

  /**
    The days before March year c * 100 + q * 4 + r of an era, and the length of
    that year: it is a leap year when it is the last of a four-year cycle, unless
    that cycle ends a century other than the era's last.
   */
  lemma EraYearParts(c: int, q: int, r: int)
    requires 0 <= c <= 3 && 0 <= q <= 24 && 0 <= r <= 3
    ensures var y := 100 * c + 4 * q + r;
      && DaysBeforeEraYear(y) == 36524 * c + 1461 * q + 365 * r
      && DaysBeforeEraYear(y + 1) - DaysBeforeEraYear(y) == 365 + (if r == 3 && (q < 24 || c == 3) then 1 else 0)
  {
    var y := 100 * c + 4 * q + r;
    DivModUnique(y, 4, 25 * c + q, r);
    DivModUnique(y, 100, c, 4 * q + r);
    DivModUnique(y, 400, 0, y);
    if r < 3 {
      DivModUnique(y + 1, 4, 25 * c + q, r + 1);
      DivModUnique(y + 1, 100, c, 4 * q + r + 1);
      DivModUnique(y + 1, 400, 0, y + 1);
    } else if q < 24 {
      DivModUnique(y + 1, 4, 25 * c + q + 1, 0);
      DivModUnique(y + 1, 100, c, 4 * q + 4);
      DivModUnique(y + 1, 400, 0, y + 1);
    } else if c < 3 {
      DivModUnique(y + 1, 4, 25 * c + 25, 0);
      DivModUnique(y + 1, 100, c + 1, 0);
      DivModUnique(y + 1, 400, 0, y + 1);
    } else {
      assert y + 1 == 400;
    }
  }

  /** The March year of an era that contains day `doe` of the era. */
  function YearOfEra(doe: int): (yoe: int)
    requires 0 <= doe < 146097
    ensures 0 <= yoe < 400
    ensures DaysBeforeEraYear(yoe) <= doe < DaysBeforeEraYear(yoe + 1)
  {
    var c := if doe / DaysPerCentury < 3 then doe / DaysPerCentury else 3;
    var doc := doe - 36524 * c;
    var q := doc / DaysPerFourYears;
    var dq := doc - 1461 * q;
    var r := if dq / DaysPerYear < 3 then dq / DaysPerYear else 3;
    assert 0 <= q <= 24;
    assert c < 3 && q == 24 ==> dq < 1460;
    EraYearParts(c, q, r);
    100 * c + 4 * q + r
  }

  /** The March-based month containing day `doy` of a March year. */
  function MonthOfYear(doy: int): (mp: int)
    requires 0 <= doy
    ensures 0 <= mp <= 11
    ensures DaysBeforeMarchMonth(mp) <= doy
    ensures mp < 11 ==> doy < DaysBeforeMarchMonth(mp + 1)
  {
    if doy < 31 then 0
    else if doy < 61 then 1
    else if doy < 92 then 2
    else if doy < 122 then 3
    else if doy < 153 then 4
    else if doy < 184 then 5
    else if doy < 214 then 6
    else if doy < 245 then 7
    else if doy < 275 then 8
    else if doy < 306 then 9
    else if doy < 337 then 10
    else 11
  }

  /** The civil date of day index `n` (days since 1970-01-01). */
  function CivilFromDays(n: int): (d: Date)
    ensures Valid(d)
  {
    var z := n + EpochShift;
    var era := z / DaysPerEra;
    var doe := z % DaysPerEra;
    var yoe := YearOfEra(doe);
    var doy := doe - DaysBeforeEraYear(yoe);
    var mp := MonthOfYear(doy);
    var d := Date(era * 400 + yoe + (if mp >= 10 then 1 else 0), CivilMonth(mp), doy - DaysBeforeMarchMonth(mp) + 1);
    assert Valid(d) by {
      EraYearLength(yoe);
      LeapYearPeriodic(yoe + 1, era);
    }
    d
  }

  /** The day index of a civil date: the inverse of CivilFromDays on valid dates. */
  function DaysFromCivil(d: Date): int
    requires 1 <= d.month <= 12
  {
    var yy := if d.month <= 2 then d.year - 1 else d.year;
    var era := yy / 400;
    var yoe := yy % 400;
    era * 146097 + DaysBeforeEraYear(yoe) + DaysBeforeMarchMonth(MarchMonth(d.month)) + d.day - 1 - EpochShift
  }

  /** Day 0 is 1970-01-01. */
  lemma UnixEpochIsDayZero()
    ensures CivilFromDays(0) == Date(1970, 1, 1)
    ensures DaysFromCivil(Date(1970, 1, 1)) == 0
  {
    EraYearLength(369);
    CivilFromDaysParts(4, 369, 306);
    assert 4 * 146097 + DaysBeforeEraYear(369) + 306 - EpochShift == 0;
    DivModUnique(1969, 400, 4, 369);
  }

  /** Civil and March-based month numbers convert back and forth. */
  lemma MarchMonthOfCivil(mp: int)
    requires 0 <= mp <= 11
    ensures MarchMonth(CivilMonth(mp)) == mp
    ensures CivilMonth(mp) <= 2 <==> mp >= 10
  {
  }

  /** DaysFromCivil undoes CivilFromDays. */
  lemma DaysFromCivilInverse(n: int)
    ensures DaysFromCivil(CivilFromDays(n)) == n
  {
    var z := n + EpochShift;
    var era := z / 146097;
    var doe := z % 146097;
    var yoe := YearOfEra(doe);
    var doy := doe - DaysBeforeEraYear(yoe);
    var mp := MonthOfYear(doy);
    var d := CivilFromDays(n);
    assert d == Date(era * 400 + yoe + (if mp >= 10 then 1 else 0), CivilMonth(mp), doy - DaysBeforeMarchMonth(mp) + 1);
    MarchMonthOfCivil(mp);
    var yy := if d.month <= 2 then d.year - 1 else d.year;
    assert yy == era * 400 + yoe;
    DivModUnique(yy, 400, era, yoe);
    assert z == era * 146097 + doe;
  }

  /** The year of an era is determined by the day of the era it contains. */
  lemma YearOfEraUnique(yoe: int, doe: int)
    requires 0 <= yoe < 400
    requires DaysBeforeEraYear(yoe) <= doe < DaysBeforeEraYear(yoe + 1)
    ensures 0 <= doe < 146097
    ensures YearOfEra(doe) == yoe
  {
    EraYearMonotone(yoe + 1, 400);
    var y' := YearOfEra(doe);
    if y' < yoe {
      EraYearMonotone(y' + 1, yoe);
    } else if y' > yoe {
      EraYearMonotone(yoe + 1, y');
    }
  }

  lemma EraSplit(era: int, doe: int)
    requires 0 <= doe < 146097
    ensures (era * 146097 + doe) / 146097 == era
    ensures (era * 146097 + doe) % 146097 == doe
  {
    DivModUnique(era * 146097 + doe, 146097, era, doe);
  }

  /** CivilFromDays read off an explicit (era, March year, day of year) decomposition. */
  lemma CivilFromDaysParts(era: int, yoe: int, doy: int)
    requires 0 <= yoe < 400
    requires 0 <= doy < DaysBeforeEraYear(yoe + 1) - DaysBeforeEraYear(yoe)
    ensures var mp := MonthOfYear(doy);
      CivilFromDays(era * 146097 + DaysBeforeEraYear(yoe) + doy - EpochShift)
      == Date(era * 400 + yoe + (if mp >= 10 then 1 else 0), CivilMonth(mp), doy - DaysBeforeMarchMonth(mp) + 1)
  {
    var doe := DaysBeforeEraYear(yoe) + doy;
    YearOfEraUnique(yoe, doe);
    EraSplit(era, doe);
  }

  /** A valid date's day within its March year, and the March-based month that day falls in. */
  lemma MarchDayOfYear(d: Date)
    requires Valid(d)
    ensures var mp := MarchMonth(d.month); var doy := DaysBeforeMarchMonth(mp) + d.day - 1;
      && 0 <= doy < (if mp == 11 && IsLeapYear(d.year) then 366 else 365)
      && MonthOfYear(doy) == mp
      && CivilMonth(mp) == d.month
      && (mp >= 10 <==> d.month <= 2)
  {
  }

  /** The March year a valid date falls in is long enough to hold its day. */
  lemma MarchYearHoldsDay(d: Date)
    requires Valid(d)
    ensures var yy := if d.month <= 2 then d.year - 1 else d.year;
      var yoe := yy % 400;
      DaysBeforeMarchMonth(MarchMonth(d.month)) + d.day - 1 < DaysBeforeEraYear(yoe + 1) - DaysBeforeEraYear(yoe)
  {
    var yy := if d.month <= 2 then d.year - 1 else d.year;
    var era := yy / 400;
    var yoe := yy % 400;
    MarchDayOfYear(d);
    EraYearLength(yoe);
    LeapYearPeriodic(yoe + 1, era);
    assert era * 400 + yoe + 1 == yy + 1;
  }

  /** CivilFromDays undoes DaysFromCivil on every valid date. */
  lemma CivilFromDaysInverse(d: Date)
    requires Valid(d)
    ensures CivilFromDays(DaysFromCivil(d)) == d
  {
    var yy := if d.month <= 2 then d.year - 1 else d.year;
    var era := yy / 400;
    var yoe := yy % 400;
    var mp := MarchMonth(d.month);
    var doy := DaysBeforeMarchMonth(mp) + d.day - 1;
    MarchDayOfYear(d);
    MarchYearHoldsDay(d);
    assert DaysFromCivil(d) == era * 146097 + DaysBeforeEraYear(yoe) + doy - EpochShift;
    CivilFromDaysParts(era, yoe, doy);
    assert era * 400 + yoe == yy;
  }

  /** Outside February, the March-based month after `m`'s starts `m`'s length later. */
  lemma MarchMonthStep(y: int, m: int)
    requires 1 <= m <= 12 && m != 2
    ensures var mp := MarchMonth(m);
      && mp < 11
      && MarchMonth(if m == 12 then 1 else m + 1) == mp + 1
      && DaysBeforeMarchMonth(mp + 1) == DaysBeforeMarchMonth(mp) + DaysInMonth(y, m)
  {
  }

  /** The last day of a month other than February is followed by day 1 of the next month. */
  lemma DaysFromCivilMonthEnd(d: Date)
    requires Valid(d) && d.month != 2 && d.day == DaysInMonth(d.year, d.month)
    ensures var e := if d.month == 12 then Date(d.year + 1, 1, 1) else Date(d.year, d.month + 1, 1);
      DaysFromCivil(e) == DaysFromCivil(d) + 1
  {
    MarchMonthStep(d.year, d.month);
  }

  /** The last day of February is followed by 1 March, the first day of the next March year. */
  lemma DaysFromCivilFebruaryEnd(d: Date)
    requires Valid(d) && d.month == 2 && d.day == DaysInMonth(d.year, 2)
    ensures DaysFromCivil(Date(d.year, 3, 1)) == DaysFromCivil(d) + 1
  {
    var yy := d.year - 1;
    var era := yy / 400;
    var yoe := yy % 400;
    EraYearLength(yoe);
    LeapYearPeriodic(yoe + 1, era);
    assert era * 400 + yoe + 1 == d.year;
    if yoe < 399 {
      DivModUnique(d.year, 400, era, yoe + 1);
    } else {
      DivModUnique(d.year, 400, era + 1, 0);
      assert (era + 1) * 146097 == era * 146097 + 146097;
    }
  }

  /** Stepping a valid date by one calendar day steps its day index by one. */
  lemma DaysFromCivilNextDay(d: Date)
    requires Valid(d)
    ensures DaysFromCivil(NextDay(d)) == DaysFromCivil(d) + 1
  {
    if d.day < DaysInMonth(d.year, d.month) {
      assert NextDay(d) == d.(day := d.day + 1);
    } else if d.month != 2 {
      DaysFromCivilMonthEnd(d);
    } else {
      assert NextDay(d) == Date(d.year, 3, 1);
      DaysFromCivilFebruaryEnd(d);
    }
  }

  /** Consecutive day indexes are consecutive calendar days. */
  lemma CivilFromDaysSucc(n: int)
    ensures CivilFromDays(n + 1) == NextDay(CivilFromDays(n))
  {
    var d := CivilFromDays(n);
    DaysFromCivilInverse(n);
    DaysFromCivilNextDay(d);
    CivilFromDaysInverse(NextDay(d));
  }

  /** The date `k` days after `d`, stepping one NextDay at a time. */
  function DaysAfter(d: Date, k: nat): (e: Date)
    requires Valid(d)
    ensures Valid(e)
  {
    if k == 0 then d else NextDay(DaysAfter(d, k - 1))
  }

  /** Stepping `k` days from the next day is stepping `k + 1` days from `d`. */
  lemma {:induction false} DaysAfterShift(d: Date, k: nat)
    requires Valid(d)
    ensures DaysAfter(NextDay(d), k) == DaysAfter(d, k + 1)
  {
    if k > 0 {
      DaysAfterShift(d, k - 1);
    }
  }

  /** Stepping `k` calendar days adds `k` to the day index. */
  lemma {:induction false} DaysFromCivilAfter(d: Date, k: nat)
    requires Valid(d)
    ensures DaysFromCivil(DaysAfter(d, k)) == DaysFromCivil(d) + k
  {
    if k > 0 {
      DaysFromCivilAfter(d, k - 1);
      DaysFromCivilNextDay(DaysAfter(d, k - 1));
    }
  }

  /** Stepping `k` calendar days from a day index is adding `k` to it. */
  lemma CivilFromDaysAfter(n: int, k: nat)
    ensures CivilFromDays(n + k) == DaysAfter(CivilFromDays(n), k)
  {
    var d := CivilFromDays(n);
    var e := DaysAfter(d, k);
    assert DaysFromCivil(e) == n + k by {
      DaysFromCivilInverse(n);
      DaysFromCivilAfter(d, k);
    }
    CivilFromDaysInverse(e);
  }

  /** The next day comes strictly later. */
  lemma NextDayIsLater(d: Date)
    requires Valid(d)
    ensures Before(d, NextDay(d))
  {
  }
}
