/**
  DateUtil: ISO local dates (YYYY-MM-DD, the calendar date in the extended
  format of ISO 8601:2004 section 4.1.2.2) of instants taken in UTC.

  An instant is its whole number of seconds since 1970-01-01T00:00Z. The
  nanosecond part of java.time.Instant does not change the UTC day of one
  instant, but ChronoUnit.DAYS.between counts a span whose end has fewer
  nanoseconds than its start one second shorter (a negative span, in the mirror
  case, one second longer), so with non-zero nanoseconds the day count can be one
  closer to zero than the whole-second count used here. A day
  is 86400 seconds, written out wherever it is used so that the solver sees a
  multiplication by a literal.
 */
module DateUtil {
  import opened Wrappers
  import opened JavaLang
  import opened Calendar
  import opened Failures

  /** The UTC day of an instant: `Math.floorDiv(epochSecond, 86400)`, as in LocalDateTime.ofInstant. */
  function EpochDay(epochSecond: int): (day: int)
    ensures day * 86400 <= epochSecond < day * 86400 + 86400
  {
    FloorDiv(epochSecond, 86400)
  }

  /**
    The year field of DateTimeFormatter.ISO_LOCAL_DATE: the magnitude in at
    least four digits, after a '-' for negative years and a '+' for years of
    more than four digits.
   */
  function YearText(y: int): string {
    YearSign(y) + ZeroPad(NatToDecimal(if y < 0 then -y else y), 4)
  }

  function YearSign(y: int): string {
    if y > 9999 then "+" else if y < 0 then "-" else ""
  }

  /** A field of fixed width two (month, day of month). */
  function TwoDigits(n: nat): string
    requires n < 100
  {
    [DigitChar(n / 10), DigitChar(n % 10)]
  }

  /** `date.format(DateTimeFormatter.ISO_LOCAL_DATE)`. */
  function FormatDate(d: Date): string
    requires Valid(d)
  {
    YearText(d.year) + "-" + TwoDigits(d.month) + "-" + TwoDigits(d.day)
  }

  /** DateUtil.isoDate: the ISO local date of the instant's UTC day. */
  function IsoDate(epochSecond: int): string {
    FormatDate(CivilFromDays(EpochDay(epochSecond)))
  }

  /** `Stream.iterate(start, d -> d.plusDays(1)).limit(n)`: `n` successive calendar days from `start`. */
  function DaysFrom(start: Date, n: nat): (days: seq<Date>)
    requires Valid(start)
    ensures |days| == n
    ensures forall k :: 0 <= k < n ==> Valid(days[k])
    ensures n > 0 ==> days[0] == start
    decreases n
  {
    if n == 0 then [] else [start] + DaysFrom(NextDay(start), n - 1)
  }

  /**
    DateUtil.isoDatesBetween: starting at the UTC day of `from`, one date per day,
    `ChronoUnit.DAYS.between(from, to) + 1` of them, where the day count is the
    whole-second difference divided by 86400 rounding toward zero.
    `Stream.limit` rejects a negative size with IllegalArgumentException.
   */
  function IsoDatesBetween(from: int, to: int): (r: Result<seq<string>, Error>)
    ensures r.Success? <==> TruncDiv(to - from, 86400) >= -1
    ensures r.Failure? ==> r.error == IllegalArgument
    ensures r.Success? ==> |r.value| == TruncDiv(to - from, 86400) + 1
  {
    var limit := TruncDiv(to - from, 86400) + 1;
    if limit < 0 then Failure(IllegalArgument)
    else Success(MapAll(FormatDate, DaysFrom(CivilFromDays(EpochDay(from)), limit)))
  }

  // ---------------------------------------------------------------------------
  // Properties of the rendering

  lemma ZeroPadDigits(n: nat, width: nat)
    ensures |ZeroPad(NatToDecimal(n), width)| == if |NatToDecimal(n)| < width then width else |NatToDecimal(n)|
    ensures AllDigits(ZeroPad(NatToDecimal(n), width))
    ensures DecimalValue(ZeroPad(NatToDecimal(n), width)) == n
  {
    var s := NatToDecimal(n);
    NatToDecimalDigits(n);
    ZeroPadShape(s, width);
    var p := ZeroPad(s, width);
    var z := p[..|p| - |s|];
    assert p == z + s;
    DecimalValueLeadingZeros(z, s);
  }

  lemma YearTextDigits(y: int)
    requires 0 <= y <= 9999
    ensures var t := YearText(y); |t| == 4 && AllDigits(t) && DecimalValue(t) == y
  {
    assert Pow10(4) == 10000;
    NatToDecimalLength(y, 4);
    ZeroPadDigits(y, 4);
    assert YearText(y) == ZeroPad(NatToDecimal(y), 4);
  }

  lemma TwoDigitsDigits(n: nat)
    requires n < 100
    ensures var t := TwoDigits(n); |t| == 2 && AllDigits(t) && DecimalValue(t) == n
  {
    var t := TwoDigits(n);
    assert t[..1][..0] == [];
    assert DecimalValue(t[..1]) == n / 10;
  }

  /**
    For years 0000 to 9999 the rendering is ten characters: four year digits,
    '-', two month digits, '-', two day digits, each field reading back as the
    date's own number.
   */
  lemma FormatDateFields(d: Date)
    requires Valid(d) && 0 <= d.year <= 9999
    ensures var s := FormatDate(d);
      && |s| == 10 && s[4] == '-' && s[7] == '-'
      && AllDigits(s[..4]) && AllDigits(s[5..7]) && AllDigits(s[8..])
      && DecimalValue(s[..4]) == d.year
      && DecimalValue(s[5..7]) == d.month
      && DecimalValue(s[8..]) == d.day
  {
    var y := YearText(d.year);
    var m := TwoDigits(d.month);
    var dd := TwoDigits(d.day);
    YearTextDigits(d.year);
    TwoDigitsDigits(d.month);
    TwoDigitsDigits(d.day);
    var s := FormatDate(d);
    assert s == y + "-" + m + "-" + dd;
    assert s[..4] == y && s[5..7] == m && s[8..] == dd;
  }

  /** Distinct dates of years 0000 to 9999 render differently. */
  lemma FormatDateInjective(a: Date, b: Date)
    requires Valid(a) && 0 <= a.year <= 9999
    requires Valid(b) && 0 <= b.year <= 9999
    requires FormatDate(a) == FormatDate(b)
    ensures a == b
  {
    FormatDateFields(a);
    FormatDateFields(b);
  }

  /** 2017-06-06T00:00:00Z renders as "2017-06-06". */
  lemma IsoDateExample()
    ensures IsoDate(1496707200) == "2017-06-06"
  {
    assert EpochDay(1496707200) == 17323;
    assert DaysFromCivil(Date(2017, 6, 6)) == 17323;
    CivilFromDaysInverse(Date(2017, 6, 6));
    Render20170606();
  }

  lemma Render20170606()
    ensures FormatDate(Date(2017, 6, 6)) == "2017-06-06"
  {
    assert NatToDecimal(2) == "2";
    assert NatToDecimal(20) == "20";
    assert NatToDecimal(201) == "201";
    assert NatToDecimal(2017) == "2017";
    assert NatToDecimal(6) == "6";
  }

  // ---------------------------------------------------------------------------
  // Properties of isoDatesBetween

  /** The `k`-th day of the iteration is `k` NextDay steps from the start. */
  lemma {:induction false} DaysFromAfter(start: Date, n: nat, k: nat)
    requires Valid(start) && k < n
    ensures DaysFrom(start, n)[k] == DaysAfter(start, k)
    decreases n
  {
    if k > 0 {
      DaysFromAfter(NextDay(start), n - 1, k - 1);
      DaysAfterShift(start, k - 1);
    }
  }

  /** Each day of the iteration is the calendar day after the one before it. */
  lemma {:induction false} DaysFromStep(start: Date, n: nat, k: nat)
    requires Valid(start) && k + 1 < n
    ensures DaysFrom(start, n)[k + 1] == NextDay(DaysFrom(start, n)[k])
    decreases k
  {
    if k > 0 {
      DaysFromStep(NextDay(start), n - 1, k - 1);
    }
  }

  /** Iterating from the date of day index `s`, the `k`-th date is that of day index `s + k`. */
  lemma DaysFromOffset(s: int, n: nat, k: nat)
    requires k < n
    ensures DaysFrom(CivilFromDays(s), n)[k] == CivilFromDays(s + k)
  {
    CivilFromDaysAfter(s, k);
    DaysFromAfter(CivilFromDays(s), n, k);
  }

  /** ... and the `k`-th rendering is that of day index `s + k`. */
  lemma RenderedOffset(s: int, n: nat, k: nat)
    requires k < n
    ensures MapAll(FormatDate, DaysFrom(CivilFromDays(s), n))[k] == FormatDate(CivilFromDays(s + k))
  {
    DaysFromOffset(s, n, k);
    MapAllAt(FormatDate, DaysFrom(CivilFromDays(s), n), k);
  }

  /** Two neighbouring dates are the date of day index `s + k` and the calendar day after it. */
  lemma DaysFromConsecutive(s: int, n: nat, k: nat)
    requires k + 1 < n
    ensures DaysFrom(CivilFromDays(s), n)[k] == CivilFromDays(s + k)
    ensures DaysFrom(CivilFromDays(s), n)[k + 1] == NextDay(CivilFromDays(s + k))
  {
    DaysFromOffset(s, n, k);
    DaysFromStep(CivilFromDays(s), n, k);
  }

  /** ... and so are the dates two neighbouring renderings render. */
  lemma RenderedConsecutive(s: int, n: nat, k: nat)
    requires k + 1 < n
    ensures var texts := MapAll(FormatDate, DaysFrom(CivilFromDays(s), n));
      && texts[k] == FormatDate(CivilFromDays(s + k))
      && texts[k + 1] == FormatDate(NextDay(CivilFromDays(s + k)))
  {
    DaysFromConsecutive(s, n, k);
    MapAllAt(FormatDate, DaysFrom(CivilFromDays(s), n), k);
    MapAllAt(FormatDate, DaysFrom(CivilFromDays(s), n), k + 1);
  }

  /**
    The `k`-th date, for every `k` up to the day count (exactly the indices of
    the list), is the rendering of the UTC day `k` days after that of `from`.
   */
  lemma DateAtOffset(from: int, to: int, k: nat)
    requires k <= TruncDiv(to - from, 86400)
    ensures IsoDatesBetween(from, to).Success? && k < |IsoDatesBetween(from, to).value|
    ensures IsoDatesBetween(from, to).value[k] == FormatDate(CivilFromDays(EpochDay(from) + k))
  {
    RenderedOffset(EpochDay(from), TruncDiv(to - from, 86400) + 1, k);
  }

  /** The first date is isoDate(from). */
  lemma FirstDateIsIsoDate(from: int, to: int)
    requires TruncDiv(to - from, 86400) >= 0
    ensures IsoDatesBetween(from, to).Success? && |IsoDatesBetween(from, to).value| > 0
    ensures IsoDatesBetween(from, to).value[0] == IsoDate(from)
  {
  }

  /** Each date is the rendering of the calendar day after the one before it, which is strictly later. */
  lemma DatesAreConsecutive(from: int, to: int, k: nat)
    requires k + 1 <= TruncDiv(to - from, 86400)
    ensures IsoDatesBetween(from, to).Success? && k + 1 < |IsoDatesBetween(from, to).value|
    ensures var d := CivilFromDays(EpochDay(from) + k);
      && Before(d, NextDay(d))
      && IsoDatesBetween(from, to).value[k] == FormatDate(d)
      && IsoDatesBetween(from, to).value[k + 1] == FormatDate(NextDay(d))
  {
    RenderedConsecutive(EpochDay(from), TruncDiv(to - from, 86400) + 1, k);
    NextDayIsLater(CivilFromDays(EpochDay(from) + k));
  }

  /** The same instant twice gives exactly its own date. */
  lemma SameInstant(i: int)
    ensures IsoDatesBetween(i, i) == Success([IsoDate(i)])
  {
    assert TruncDiv(i - i, 86400) == 0;
    SingleDay(CivilFromDays(EpochDay(i)));
  }

  lemma SingleDay(c: Date)
    requires Valid(c)
    ensures MapAll(FormatDate, DaysFrom(c, 1)) == [FormatDate(c)]
  {
  }

  /** Between midnights the day count is the difference of the UTC days. */
  lemma MidnightSpan(from: int, to: int)
    requires from <= to && from % 86400 == 0 && to % 86400 == 0
    ensures TruncDiv(to - from, 86400) == EpochDay(to) - EpochDay(from) >= 0
  {
    var a := EpochDay(from);
    var b := EpochDay(to);
    assert from == a * 86400;
    assert to == b * 86400;
    assert to - from == (b - a) * 86400;
    WholeDays(b - a);
  }

  /** Between midnights `from <= to`, the last date is isoDate(to). */
  lemma LastDateAtMidnight(from: int, to: int)
    requires from <= to && from % 86400 == 0 && to % 86400 == 0
    ensures IsoDatesBetween(from, to).Success?
    ensures var dates := IsoDatesBetween(from, to).value;
      |dates| > 0 && dates[|dates| - 1] == IsoDate(to)
  {
    MidnightSpan(from, to);
    DateAtOffset(from, to, EpochDay(to) - EpochDay(from));
    assert EpochDay(from) + (EpochDay(to) - EpochDay(from)) == EpochDay(to);
  }

  lemma WholeDays(n: nat)
    ensures TruncDiv(n * 86400, 86400) == n
  {
  }

  /** A day count of -1 gives no dates; below that Stream.limit throws. */
  lemma NegativeSpans(from: int, to: int)
    ensures TruncDiv(to - from, 86400) == -1 ==> IsoDatesBetween(from, to) == Success([])
    ensures TruncDiv(to - from, 86400) <= -2 ==> IsoDatesBetween(from, to) == Failure(IllegalArgument)
  {
  }

  lemma Render20170101()
    ensures FormatDate(Date(2017, 1, 1)) == "2017-01-01"
  {
    assert NatToDecimal(2017) == "2017" by {
      assert NatToDecimal(2) == "2";
      assert NatToDecimal(20) == "20";
      assert NatToDecimal(201) == "201";
    }
    assert NatToDecimal(1) == "1";
  }

  lemma Render20170301()
    ensures FormatDate(Date(2017, 3, 1)) == "2017-03-01"
  {
    assert NatToDecimal(2017) == "2017" by {
      assert NatToDecimal(2) == "2";
      assert NatToDecimal(20) == "20";
      assert NatToDecimal(201) == "201";
    }
    assert NatToDecimal(1) == "1";
    assert NatToDecimal(3) == "3";
  }

  lemma CivilDayOf(d: Date, n: int)
    requires Valid(d) && DaysFromCivil(d) == n
    ensures CivilFromDays(n) == d
  {
    CivilFromDaysInverse(d);
  }

  lemma IsoDateNewYear2017()
    ensures IsoDate(1483228800) == "2017-01-01"
  {
    assert EpochDay(1483228800) == 17167;
    CivilDayOf(Date(2017, 1, 1), 17167);
    Render20170101();
  }

  lemma IsoDateMarch2017()
    ensures IsoDate(1488326400) == "2017-03-01"
  {
    assert EpochDay(1488326400) == 17226;
    CivilDayOf(Date(2017, 3, 1), 17226);
    Render20170301();
  }

  /** 2017-01-01 to 2017-03-01 (both at midnight UTC) gives 60 dates, from "2017-01-01" to "2017-03-01". */
  lemma IsoDatesBetweenExample()
    ensures var r := IsoDatesBetween(1483228800, 1488326400);
      && r.Success? && |r.value| == 60
      && r.value[0] == "2017-01-01" && r.value[59] == "2017-03-01"
  {
    assert TruncDiv(1488326400 - 1483228800, 86400) == 59;
    FirstDateIsIsoDate(1483228800, 1488326400);
    LastDateAtMidnight(1483228800, 1488326400);
    IsoDateNewYear2017();
    IsoDateMarch2017();
  }

  /** The same instant at midnight of 2017-01-01 gives the one date "2017-01-01". */
  lemma SameInstantExample()
    ensures IsoDatesBetween(1483228800, 1483228800) == Success(["2017-01-01"])
  {
    SameInstant(1483228800);
    IsoDateNewYear2017();
  }
}
