/** The proleptic Gregorian calendar as Python's `datetime` module counts it:
    years 1 through 9999, day ordinals with 0001-01-01 as day 1, and
    `weekday()` numbering Monday 0 through Sunday 6. Dates are written in the
    complete extended calendar-date form of ISO 8601 (`YYYY-MM-DD`). */
module Calendar {

  import opened Text

  const MinYear: int := 1
  const MaxYear: int := 9999
  const Sunday: int := 6

  datatype Date = Date(year: int, month: int, day: int)

  predicate IsLeap(y: int) {
    y % 4 == 0 && (y % 100 != 0 || y % 400 == 0)
  }

  function DaysInYear(y: int): int {
    if IsLeap(y) then 366 else 365
  }

  function DaysInMonth(y: int, m: int): int
    requires 1 <= m <= 12
  {
    if m == 2 then (if IsLeap(y) then 29 else 28)
    else if m == 4 || m == 6 || m == 9 || m == 11 then 30
    else 31
  }

  predicate ValidDate(d: Date) {
    MinYear <= d.year <= MaxYear && 1 <= d.month <= 12 && 1 <= d.day <= DaysInMonth(d.year, d.month)
  }

  /** Days in the months of year `y` before month `m`, by the cumulative
      table `datetime` uses, plus the leap day once February is past. */
  function DaysBeforeMonth(y: int, m: int): int
    requires 1 <= m <= 13
  {
    [0, 0, 31, 59, 90, 120, 151, 181, 212, 243, 273, 304, 334, 365][m]
      + (if m > 2 && IsLeap(y) then 1 else 0)
  }

  /** The cumulative table agrees with the month lengths, and its last entry
      is the length of the year. */
  lemma DaysBeforeMonthAgrees(y: int, m: int)
    requires 1 <= m <= 12
    ensures DaysBeforeMonth(y, m + 1) == DaysBeforeMonth(y, m) + DaysInMonth(y, m)
    ensures DaysBeforeMonth(y, 1) == 0 && DaysBeforeMonth(y, 13) == DaysInYear(y)
  {
  }

  /** Days from 0001-01-01 up to 1 January of year `y`. */
  function DaysBeforeYear(y: int): int
    requires y >= 1
  {
    var n := y - 1;
    365 * n + n / 4 - n / 100 + n / 400
  }

  /** The ordinal of 1 January of year `y`. */
  function YearStart(y: int): int
    requires y >= 1
  {
    DaysBeforeYear(y) + 1
  }

  /** The ordinal of 9999-12-31, the last date `datetime` can represent. */
  const MaxOrdinal: int := DaysBeforeYear(MaxYear + 1)

  function Ordinal(d: Date): int
    requires ValidDate(d)
  {
    YearStart(d.year) + DaysBeforeMonth(d.year, d.month) + d.day - 1
  }

  /** `date.weekday()` of the date with ordinal `o`: 0001-01-01 was a Monday. */
  function Weekday(o: int): (w: int)
    ensures 0 <= w < 7
  {
    (o + 6) % 7
  }

  /** The year boundary: 1 January of `y + 1` is `DaysInYear(y)` days after
      1 January of `y`. */
  lemma YearStartStep(y: int)
    requires y >= 1
    ensures YearStart(y + 1) == YearStart(y) + DaysInYear(y)
  {
    var n := y - 1;
    var a, b, c := y / 4 - n / 4, y / 100 - n / 100, y / 400 - n / 400;
    DivStep(y, 4);
    DivStep(y, 100);
    DivStep(y, 400);
    DivisorChain(y);
    assert DaysBeforeYear(y + 1) - DaysBeforeYear(y) == 365 + a - b + c;
    assert a == (if y % 4 == 0 then 1 else 0);
    assert b == (if y % 100 == 0 then 1 else 0);
    assert c == (if y % 400 == 0 then 1 else 0);
  }

  /** Going from `y - 1` to `y` adds one to the quotient exactly when `d`
      divides `y`. */
  lemma DivStep(y: int, d: int)
    requires d > 0
    ensures y / d == (y - 1) / d + (if y % d == 0 then 1 else 0)
  {
    var q, r := (y - 1) / d, (y - 1) % d;
    assert y - 1 == d * q + r && 0 <= r < d;
    if r == d - 1 {
      assert y == d * (q + 1) + 0;
      DivUnique(y, d, q + 1, 0);
    } else {
      assert y == d * q + (r + 1);
      DivUnique(y, d, q, r + 1);
    }
  }

  lemma DivUnique(y: int, d: int, q: int, r: int)
    requires d > 0 && 0 <= r < d && y == d * q + r
    ensures y / d == q && y % d == r
  {
    var q0, r0 := y / d, y % d;
    var k := q - q0;
    assert d * q0 + r0 == y;
    assert d * q == d * q0 + d * k;
    assert d * k == r0 - r;
    if k > 0 {
      MulAtLeast(d, k);
    } else if k < 0 {
      MulAtLeast(d, -k);
    }
  }

  /** A multiple of 400 is a multiple of 100, and one of 100 a multiple
      of 4. */
  lemma DivisorChain(y: int)
    ensures y % 400 == 0 ==> y % 100 == 0
    ensures y % 100 == 0 ==> y % 4 == 0
  {
    if y % 400 == 0 {
      var q := y / 400;
      assert y == 400 * q;
      DivUnique(y, 100, 4 * q, 0);
    }
    if y % 100 == 0 {
      var q := y / 100;
      assert y == 100 * q;
      DivUnique(y, 4, 25 * q, 0);
    }
  }

  lemma MulAtLeast(d: int, k: int)
    requires d > 0 && k > 0
    ensures d * k >= d
  {
    assert d * k == d * (k - 1) + d;
    assert d * (k - 1) >= 0;
  }

  lemma {:induction false} YearStartMonotone(a: int, b: int)
    requires 1 <= a <= b
    ensures YearStart(a) + 365 * (b - a) <= YearStart(b)
    decreases b - a
  {
    if a < b {
      YearStartStep(a);
      YearStartMonotone(a + 1, b);
    }
  }

  /** Each valid date lies inside its own year's span of ordinals. */
  lemma OrdinalWithinYear(d: Date)
    requires ValidDate(d)
    ensures YearStart(d.year) <= Ordinal(d) < YearStart(d.year) + DaysInYear(d.year)
  {
  }

  /** The date `off` days after 1 January of `y` has year `y` exactly when
      `0 <= off < DaysInYear(y)`; this is the source's `commit_date.year ==
      start_year` test expressed on ordinals. */
  lemma SameYearIff(d: Date, y: int, off: int)
    requires ValidDate(d) && MinYear <= y <= MaxYear && off >= 0
    requires Ordinal(d) == YearStart(y) + off
    ensures d.year == y <==> off < DaysInYear(y)
  {
    OrdinalWithinYear(d);
    if d.year > y {
      YearStartStep(y);
      YearStartMonotone(y + 1, d.year);
    } else if d.year < y {
      YearStartStep(d.year);
      YearStartMonotone(d.year + 1, y);
    }
  }

  /** The month and day of the zero-based day `off` of year `y`, found by
      walking the months from `m` on. */
  function MonthDay(y: int, off: int, m: int): (d: Date)
    requires 1 <= m <= 12
    requires DaysBeforeMonth(y, m) <= off < DaysInYear(y)
    ensures d.year == y && m <= d.month <= 12
    ensures 1 <= d.day <= DaysInMonth(y, d.month)
    ensures DaysBeforeMonth(y, d.month) + d.day - 1 == off
    decreases 12 - m
  {
    if off < DaysBeforeMonth(y, m) + DaysInMonth(y, m) || m == 12 then
      Date(y, m, off - DaysBeforeMonth(y, m) + 1)
    else
      MonthDay(y, off, m + 1)
  }

  /** The date `off` days after 1 January of `y`, for an `off` inside the year:
      its ordinal is exactly `YearStart(y) + off`. */
  function DateInYear(y: int, off: int): (d: Date)
    requires MinYear <= y <= MaxYear && 0 <= off < DaysInYear(y)
    ensures ValidDate(d) && d.year == y
    ensures Ordinal(d) == YearStart(y) + off
  {
    MonthDay(y, off, 1)
  }

  /** Days from 1 January of `y` to the first Sunday of the year, as the source
      computes it: `(6 - weekday) % 7`. */
  function DaysUntilSunday(y: int): int
    requires y >= 1
  {
    (Sunday - Weekday(YearStart(y))) % 7
  }

  /** The anchor is a Sunday between 1 and 7 January, and no earlier day of
      the year is a Sunday. */
  lemma FirstSundayAnchor(y: int)
    requires y >= 1
    ensures 0 <= DaysUntilSunday(y) <= 6
    ensures Weekday(YearStart(y) + DaysUntilSunday(y)) == Sunday
    ensures forall o :: YearStart(y) <= o < YearStart(y) + DaysUntilSunday(y) ==> Weekday(o) != Sunday
  {
    var start := YearStart(y);
    var w := Weekday(start);
    assert DaysUntilSunday(y) == Sunday - w;
    forall o | start <= o <= start + (Sunday - w)
      ensures Weekday(o) == w + (o - start)
    {
      WeekdayShift(start, o - start);
    }
  }

  /** Moving `k` days forward moves the weekday `k` places, modulo 7. */
  lemma WeekdayShift(o: int, k: nat)
    ensures Weekday(o + k) == (Weekday(o) + k) % 7
  {
    var q := (o + 6) / 7;
    assert o + 6 == 7 * q + Weekday(o);
    assert o + k + 6 == 7 * q + (Weekday(o) + k);
  }

  // ISO 8601 extended calendar date: YYYY-MM-DD.

  function DigitChar(n: int): char
    requires 0 <= n < 10
  {
    ('0' as int + n) as char
  }

  function Pow10(w: nat): (p: nat)
    ensures p >= 1
  {
    if w == 0 then 1 else 10 * Pow10(w - 1)
  }

  /** The last `w` decimal digits of `n`, zero-padded on the left. */
  function Digits(n: nat, w: nat): (s: string)
    ensures |s| == w
    ensures forall i :: 0 <= i < w ==> '0' <= s[i] <= '9'
  {
    if w == 0 then [] else Digits(n / 10, w - 1) + [DigitChar(n % 10)]
  }

  /** The value of a string of decimal digits. */
  function DigitsValue(s: string): nat
    requires forall i :: 0 <= i < |s| ==> '0' <= s[i] <= '9'
  {
    if s == [] then 0 else 10 * DigitsValue(s[..|s| - 1]) + (s[|s| - 1] as int - '0' as int)
  }

  lemma {:induction false} DigitsRoundTrip(n: nat, w: nat)
    requires n < Pow10(w)
    ensures DigitsValue(Digits(n, w)) == n
  {
    if w > 0 {
      DigitsRoundTrip(n / 10, w - 1);
      var s := Digits(n, w);
      assert s[..|s| - 1] == Digits(n / 10, w - 1);
    }
  }

  /** `date.strftime('%Y-%m-%d')` on a valid date. */
  function IsoDate(d: Date): (s: string)
    requires ValidDate(d)
    ensures |s| == 10 && s[4] == '-' && s[7] == '-'
  {
    Digits(d.year, 4) + "-" + Digits(d.month, 2) + "-" + Digits(d.day, 2)
  }

  predicate IsDigits(s: string) {
    forall i :: 0 <= i < |s| ==> '0' <= s[i] <= '9'
  }

  /** Reads back a `YYYY-MM-DD` string. */
  function ParseIsoDate(s: string): Option<Date> {
    if |s| == 10 && s[4] == '-' && s[7] == '-' && IsDigits(s[..4]) && IsDigits(s[5..7]) && IsDigits(s[8..]) then
      var d := Date(DigitsValue(s[..4]), DigitsValue(s[5..7]), DigitsValue(s[8..]));
      if ValidDate(d) then Some(d) else None
    else None
  }

  /** Formatting a valid date and reading it back gives the same date. */
  lemma IsoDateRoundTrip(d: Date)
    requires ValidDate(d)
    ensures ParseIsoDate(IsoDate(d)) == Some(d)
  {
    var s := IsoDate(d);
    assert s[..4] == Digits(d.year, 4);
    assert s[5..7] == Digits(d.month, 2);
    assert s[8..] == Digits(d.day, 2);
    DigitsRoundTrip(d.year, 4);
    DigitsRoundTrip(d.month, 2);
    DigitsRoundTrip(d.day, 2);
  }

  /** Distinct dates are written as distinct strings. */
  lemma IsoDateInjective(a: Date, b: Date)
    requires ValidDate(a) && ValidDate(b) && IsoDate(a) == IsoDate(b)
    ensures a == b
  {
    IsoDateRoundTrip(a);
    IsoDateRoundTrip(b);
  }
}
