/**
 * Calendar dates in the proleptic Gregorian calendar that Python's `datetime`
 * uses: day numbers (`toordinal`), stepping by one day (`timedelta(days=1)`),
 * English month names (`%B`) and the `%Y-%m-%d` text form with its parser.
 * Years are unbounded here; `datetime` stops at years 1 and 9999.
 */
module Calendar {
  import opened Wrappers
  import opened Text

  datatype Date = Date(year: int, month: int, day: int)

  predicate IsLeapYear(y: int) {
    y % 4 == 0 && (y % 100 != 0 || y % 400 == 0)
  }

  function DaysInMonth(y: int, m: int): int
    requires 1 <= m <= 12
  {
    if m == 2 then (if IsLeapYear(y) then 29 else 28)
    else if m == 4 || m == 6 || m == 9 || m == 11 then 30
    else 31
  }

  predicate ValidDate(d: Date) {
    1 <= d.month <= 12 && 1 <= d.day <= DaysInMonth(d.year, d.month)
  }

  function DaysBeforeMonth(y: int, m: int): int
    requires 1 <= m <= 12
    decreases m
  {
    if m == 1 then 0 else DaysBeforeMonth(y, m - 1) + DaysInMonth(y, m - 1)
  }

  function DaysBeforeYear(y: int): int {
    var p := y - 1;
    p * 365 + p / 4 - p / 100 + p / 400
  }

  /** The day number of a date; 1 January of year 1 is day 1 (Python's `date.toordinal()`). */
  function Ordinal(d: Date): int
    requires ValidDate(d)
  {
    DaysBeforeYear(d.year) + DaysBeforeMonth(d.year, d.month) + d.day
  }

  /** Moving from `p` to `p + 1` raises the quotient by `n` exactly when `p + 1` is a multiple of `n`. */
  lemma DivStep4(p: int)
    ensures (p + 1) % 4 == 0 <==> p % 4 == 3
    ensures (p + 1) / 4 == (if p % 4 == 3 then p / 4 + 1 else p / 4)
  {
  }

  lemma DivStep100(p: int)
    ensures (p + 1) % 100 == 0 <==> p % 100 == 99
    ensures (p + 1) / 100 == (if p % 100 == 99 then p / 100 + 1 else p / 100)
  {
  }

  lemma DivStep400(p: int)
    ensures (p + 1) % 400 == 0 <==> p % 400 == 399
    ensures (p + 1) / 400 == (if p % 400 == 399 then p / 400 + 1 else p / 400)
  {
  }

  /** Every multiple of 400 is a multiple of 100, and every multiple of 100 one of 4. */
  lemma CenturyDivisors(y: int)
    ensures y % 400 == 0 ==> y % 100 == 0
    ensures y % 100 == 0 ==> y % 4 == 0
  {
    if y % 100 == 0 {
      var k := y / 100;
      assert y == 4 * (25 * k);
    }
    if y % 400 == 0 {
      var k := y / 400;
      assert y == 100 * (4 * k);
    }
  }

  /** The twelve months add up to the length of the year. */
  lemma MonthsFillYear(y: int)
    ensures DaysBeforeMonth(y, 12) + 31 == (if IsLeapYear(y) then 366 else 365)
  {
  }

  /** Leap years are those divisible by 4, except centuries not divisible by 400. */
  lemma YearLength(y: int)
    ensures DaysBeforeYear(y + 1) == DaysBeforeYear(y) + (if IsLeapYear(y) then 366 else 365)
    ensures DaysBeforeMonth(y, 12) + 31 == (if IsLeapYear(y) then 366 else 365)
  {
    var p := y - 1;
    DivStep4(p);
    DivStep100(p);
    DivStep400(p);
    CenturyDivisors(y);
    assert p + 1 == y;
    MonthsFillYear(y);
  }

  /** The day after `d` (`d + timedelta(days=1)`). */
  function NextDay(d: Date): (r: Date)
    requires ValidDate(d)
    ensures ValidDate(r) && Ordinal(r) == Ordinal(d) + 1
  {
    if d.day < DaysInMonth(d.year, d.month) then Date(d.year, d.month, d.day + 1)
    else if d.month < 12 then Date(d.year, d.month + 1, 1)
    else YearLength(d.year); Date(d.year + 1, 1, 1)
  }

  /** The day before `d` (`d - timedelta(days=1)`). */
  function PrevDay(d: Date): (r: Date)
    requires ValidDate(d)
    ensures ValidDate(r) && Ordinal(r) == Ordinal(d) - 1
  {
    if d.day > 1 then Date(d.year, d.month, d.day - 1)
    else if d.month > 1 then Date(d.year, d.month - 1, DaysInMonth(d.year, d.month - 1))
    else YearLength(d.year - 1); Date(d.year - 1, 12, 31)
  }

  lemma NextOfPrev(d: Date)
    requires ValidDate(d)
    ensures NextDay(PrevDay(d)) == d
  {
  }

  /** `d + timedelta(days=k)` for any whole number of days `k`. */
  function Shift(d: Date, k: int): (r: Date)
    requires ValidDate(d)
    ensures ValidDate(r) && Ordinal(r) == Ordinal(d) + k
    decreases if k < 0 then -k else k
  {
    if k == 0 then d
    else if k > 0 then Shift(NextDay(d), k - 1)
    else Shift(PrevDay(d), k + 1)
  }

  /** Stepping one day forward from `d + k days` gives `d + (k + 1) days`. */
  lemma {:induction false} NextOfShift(d: Date, k: int)
    requires ValidDate(d)
    ensures NextDay(Shift(d, k)) == Shift(d, k + 1)
    decreases if k < 0 then -k else k
  {
    if k > 0 {
      NextOfShift(NextDay(d), k - 1);
    } else if k == -1 {
      NextOfPrev(d);
    } else if k < -1 {
      NextOfShift(PrevDay(d), k + 1);
    }
  }

  /** `d + timedelta(days=1)` applied `k` times. */
  function DayAfter(d: Date, k: nat): (r: Date)
    requires ValidDate(d)
    ensures ValidDate(r)
  {
    if k == 0 then d else NextDay(DayAfter(d, k - 1))
  }

  /** Adding one day `k` times is adding `k` days at once. */
  lemma {:induction false} DayAfterIsShift(d: Date, k: nat)
    requires ValidDate(d)
    ensures DayAfter(d, k) == Shift(d, k)
  {
    if k > 0 {
      DayAfterIsShift(d, k - 1);
      NextOfShift(d, k - 1);
    }
  }

  /**
   * `a <= b` on two datetimes with the same time of day: the year decides,
   * then the month, then the day.
   */
  predicate DateLe(a: Date, b: Date) {
    a.year < b.year || (a.year == b.year && (a.month < b.month || (a.month == b.month && a.day <= b.day)))
  }

  /** An earlier month of the same year ends no later than a later one begins. */
  lemma {:induction false} MonthsBefore(y: int, m1: int, m2: int)
    requires 1 <= m1 < m2 <= 12
    ensures DaysBeforeMonth(y, m1) + DaysInMonth(y, m1) <= DaysBeforeMonth(y, m2)
    decreases m2
  {
    if m1 < m2 - 1 {
      MonthsBefore(y, m1, m2 - 1);
    }
  }

  /** An earlier year ends no later than a later one begins. */
  lemma {:induction false} YearsBefore(y1: int, y2: int)
    requires y1 < y2
    ensures DaysBeforeYear(y1 + 1) <= DaysBeforeYear(y2)
    decreases y2 - y1
  {
    if y1 + 1 < y2 {
      YearsBefore(y1, y2 - 1);
      YearLength(y2 - 1);
    }
  }

  /** The day number of a date lies within the day numbers of its year. */
  lemma OrdinalWithinYear(d: Date)
    requires ValidDate(d)
    ensures DaysBeforeYear(d.year) < Ordinal(d) <= DaysBeforeYear(d.year + 1)
  {
    YearLength(d.year);
    if d.month > 1 {
      MonthsBefore(d.year, 1, d.month);
    }
    if d.month < 12 {
      MonthsBefore(d.year, d.month, 12);
    }
  }

  /** Comparing dates field by field agrees with comparing their day numbers. */
  lemma DateLeIsOrdinalLe(a: Date, b: Date)
    requires ValidDate(a) && ValidDate(b)
    ensures DateLe(a, b) <==> Ordinal(a) <= Ordinal(b)
  {
    OrdinalWithinYear(a);
    OrdinalWithinYear(b);
    if a.year < b.year {
      YearsBefore(a.year, b.year);
    } else if b.year < a.year {
      YearsBefore(b.year, a.year);
    } else if a.month < b.month {
      MonthsBefore(a.year, a.month, b.month);
    } else if b.month < a.month {
      MonthsBefore(a.year, b.month, a.month);
    }
  }

  function MonthName(m: int): string
    requires 1 <= m <= 12
  {
    ["January", "February", "March", "April", "May", "June", "July",
     "August", "September", "October", "November", "December"][m - 1]
  }

  /** The month whose `%B` name is `name`, if any. */
  function MonthNumber(name: string): (r: Option<int>)
    ensures r.Some? ==> 1 <= r.value <= 12 && MonthName(r.value) == name
  {
    if name == "January" then Some(1) else if name == "February" then Some(2)
    else if name == "March" then Some(3) else if name == "April" then Some(4)
    else if name == "May" then Some(5) else if name == "June" then Some(6)
    else if name == "July" then Some(7) else if name == "August" then Some(8)
    else if name == "September" then Some(9) else if name == "October" then Some(10)
    else if name == "November" then Some(11) else if name == "December" then Some(12)
    else None
  }

  lemma MonthNumberOfName(m: int)
    requires 1 <= m <= 12
    ensures MonthNumber(MonthName(m)) == Some(m)
    ensures '-' !in MonthName(m)
  {
  }

  /** `%Y` as glibc prints it: the year in decimal, four digits for years 1000 to 9999. */
  function YearText(y: int): string {
    if y >= 0 then NatToString(y) else "-" + NatToString(-y)
  }

  /** `%m` and `%d`: two digits with a leading zero. */
  function TwoDigits(n: nat): string
    requires n < 100
  {
    [DigitChar(n / 10), DigitChar(n % 10)]
  }

  /** `date.strftime('%Y-%m-%d')`. */
  function IsoDate(d: Date): string
    requires ValidDate(d)
  {
    YearText(d.year) + "-" + TwoDigits(d.month) + "-" + TwoDigits(d.day)
  }

  /**
   * The `YYYY-MM-DD` reading of PostgreSQL's `DATE` input: four, two and two
   * digits separated by `-`, naming a real calendar day. The other input forms
   * PostgreSQL accepts are not read here.
   */
  function ParseIsoDate(s: string): (r: Option<Date>)
    ensures r.Some? ==> ValidDate(r.value) && 1 <= r.value.year <= 9999
  {
    var parts := Split(s, '-');
    if |parts| == 3 && |parts[0]| == 4 && |parts[1]| == 2 && |parts[2]| == 2 then
      match (ParseNat(parts[0]), ParseNat(parts[1]), ParseNat(parts[2]))
      case (Some(y), Some(m), Some(d)) =>
        var date := Date(y, m, d);
        if ValidDate(date) && 1 <= y <= 9999 then Some(date) else None
      case _ => None
    else None
  }

  lemma {:induction false} TwoDigitsValue(n: nat)
    requires n < 100
    ensures ParseNat(TwoDigits(n)) == Some(n) && '-' !in TwoDigits(n)
  {
    var s := TwoDigits(n);
    assert s[..1] == [DigitChar(n / 10)];
    assert DigitsValue(s[..1]) == n / 10;
  }

  /** A four-digit-year date printed as `YYYY-MM-DD` reads back as the same date. */
  lemma {:induction false} IsoDateRoundTrip(d: Date)
    requires ValidDate(d) && 1000 <= d.year <= 9999
    ensures ParseIsoDate(IsoDate(d)) == Some(d)
    ensures |IsoDate(d)| == 10 && IsoDate(d)[4] == '-' && IsoDate(d)[7] == '-'
  {
    var y, m, dd := NatToString(d.year), TwoDigits(d.month), TwoDigits(d.day);
    NatToStringLength(d.year);
    ParseNatToString(d.year);
    TwoDigitsValue(d.month);
    TwoDigitsValue(d.day);
    assert '-' !in y by {
      forall i | 0 <= i < |y| ensures y[i] != '-' { assert IsDigit(y[i]); }
    }
    SplitNoSep(dd, '-');
    SplitAtSep(m, '-', dd);
    assert y + "-" + m + "-" + dd == y + ['-'] + (m + ['-'] + dd);
    SplitAtSep(y, '-', m + ['-'] + dd);
    assert Split(IsoDate(d), '-') == [y, m, dd];
  }
}
