/**
 The proleptic Gregorian calendar on day ordinals (day 1 is 0001-01-01, the
 numbering of Python's `date.toordinal`), and the `%Y-%m-%d` rendering of a
 day that serves as a column key of the traffic table.
 */
module Calendar {
  import opened TextOrder

  datatype Date = Date(year: int, month: int, day: int)

  predicate IsLeap(y: int) {
    y % 4 == 0 && (y % 100 != 0 || y % 400 == 0)
  }

  function YearLength(y: int): int {
    if IsLeap(y) then 366 else 365
  }

  function MonthLength(y: int, m: int): int
    requires 1 <= m <= 12
  {
    if m == 2 then (if IsLeap(y) then 29 else 28)
    else if m == 4 || m == 6 || m == 9 || m == 11 then 30
    else 31
  }

  /** Days of the years 1 .. y-1. */
  function DaysBeforeYear(y: int): int
    requires y >= 1
  {
    if y == 1 then 0 else DaysBeforeYear(y - 1) + YearLength(y - 1)
  }

  /** Days of the months 1 .. m-1 of year y. */
  function DaysBeforeMonth(y: int, m: int): int
    requires 1 <= m <= 12
  {
    var common :=
      if m == 1 then 0 else if m == 2 then 31 else if m == 3 then 59
      else if m == 4 then 90 else if m == 5 then 120 else if m == 6 then 151
      else if m == 7 then 181 else if m == 8 then 212 else if m == 9 then 243
      else if m == 10 then 273 else if m == 11 then 304 else 334;
    if m > 2 && IsLeap(y) then common + 1 else common
  }

  predicate ValidDate(d: Date) {
    d.year >= 1 && 1 <= d.month <= 12 && 1 <= d.day <= MonthLength(d.year, d.month)
  }

  /** The ordinal of a calendar date. */
  function Ordinal(d: Date): int
    requires ValidDate(d)
  {
    DaysBeforeYear(d.year) + DaysBeforeMonth(d.year, d.month) + d.day
  }

  /** Chronological order of dates: by year, then month, then day. */
  predicate DateLess(a: Date, b: Date) {
    a.year < b.year
    || (a.year == b.year && a.month < b.month)
    || (a.year == b.year && a.month == b.month && a.day < b.day)
  }

  /** The count of days before a year in closed form. */
  lemma {:induction false} DaysBeforeYearClosed(y: int)
    requires y >= 1
    ensures var p := y - 1; DaysBeforeYear(y) == 365 * p + p / 4 - p / 100 + p / 400
    decreases y
  {
    if y > 1 {
      DaysBeforeYearClosed(y - 1);
      var p := y - 1;
      QuarterStep(p);
      CenturyStep(p);
      FourCenturyStep(p);
      LeapCount(p);
      assert DaysBeforeYear(y) == DaysBeforeYear(p) + YearLength(p);
    }
  }

  /** Going from year count `p - 1` to `p` adds a fourth-year, a century and a
      fourth-century exactly when `p` is a multiple of 4, 100 and 400. */
  lemma QuarterStep(p: int)
    ensures p / 4 == (p - 1) / 4 + (if p % 4 == 0 then 1 else 0)
  {
  }

  lemma CenturyStep(p: int)
    ensures p / 100 == (p - 1) / 100 + (if p % 100 == 0 then 1 else 0)
  {
  }

  lemma FourCenturyStep(p: int)
    ensures p / 400 == (p - 1) / 400 + (if p % 400 == 0 then 1 else 0)
  {
  }

  /** The Gregorian rule as a count: one extra day per fourth year, less one per
      century, plus one per fourth century. */
  lemma LeapCount(p: int)
    ensures YearLength(p) - 365 ==
      (if p % 4 == 0 then 1 else 0) - (if p % 100 == 0 then 1 else 0) + (if p % 400 == 0 then 1 else 0)
  {
    if p % 400 == 0 {
      assert p == 100 * (4 * (p / 400));
    }
    if p % 100 == 0 {
      assert p == 4 * (25 * (p / 100));
    }
  }

  lemma {:induction false} DaysBeforeYearMonotone(a: int, b: int)
    requires 1 <= a <= b
    ensures DaysBeforeYear(a) + (b - a) * 365 <= DaysBeforeYear(b)
    decreases b - a
  {
    if a < b {
      DaysBeforeYearMonotone(a, b - 1);
    }
  }

  /** Every month ends inside its year, and the next month starts where it ends. */
  lemma MonthFits(y: int, m: int)
    requires 1 <= m <= 12
    ensures DaysBeforeMonth(y, m) + MonthLength(y, m) <= YearLength(y)
    ensures m < 12 ==> DaysBeforeMonth(y, m + 1) == DaysBeforeMonth(y, m) + MonthLength(y, m)
    ensures m == 12 ==> DaysBeforeMonth(y, m) + MonthLength(y, m) == YearLength(y)
  {
  }

  lemma {:induction false} DaysBeforeMonthMonotone(y: int, a: int, b: int)
    requires 1 <= a < b <= 12
    ensures DaysBeforeMonth(y, a) + MonthLength(y, a) <= DaysBeforeMonth(y, b)
    decreases b - a
  {
    MonthFits(y, a);
    if a + 1 < b {
      DaysBeforeMonthMonotone(y, a + 1, b);
      MonthFits(y, a + 1);
    }
  }

  /** The day after `d`. */
  function NextDay(d: Date): (e: Date)
    requires d.year >= 1 && 1 <= d.month <= 12 && 1 <= d.day
    ensures e.year >= 1 && 1 <= e.month <= 12 && 1 <= e.day
    ensures DateLess(d, e)
    ensures ValidDate(d) ==> ValidDate(e)
  {
    if d.day < MonthLength(d.year, d.month) then Date(d.year, d.month, d.day + 1)
    else if d.month < 12 then Date(d.year, d.month + 1, 1)
    else Date(d.year + 1, 1, 1)
  }

  /** The day after a date has the next ordinal. */
  lemma NextDayOrdinal(d: Date)
    requires ValidDate(d)
    ensures Ordinal(NextDay(d)) == Ordinal(d) + 1
  {
    MonthFits(d.year, d.month);
  }

  /** The calendar date of day ordinal `n`: day 1 is 0001-01-01 and each
      further day is the day after its predecessor. It inverts `Ordinal`. */
  function Civil(n: int): (d: Date)
    requires n >= 1
    ensures ValidDate(d) && Ordinal(d) == n
  {
    if n == 1 then Date(1, 1, 1)
    else
      var p := Civil(n - 1);
      NextDayOrdinal(p);
      NextDay(p)
  }

  /** Chronologically earlier dates have smaller ordinals. */
  lemma OrdinalMonotone(a: Date, b: Date)
    requires ValidDate(a) && ValidDate(b) && DateLess(a, b)
    ensures Ordinal(a) < Ordinal(b)
  {
    MonthFits(a.year, a.month);
    if a.year < b.year {
      DaysBeforeYearMonotone(a.year + 1, b.year);
    } else if a.month < b.month {
      DaysBeforeMonthMonotone(a.year, a.month, b.month);
    }
  }

  /** Later ordinals have chronologically later dates. */
  lemma CivilMonotone(a: int, b: int)
    requires 1 <= a < b
    ensures DateLess(Civil(a), Civil(b))
  {
    var da, db := Civil(a), Civil(b);
    if !DateLess(da, db) {
      OrdinalMonotone(db, da);
    }
  }

  /** The years the day ordinals `lo .. hi` fall in lie between those of `lo` and `hi`. */
  lemma CivilYearBounds(n: int, lo: Date, hi: Date)
    requires ValidDate(lo) && ValidDate(hi) && 1 <= Ordinal(lo) <= n <= Ordinal(hi)
    ensures lo.year <= Civil(n).year <= hi.year
  {
    var d := Civil(n);
    if d.year < lo.year {
      OrdinalMonotone(d, lo);
    }
    if d.year > hi.year {
      OrdinalMonotone(hi, d);
    }
  }

  // ---------------------------------------------------------------- rendering

  function Pow10(w: nat): nat {
    if w == 0 then 1 else 10 * Pow10(w - 1)
  }

  function DigitChar(k: int): char
    requires 0 <= k < 10
  {
    (48 + k) as char
  }

  /** `n` written in decimal with exactly `w` digits, zero-padded on the left. */
  function Digits(n: nat, w: nat): (s: string)
    ensures |s| == w
    ensures forall i :: 0 <= i < |s| ==> '0' <= s[i] <= '9'
  {
    if w == 0 then [] else Digits(n / 10, w - 1) + [DigitChar(n % 10)]
  }

  /** Zero-padded numerals of the same width sort as the numbers do. */
  lemma {:induction false} DigitsOrder(a: nat, b: nat, w: nat)
    requires a < b < Pow10(w)
    ensures LexLess(Digits(a, w), Digits(b, w))
    decreases w
  {
    if a / 10 < b / 10 {
      DigitsOrder(a / 10, b / 10, w - 1);
      LexExtend(Digits(a / 10, w - 1), Digits(b / 10, w - 1), [DigitChar(a % 10)], [DigitChar(b % 10)]);
    } else {
      LexAtPosition(Digits(a / 10, w - 1), DigitChar(a % 10), DigitChar(b % 10), [], []);
      assert Digits(a / 10, w - 1) + [DigitChar(a % 10)] + [] == Digits(a, w);
      assert Digits(b / 10, w - 1) + [DigitChar(b % 10)] + [] == Digits(b, w);
    }
  }

  /** The `%Y-%m-%d` text of a date whose year has at most four digits. */
  function Format(d: Date): (s: string)
    requires 0 <= d.year < 10000 && 0 <= d.month < 100 && 0 <= d.day < 100
    ensures |s| == 10 && s[4] == '-' && s[7] == '-'
    ensures forall i :: 0 <= i < 10 && i != 4 && i != 7 ==> '0' <= s[i] <= '9'
  {
    var y, m, dd := Digits(d.year, 4), Digits(d.month, 2), Digits(d.day, 2);
    var s := y + "-" + m + "-" + dd;
    assert forall i :: 0 <= i < 4 ==> s[i] == y[i];
    assert forall i :: 5 <= i < 7 ==> s[i] == m[i - 5];
    assert forall i :: 8 <= i < 10 ==> s[i] == dd[i - 8];
    s
  }

  /** Dates of different years: the year digits decide. */
  lemma FormatOrderYear(a: Date, b: Date)
    requires ValidDate(a) && ValidDate(b) && a.year < b.year < 10000
    ensures LexLess(Format(a), Format(b))
  {
    var ya, ma, da := Digits(a.year, 4), Digits(a.month, 2), Digits(a.day, 2);
    var yb, mb, db := Digits(b.year, 4), Digits(b.month, 2), Digits(b.day, 2);
    assert Pow10(4) == 10000;
    DigitsOrder(a.year, b.year, 4);
    LexExtend(ya, yb, "-" + ma + "-" + da, "-" + mb + "-" + db);
    assert Format(a) == ya + ("-" + ma + "-" + da);
    assert Format(b) == yb + ("-" + mb + "-" + db);
  }

  /** Dates of the same year and different months: the month digits decide. */
  lemma FormatOrderMonth(a: Date, b: Date)
    requires ValidDate(a) && ValidDate(b) && a.year == b.year < 10000 && a.month < b.month
    ensures LexLess(Format(a), Format(b))
  {
    var ya, ma, da := Digits(a.year, 4), Digits(a.month, 2), Digits(a.day, 2);
    var mb, db := Digits(b.month, 2), Digits(b.day, 2);
    assert Pow10(2) == 100;
    DigitsOrder(a.month, b.month, 2);
    LexExtend(ma, mb, "-" + da, "-" + db);
    LexPrefix(ya + "-", ma + ("-" + da), mb + ("-" + db));
    assert Format(a) == (ya + "-") + (ma + ("-" + da));
    assert Format(b) == (ya + "-") + (mb + ("-" + db));
  }

  /** Dates of the same month: the day digits decide. */
  lemma FormatOrderDay(a: Date, b: Date)
    requires ValidDate(a) && ValidDate(b) && a.year == b.year < 10000 && a.month == b.month && a.day < b.day
    ensures LexLess(Format(a), Format(b))
  {
    assert Pow10(2) == 100;
    DigitsOrder(a.day, b.day, 2);
    LexPrefix(Digits(a.year, 4) + "-" + Digits(a.month, 2) + "-", Digits(a.day, 2), Digits(b.day, 2));
  }

  /** Formatting preserves chronological order. */
  lemma FormatOrder(a: Date, b: Date)
    requires ValidDate(a) && ValidDate(b) && a.year < 10000 && b.year < 10000
    requires DateLess(a, b)
    ensures LexLess(Format(a), Format(b))
  {
    if a.year < b.year {
      FormatOrderYear(a, b);
    } else if a.month < b.month {
      FormatOrderMonth(a, b);
    } else {
      FormatOrderDay(a, b);
    }
  }

  // ---------------------------------------------------------------- day keys

  /** Earliest and latest whole days pandas can represent as a nanosecond
      timestamp: 1677-09-22 and 2262-04-10. */
  const FirstDay := 612412
  const LastDay := 825913

  predicate InRange(n: int) {
    FirstDay <= n <= LastDay
  }

  /** The earliest representable day is 1677-09-22. */
  lemma FirstDayDate()
    ensures Ordinal(Date(1677, 9, 22)) == FirstDay
  {
    DaysBeforeYearClosed(1677);
  }

  /** The latest representable day is 2262-04-10. */
  lemma LastDayDate()
    ensures Ordinal(Date(2262, 4, 10)) == LastDay
  {
    DaysBeforeYearClosed(2262);
  }

  /** Every representable day falls in a year from 1677 to 2262, so its year has four digits. */
  lemma RangeYears(n: int)
    requires InRange(n)
    ensures 1677 <= Civil(n).year <= 2262
  {
    FirstDayDate();
    LastDayDate();
    CivilYearBounds(n, Date(1677, 9, 22), Date(2262, 4, 10));
  }

  /** The day key of ordinal `n`: `strftime("%Y-%m-%d")` of that day. Every
      year in range has four digits, so no padding question arises. */
  function Key(n: int): (k: string)
    requires InRange(n)
    ensures |k| == 10 && k[4] == '-' && k[7] == '-'
  {
    RangeYears(n);
    Format(Civil(n))
  }

  /** Day keys are strictly increasing in the ordinal. */
  lemma KeyOrder(a: int, b: int)
    requires InRange(a) && InRange(b) && a < b
    ensures LexLess(Key(a), Key(b))
  {
    CivilMonotone(a, b);
    RangeYears(a);
    RangeYears(b);
    FormatOrder(Civil(a), Civil(b));
  }

  /** Distinct days have distinct keys. */
  lemma KeyInjective(a: int, b: int)
    requires InRange(a) && InRange(b)
    ensures Key(a) == Key(b) <==> a == b
  {
    if a < b {
      KeyOrder(a, b);
      LexLessDistinct(Key(a), Key(b));
    } else if b < a {
      KeyOrder(b, a);
      LexLessDistinct(Key(b), Key(a));
    }
  }
}
