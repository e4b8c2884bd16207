/** Calendar dates as Python's `datetime.date` sees them: the proleptic
    Gregorian calendar, `date.fromisoformat` on `YYYY-MM-DD`, `isoformat`,
    `toordinal` (whose differences are `(second - first).days`) and date
    comparison. */
module Calendar {
  import opened Numerals

  datatype Date = Date(year: int, month: int, day: int)

  predicate IsLeap(y: int)
  {
    y % 4 == 0 && (y % 100 != 0 || y % 400 == 0)
  }

  function DaysInMonth(y: int, m: int): int
    requires 1 <= m <= 12
  {
    if m == 2 then (if IsLeap(y) then 29 else 28)
    else if m == 4 || m == 6 || m == 9 || m == 11 then 30
    else 31
  }

  function DaysInYear(y: int): int
  {
    if IsLeap(y) then 366 else 365
  }

  /** A date `datetime.date` accepts: MINYEAR 1 to MAXYEAR 9999, a real month
      and a day that month has. */
  predicate Valid(d: Date)
  {
    1 <= d.year <= 9999 && 1 <= d.month <= 12 && 1 <= d.day <= DaysInMonth(d.year, d.month)
  }

  /** `YYYY-MM-DD` naming a valid date: the strings `fromisoformat` is given. */
  predicate IsIsoDate(s: string)
  {
    && |s| == 10 && s[4] == '-' && s[7] == '-'
    && AllDigits(s[..4]) && AllDigits(s[5..7]) && AllDigits(s[8..])
    && Valid(Date(DecimalValue(s[..4]), DecimalValue(s[5..7]), DecimalValue(s[8..])))
  }

  /** `datetime.date.fromisoformat(s)`. */
  function FromIsoFormat(s: string): (d: Date)
    requires IsIsoDate(s)
    ensures Valid(d)
  {
    Date(DecimalValue(s[..4]), DecimalValue(s[5..7]), DecimalValue(s[8..]))
  }

  /** `d.isoformat()`: `%04d-%02d-%02d`. */
  function IsoFormat(d: Date): string
    requires Valid(d)
  {
    Digits(d.year, 4) + "-" + Digits(d.month, 2) + "-" + Digits(d.day, 2)
  }

  /** Where the three numbers sit in `isoformat`'s output. */
  lemma {:induction false} IsoFormatParts(d: Date)
    requires Valid(d)
    ensures var t := IsoFormat(d);
      && |t| == 10 && t[4] == '-' && t[7] == '-'
      && t[..4] == Digits(d.year, 4) && t[5..7] == Digits(d.month, 2) && t[8..] == Digits(d.day, 2)
  {
    var y, m, n := Digits(d.year, 4), Digits(d.month, 2), Digits(d.day, 2);
    var t := y + "-" + m + "-" + n;
    assert t == IsoFormat(d);
    assert t[..4] == y;
    assert t[5..7] == m;
    assert t[8..] == n;
  }

  /** `fromisoformat(d.isoformat()) == d`. */
  lemma {:induction false} FormatThenParse(d: Date)
    requires Valid(d)
    ensures IsIsoDate(IsoFormat(d)) && FromIsoFormat(IsoFormat(d)) == d
  {
    IsoFormatParts(d);
    assert Pow10(2) == 100 && Pow10(4) == 10000;
    DigitsValue(d.year, 4);
    DigitsValue(d.month, 2);
    DigitsValue(d.day, 2);
  }

  /** `fromisoformat(s).isoformat() == s`. */
  lemma {:induction false} ParseThenFormat(s: string)
    requires IsIsoDate(s)
    ensures IsoFormat(FromIsoFormat(s)) == s
  {
    var d := FromIsoFormat(s);
    ValueDigits(s[..4]);
    ValueDigits(s[5..7]);
    ValueDigits(s[8..]);
    IsoFormatParts(d);
    var t := IsoFormat(d);
    assert forall k :: 0 <= k < 10 ==> t[k] == s[k] by {
      forall k | 0 <= k < 10
        ensures t[k] == s[k]
      {
        if k < 4 {
          assert t[k] == t[..4][k] && s[k] == s[..4][k];
        } else if 5 <= k < 7 {
          assert t[k] == t[5..7][k - 5] && s[k] == s[5..7][k - 5];
        } else if 8 <= k {
          assert t[k] == t[8..][k - 8] && s[k] == s[8..][k - 8];
        }
      }
    }
  }

  /** `fromisoformat` and `isoformat` are inverse to each other. */
  lemma IsoRoundTrip(d: Date, s: string)
    requires Valid(d)
    ensures IsIsoDate(IsoFormat(d)) && FromIsoFormat(IsoFormat(d)) == d
    ensures IsIsoDate(s) ==> IsoFormat(FromIsoFormat(s)) == s
  {
    FormatThenParse(d);
    if IsIsoDate(s) {
      ParseThenFormat(s);
    }
  }

  /** Python's `_days_before_year`. */
  function DaysBeforeYear(y: int): int
    requires y >= 1
  {
    var p := y - 1;
    p * 365 + p / 4 - p / 100 + p / 400
  }

  /** Python's `_days_before_month`: the days of the months before `m`. */
  function DaysBeforeMonth(y: int, m: int): (n: int)
    requires 1 <= m <= 12
    ensures n >= 0
  {
    if m == 1 then 0 else DaysBeforeMonth(y, m - 1) + DaysInMonth(y, m - 1)
  }

  /** `d.toordinal()`: day 1 is 0001-01-01. */
  function Ordinal(d: Date): int
    requires Valid(d)
  {
    DaysBeforeYear(d.year) + DaysBeforeMonth(d.year, d.month) + d.day
  }

  /** `a < b` for two dates: by year, then month, then day. */
  predicate Before(a: Date, b: Date)
  {
    a.year < b.year
    || (a.year == b.year && (a.month < b.month || (a.month == b.month && a.day < b.day)))
  }

  /** One more year adds one multiple of `k` exactly when it is one. */
  lemma DivStep(p: int, k: int)
    requires p >= 0 && k in {4, 100, 400}
    ensures (p + 1) / k == p / k + (if (p + 1) % k == 0 then 1 else 0)
  {
  }

  lemma DaysBeforeYearStep(y: int)
    requires y >= 1
    ensures DaysBeforeYear(y + 1) == DaysBeforeYear(y) + DaysInYear(y)
  {
    var p := y - 1;
    DivStep(p, 4);
    DivStep(p, 100);
    DivStep(p, 400);
    MultipleOfDivisor(y);
  }

  /** A multiple of 400 is one of 100, and a multiple of 100 one of 4. */
  lemma MultipleOfDivisor(y: int)
    ensures y % 400 == 0 ==> y % 100 == 0
    ensures y % 100 == 0 ==> y % 4 == 0
  {
    if y % 400 == 0 {
      var q := y / 400;
      assert y == 100 * (4 * q);
    }
    if y % 100 == 0 {
      var q := y / 100;
      assert y == 4 * (25 * q);
    }
  }

  lemma {:induction false} YearsAdvance(y: int, z: int)
    requires 1 <= y < z
    ensures DaysBeforeYear(y) + DaysInYear(y) <= DaysBeforeYear(z)
    decreases z - y
  {
    DaysBeforeYearStep(y);
    if y + 1 < z {
      YearsAdvance(y + 1, z);
    }
  }

  lemma {:induction false} MonthsAdvance(y: int, m: int, n: int)
    requires 1 <= m < n <= 12
    ensures DaysBeforeMonth(y, m) + DaysInMonth(y, m) <= DaysBeforeMonth(y, n)
  {
    if m < n - 1 {
      MonthsAdvance(y, m, n - 1);
    }
  }

  lemma MonthFitsInYear(y: int, m: int)
    requires 1 <= m <= 12
    ensures DaysBeforeMonth(y, m) + DaysInMonth(y, m) <= DaysInYear(y)
  {
    if m < 12 {
      MonthsAdvance(y, m, 12);
    }
  }

  /** Comparing dates and comparing their ordinals agree, so the day counts
      `add_gaps` takes and the `>=` test of the past filter order dates the
      same way. */
  lemma OrdinalOrder(a: Date, b: Date)
    requires Valid(a) && Valid(b)
    ensures Before(a, b) <==> Ordinal(a) < Ordinal(b)
    ensures a == b <==> Ordinal(a) == Ordinal(b)
  {
    if Before(a, b) {
      OrdinalMonotone(a, b);
    } else if Before(b, a) {
      OrdinalMonotone(b, a);
    }
  }

  lemma OrdinalMonotone(a: Date, b: Date)
    requires Valid(a) && Valid(b) && Before(a, b)
    ensures Ordinal(a) < Ordinal(b)
  {
    if a.year < b.year {
      MonthFitsInYear(a.year, a.month);
      YearsAdvance(a.year, b.year);
    } else if a.month < b.month {
      MonthsAdvance(a.year, a.month, b.month);
    }
  }
}
