/**
 * The slice of Python's `datetime.date` the contact book relies on: the
 * proleptic Gregorian calendar, the ordering of dates, the day count behind
 * date subtraction (`toordinal`), and `strptime` with the format `%Y-%m-%d`.
 */
module Dates {
  import opened Wrappers
  import opened Arith

  /** A calendar date as `datetime.date` holds it. */
  datatype Date = Date(year: int, month: int, day: int)

  /** The range of years `datetime.date` accepts (MINYEAR and MAXYEAR). */
  const MinYear: int := 1
  const MaxYear: int := 9999

  predicate IsLeapYear(y: int) {
    y % 4 == 0 && (y % 100 != 0 || y % 400 == 0)
  }

  function DaysInYear(y: int): int {
    if IsLeapYear(y) then 366 else 365
  }

  function DaysInMonth(y: int, m: int): (n: int)
    requires 1 <= m <= 12
    ensures 28 <= n <= 31
    ensures m == 2 ==> (n == 29 <==> IsLeapYear(y))
  {
    if m == 2 then (if IsLeapYear(y) then 29 else 28)
    else if m == 4 || m == 6 || m == 9 || m == 11 then 30
    else 31
  }

  /** A day of the calendar; the year is bounded below only, so that date
      arithmetic may step past the last year `datetime.date` can hold. */
  predicate IsCalendarDate(d: Date) {
    MinYear <= d.year && 1 <= d.month <= 12 && 1 <= d.day <= DaysInMonth(d.year, d.month)
  }

  /** A date that `datetime.date(year, month, day)` constructs without raising. */
  predicate IsPythonDate(d: Date)
    ensures IsPythonDate(d) ==> MinYear <= d.year <= MaxYear && 1 <= d.month <= 12 && 1 <= d.day <= 31
    ensures d.month == 2 && d.day == 29 && MinYear <= d.year <= MaxYear ==> (IsPythonDate(d) <==> IsLeapYear(d.year))
  {
    IsCalendarDate(d) && d.year <= MaxYear
  }

  /** `a < b` on dates: by year, then month, then day. */
  predicate Before(a: Date, b: Date)
    ensures Before(a, b) ==> a != b && a.year <= b.year
  {
    a.year < b.year || (a.year == b.year && (a.month < b.month || (a.month == b.month && a.day < b.day)))
  }

  /** Before is a strict total order: never both ways, one way unless the
      dates are equal, and transitive. */
  lemma BeforeStrictTotal(a: Date, b: Date, c: Date)
    ensures !(Before(a, b) && Before(b, a))
    ensures !Before(a, b) && !Before(b, a) ==> a == b
    ensures Before(a, b) && Before(b, c) ==> Before(a, c)
  {
  }

  function DaysBeforeYear(y: int): int
    requires y >= MinYear
  {
    var p := y - 1;
    365 * p + p / 4 - p / 100 + p / 400
  }

  function DaysBeforeMonth(y: int, m: int): int
    requires 1 <= m <= 12
  {
    [0, 31, 59, 90, 120, 151, 181, 212, 243, 273, 304, 334][m - 1]
      + (if m > 2 && IsLeapYear(y) then 1 else 0)
  }

  /** `date.toordinal()`: 0001-01-01 is day 1. Subtracting two dates in
      Python gives the difference of their ordinals in days. */
  function Ordinal(d: Date): (n: int)
    requires IsCalendarDate(d)
    ensures n >= 1
    ensures d == Date(1, 1, 1) ==> n == 1
  {
    DaysBeforeYear(d.year) + DaysBeforeMonth(d.year, d.month) + d.day
  }

  /** A multiple of 400 is a multiple of 100, and that of 4. */
  lemma CenturyDivisibility(y: int)
    ensures y % 400 == 0 ==> y % 100 == 0
    ensures y % 100 == 0 ==> y % 4 == 0
  {
    if y % 400 == 0 {
      var k := y / 400;
      assert y == k * 400 + 0;
      DivUnique(y, 100, 4 * k, 0);
    }
    if y % 100 == 0 {
      var k := y / 100;
      assert y == k * 100 + 0;
      DivUnique(y, 4, 25 * k, 0);
    }
  }

  lemma YearLength(y: int)
    requires y >= MinYear
    ensures DaysBeforeYear(y + 1) == DaysBeforeYear(y) + DaysInYear(y)
  {
    var p := y - 1;
    DivSucc(p, 4);
    DivSucc(p, 100);
    DivSucc(p, 400);
    CenturyDivisibility(y);
  }

  /** A month ends where the next one begins; December ends the year. */
  lemma MonthLength(y: int, m: int)
    requires 1 <= m <= 12
    ensures m < 12 ==> DaysBeforeMonth(y, m) + DaysInMonth(y, m) == DaysBeforeMonth(y, m + 1)
    ensures m == 12 ==> DaysBeforeMonth(y, m) + DaysInMonth(y, m) == DaysInYear(y)
  {
  }

  lemma DaysBeforeMonthMonotone(y: int, m1: int, m2: int)
    requires 1 <= m1 < m2 <= 12
    ensures DaysBeforeMonth(y, m1) + DaysInMonth(y, m1) <= DaysBeforeMonth(y, m2)
  {
  }

  /** Every day of year y falls within that year's block of ordinals. */
  lemma OrdinalInYear(d: Date)
    requires IsCalendarDate(d)
    ensures DaysBeforeYear(d.year) < Ordinal(d) <= DaysBeforeYear(d.year) + DaysInYear(d.year)
  {
    MonthLength(d.year, d.month);
    if d.month < 12 {
      DaysBeforeMonthMonotone(d.year, d.month, 12);
      MonthLength(d.year, 12);
    }
  }

  lemma {:induction false} DaysBeforeYearMonotone(a: int, b: int)
    requires MinYear <= a <= b
    ensures DaysBeforeYear(b) - DaysBeforeYear(a) >= 365 * (b - a)
    decreases b - a
  {
    if a < b {
      DaysBeforeYearMonotone(a, b - 1);
      YearLength(b - 1);
    }
  }

  /** Comparing dates and comparing their ordinals agree: Python's date
      subtraction is positive exactly when the first date is the later one. */
  lemma OrdinalOrder(a: Date, b: Date)
    requires IsCalendarDate(a) && IsCalendarDate(b)
    ensures Before(a, b) <==> Ordinal(a) < Ordinal(b)
    ensures a == b <==> Ordinal(a) == Ordinal(b)
  {
    OrdinalInYear(a);
    OrdinalInYear(b);
    if a.year < b.year {
      YearLength(a.year);
      DaysBeforeYearMonotone(a.year + 1, b.year);
    } else if b.year < a.year {
      YearLength(b.year);
      DaysBeforeYearMonotone(b.year + 1, a.year);
    } else if a.month < b.month {
      DaysBeforeMonthMonotone(a.year, a.month, b.month);
    } else if b.month < a.month {
      DaysBeforeMonthMonotone(a.year, b.month, a.month);
    }
  }

  // ---------------------------------------------------------------------
  // strptime(value, '%Y-%m-%d').date()
  // ---------------------------------------------------------------------

  predicate IsDigit(c: char) {
    '0' <= c <= '9'
  }

  predicate AllDigits(s: string) {
    forall i :: 0 <= i < |s| ==> IsDigit(s[i])
  }

  function DigitValue(c: char): int
    requires IsDigit(c)
  {
    c as int - '0' as int
  }

  function DigitChar(n: int): char
    requires 0 <= n <= 9
  {
    ('0' as int + n) as char
  }

  /** The number a run of decimal digits spells. */
  function DigitsValue(s: string): (n: nat)
    requires AllDigits(s)
  {
    if s == [] then 0 else DigitsValue(s[..|s| - 1]) * 10 + DigitValue(s[|s| - 1])
  }

  /** What `%m` matches: `1[0-2]|0[1-9]|[1-9]`. */
  predicate IsMonthToken(t: string) {
    (|t| == 1 && '1' <= t[0] <= '9')
    || (|t| == 2 && ((t[0] == '1' && '0' <= t[1] <= '2') || (t[0] == '0' && '1' <= t[1] <= '9')))
  }

  /** What `%d` matches: `3[01]|[12]\d|0[1-9]|[1-9]| [1-9]`. */
  predicate IsDayToken(t: string) {
    (|t| == 1 && '1' <= t[0] <= '9')
    || (|t| == 2 && ((t[0] == '3' && '0' <= t[1] <= '1')
                    || ('1' <= t[0] <= '2' && IsDigit(t[1]))
                    || (t[0] == '0' && '1' <= t[1] <= '9')
                    || (t[0] == ' ' && '1' <= t[1] <= '9')))
  }

  /** `int(token)` for a month or day token; `int` ignores a leading blank. */
  function TokenValue(t: string): int
    requires IsMonthToken(t) || IsDayToken(t)
  {
    if |t| == 1 then DigitValue(t[0])
    else (if t[0] == ' ' then 0 else 10 * DigitValue(t[0])) + DigitValue(t[1])
  }

  /**
   * `datetime.strptime(s, '%Y-%m-%d').date()`, or None where it raises:
   * four digits of year, a hyphen, a month token, a hyphen and a day token
   * must make up the whole string, and the three numbers must name a date
   * `datetime.date` accepts (year 0000 and 30 February are refused). Because
   * the month token is followed by a hyphen, its length is fixed by where
   * the second hyphen stands.
   */
  function ParseIsoDate(s: string): (r: Option<Date>)
    ensures r.Some? ==> |s| >= 8 && IsPythonDate(r.value) && Pad4(r.value.year) == s[..4]
    ensures r.Some? ==> s in Spellings(r.value)
  {
    if |s| < 8 || !AllDigits(s[..4]) || s[4] != '-' then None
    else
      var j := if s[6] == '-' then 6 else 7;
      if s[j] != '-' || !IsMonthToken(s[5..j]) || !IsDayToken(s[j + 1..]) then None
      else
        var d := Date(DigitsValue(s[..4]), TokenValue(s[5..j]), TokenValue(s[j + 1..]));
        if IsCalendarDate(d) then
          FourDigitsRoundTrip(s[..4]);
          MonthTokenSpelling(s[5..j]);
          DayTokenSpelling(s[j + 1..]);
          assert s == Pad4(d.year) + "-" + s[5..j] + "-" + s[j + 1..];
          Some(d)
        else None
  }

  function Pad2(n: int): (s: string)
    requires 0 <= n <= 99
    ensures |s| == 2 && AllDigits(s)
  {
    [DigitChar(n / 10), DigitChar(n % 10)]
  }

  function Pad4(n: int): (s: string)
    requires 0 <= n <= 9999
    ensures |s| == 4 && AllDigits(s)
  {
    [DigitChar(n / 1000), DigitChar(n / 100 % 10), DigitChar(n / 10 % 10), DigitChar(n % 10)]
  }

  lemma FourDigitsRoundTrip(s: string)
    requires |s| == 4 && AllDigits(s)
    ensures DigitsValue(s) <= 9999 && Pad4(DigitsValue(s)) == s
  {
    var a, b, c, d := DigitValue(s[0]), DigitValue(s[1]), DigitValue(s[2]), DigitValue(s[3]);
    assert s[..3][..2][..1][..0] == [];
    assert DigitsValue(s[..1]) == a by { assert s[..1][..0] == []; }
    assert DigitsValue(s[..2]) == 10 * a + b by { assert s[..2][..1] == s[..1]; }
    assert DigitsValue(s[..3]) == 100 * a + 10 * b + c by { assert s[..3][..2] == s[..2]; }
    assert s[..4] == s;
    var n := DigitsValue(s);
    assert n == 1000 * a + 100 * b + 10 * c + d;
    DivUnique(n, 1000, a, 100 * b + 10 * c + d);
    DivUnique(n, 100, 10 * a + b, 10 * c + d);
    DivUnique(10 * a + b, 10, a, b);
    DivUnique(n, 10, 100 * a + 10 * b + c, d);
    DivUnique(100 * a + 10 * b + c, 10, 10 * a + b, c);
  }

  lemma Decimal4(n: int)
    requires 0 <= n <= 9999
    ensures n == 1000 * (n / 1000) + 100 * (n / 100 % 10) + 10 * (n / 10 % 10) + n % 10
  {
    var q1, q2 := n / 10, n / 100;
    assert n == 10 * q1 + n % 10;
    assert q1 == 10 * (q1 / 10) + q1 % 10;
    assert q1 / 10 == q2;
    assert q2 == 10 * (q2 / 10) + q2 % 10;
    assert q2 / 10 == n / 1000;
  }

  lemma PadInjective(m: int, n: int)
    requires 0 <= m <= 9999 && 0 <= n <= 9999 && Pad4(m) == Pad4(n)
    ensures m == n
  {
    assert Pad4(m)[0] == Pad4(n)[0] && Pad4(m)[1] == Pad4(n)[1];
    assert Pad4(m)[2] == Pad4(n)[2] && Pad4(m)[3] == Pad4(n)[3];
    assert m / 1000 == n / 1000 && m / 100 % 10 == n / 100 % 10;
    assert m / 10 % 10 == n / 10 % 10 && m % 10 == n % 10;
    Decimal4(m);
    Decimal4(n);
  }

  /** The spellings `%m` matches for month m: two digits, or a single digit
      for the months before October. */
  function MonthSpellings(m: int): set<string>
    requires 1 <= m <= 12
  {
    {Pad2(m)} + (if m <= 9 then {[DigitChar(m)]} else {})
  }

  /** The spellings `%d` matches for day d: two digits, or for the first
      nine days a single digit, alone or after a blank. */
  function DaySpellings(d: int): set<string>
    requires 1 <= d <= 31
  {
    {Pad2(d)} + (if d <= 9 then {[DigitChar(d)], [' ', DigitChar(d)]} else {})
  }

  /** Every string that `%Y-%m-%d` reads as the date d: four year digits, a
      hyphen, a month spelling, a hyphen and a day spelling. */
  function Spellings(d: Date): set<string>
    requires 0 <= d.year <= 9999 && 1 <= d.month <= 12 && 1 <= d.day <= 31
  {
    set mt, dt | mt in MonthSpellings(d.month) && dt in DaySpellings(d.day) :: Pad4(d.year) + "-" + mt + "-" + dt
  }

  lemma DigitRoundTrip(c: char)
    requires IsDigit(c)
    ensures DigitChar(DigitValue(c)) == c
  {
  }

  /** Every month token spells its own value. */
  lemma MonthTokenSpelling(t: string)
    requires IsMonthToken(t)
    ensures 1 <= TokenValue(t) <= 12 && t in MonthSpellings(TokenValue(t))
  {
    DigitRoundTrip(t[0]);
    if |t| == 2 {
      DigitRoundTrip(t[1]);
      assert t == Pad2(TokenValue(t));
    } else {
      assert t == [DigitChar(TokenValue(t))];
    }
  }

  /** Every day token spells its own value. */
  lemma DayTokenSpelling(t: string)
    requires IsDayToken(t)
    ensures 1 <= TokenValue(t) <= 31 && t in DaySpellings(TokenValue(t))
  {
    if |t| == 2 {
      DigitRoundTrip(t[1]);
      if t[0] == ' ' {
        assert t == [' ', DigitChar(TokenValue(t))];
      } else {
        DigitRoundTrip(t[0]);
        assert t == Pad2(TokenValue(t));
      }
    } else {
      DigitRoundTrip(t[0]);
      assert t == [DigitChar(TokenValue(t))];
    }
  }

  /** Every spelling of month m is a month token worth m. */
  lemma MonthSpellingToken(m: int, t: string)
    requires 1 <= m <= 12 && t in MonthSpellings(m)
    ensures |t| <= 2 && IsMonthToken(t) && TokenValue(t) == m
    ensures |t| == 2 ==> IsDigit(t[1])
  {
  }

  /** Every spelling of day d is a day token worth d. */
  lemma DaySpellingToken(d: int, t: string)
    requires 1 <= d <= 31 && t in DaySpellings(d)
    ensures IsDayToken(t) && TokenValue(t) == d
  {
  }

  /**
   * `strptime(s, '%Y-%m-%d')` yields the date d exactly when s is one of
   * d's spellings: the parser accepts every spelling and reads nothing else
   * as d.
   */
  lemma ParseSpelling(s: string, d: Date)
    requires IsPythonDate(d)
    ensures ParseIsoDate(s) == Some(d) <==> s in Spellings(d)
  {
    if s in Spellings(d) {
      var mt, dt :| mt in MonthSpellings(d.month) && dt in DaySpellings(d.day)
                    && s == Pad4(d.year) + "-" + mt + "-" + dt;
      ParseOneSpelling(d, mt, dt);
    }
  }

  /** The parser reads the date back from one of its spellings. */
  lemma ParseOneSpelling(d: Date, mt: string, dt: string)
    requires IsPythonDate(d) && mt in MonthSpellings(d.month) && dt in DaySpellings(d.day)
    ensures ParseIsoDate(Pad4(d.year) + "-" + mt + "-" + dt) == Some(d)
  {
    var s := Pad4(d.year) + "-" + mt + "-" + dt;
    MonthSpellingToken(d.month, mt);
    DaySpellingToken(d.day, dt);
    var j := 5 + |mt|;
    assert s[..4] == Pad4(d.year);
    assert s[4] == '-' && s[j] == '-';
    assert s[5..j] == mt && s[j + 1..] == dt;
    assert |mt| == 2 ==> s[6] == mt[1];
    assert j == if s[6] == '-' then 6 else 7;
    FourDigitsRoundTrip(s[..4]);
    PadInjective(DigitsValue(s[..4]), d.year);
    assert Date(DigitsValue(s[..4]), TokenValue(s[5..j]), TokenValue(s[j + 1..])) == d;
  }

  /** `date.isoformat()`: the zero-padded spelling YYYY-MM-DD. */
  function IsoFormat(d: Date): (s: string)
    requires IsPythonDate(d)
    ensures |s| == 10
  {
    Pad4(d.year) + "-" + Pad2(d.month) + "-" + Pad2(d.day)
  }

  /** Every date Python can hold is read back from its ISO spelling. */
  lemma ParseIsoFormat(d: Date)
    requires IsPythonDate(d)
    ensures ParseIsoDate(IsoFormat(d)) == Some(d)
  {
    assert Pad2(d.month) in MonthSpellings(d.month) && Pad2(d.day) in DaySpellings(d.day);
    assert IsoFormat(d) in Spellings(d);
    ParseSpelling(IsoFormat(d), d);
  }
}
