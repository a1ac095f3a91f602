/** Naive (time-zone-free) Python `datetime` values as the scraper uses them:
    parsing with `strptime("%Y-%m-%d %H:%M")`, formatting with
    `strftime("%Y%m%d%H%M%S")`, comparison, and subtraction of a whole number
    of days. */
module Clock {
  import opened Wrappers
  import opened Text

  datatype Date = Date(year: int, month: int, day: int)

  datatype DateTime = DateTime(date: Date, hour: int, minute: int, second: int, micro: int)

  predicate IsLeap(y: int)
  {
    y % 4 == 0 && (y % 100 != 0 || y % 400 == 0)
  }

  function DaysInMonth(y: int, m: int): int
  {
    if m == 2 then (if IsLeap(y) then 29 else 28)
    else if m == 4 || m == 6 || m == 9 || m == 11 then 30
    else 31
  }

  function DaysInYear(y: int): int
  {
    if IsLeap(y) then 366 else 365
  }

  /** The dates Python's `date` accepts: years 1 to 9999 of the proleptic
      Gregorian calendar. */
  predicate ValidDate(d: Date)
  {
    1 <= d.year <= 9999 && 1 <= d.month <= 12 && 1 <= d.day <= DaysInMonth(d.year, d.month)
  }

  predicate ValidDateTime(t: DateTime)
  {
    ValidDate(t.date) && 0 <= t.hour < 24 && 0 <= t.minute < 60 && 0 <= t.second < 60
    && 0 <= t.micro < 1000000
  }

  /** Midnight at the start of a day (`datetime.combine(d, datetime.min.time())`). */
  function Midnight(d: Date): DateTime
  {
    DateTime(d, 0, 0, 0, 0)
  }

  /** Days of year `y` that lie before the first of month `m`. */
  function DaysBeforeMonth(y: int, m: int): int
  {
    var leap := if m > 2 && IsLeap(y) then 1 else 0;
    leap + (
      if m <= 1 then 0 else if m == 2 then 31 else if m == 3 then 59
      else if m == 4 then 90 else if m == 5 then 120 else if m == 6 then 151
      else if m == 7 then 181 else if m == 8 then 212 else if m == 9 then 243
      else if m == 10 then 273 else if m == 11 then 304 else 334)
  }

  /** Days from 0001-01-01 up to the first of January of year `y`. */
  function DaysBeforeYear(y: int): int
  {
    var k := y - 1;
    k * 365 + k / 4 - k / 100 + k / 400
  }

  /** Python's `date.toordinal()`: 0001-01-01 is day 1. */
  function Ordinal(d: Date): int
  {
    DaysBeforeYear(d.year) + DaysBeforeMonth(d.year, d.month) + d.day
  }

  const MicrosPerDay: int := 86_400_000_000

  /** The microsecond count Python's `datetime` arithmetic works with: adding
      or subtracting a `timedelta` moves this count and nothing else. */
  function Micros(t: DateTime): int
  {
    (((Ordinal(t.date) * 24 + t.hour) * 60 + t.minute) * 60 + t.second) * 1_000_000 + t.micro
  }

  predicate DateBefore(a: Date, b: Date)
  {
    a.year < b.year || (a.year == b.year && (a.month < b.month || (a.month == b.month && a.day < b.day)))
  }

  /** Python's `a < b` on naive datetimes: field by field, most significant first. */
  predicate Before(a: DateTime, b: DateTime)
  {
    DateBefore(a.date, b.date)
    || (a.date == b.date
        && (a.hour < b.hour
            || (a.hour == b.hour
                && (a.minute < b.minute
                    || (a.minute == b.minute
                        && (a.second < b.second || (a.second == b.second && a.micro < b.micro)))))))
  }

  lemma YearLength(y: int)
    requires y >= 1
    ensures DaysBeforeYear(y + 1) == DaysBeforeYear(y) + DaysInYear(y)
  {
    var k := y - 1;
    DivStep(k, 4);
    DivStep(k, 100);
    DivStep(k, 400);
    DivisibleChain(y);
    assert DaysBeforeYear(y + 1) == (k + 1) * 365 + (k + 1) / 4 - (k + 1) / 100 + (k + 1) / 400;
  }

  /** A multiple of 400 is a multiple of 100, and that one of 4. */
  lemma DivisibleChain(y: int)
    ensures y % 400 == 0 ==> y % 100 == 0
    ensures y % 100 == 0 ==> y % 4 == 0
  {
    if y % 400 == 0 {
      DivUnique(y, 100, 4 * (y / 400), 0);
    }
    if y % 100 == 0 {
      DivUnique(y, 4, 25 * (y / 100), 0);
    }
  }

  /** Adding one to a count adds one to its quotient exactly at a multiple. */
  lemma DivStep(k: int, n: int)
    requires k >= 0 && n > 0
    ensures (k + 1) / n == k / n + (if (k + 1) % n == 0 then 1 else 0)
  {
    var q, r := k / n, k % n;
    assert k == q * n + r;
    if r + 1 == n {
      assert k + 1 == (q + 1) * n + 0;
      DivUnique(k + 1, n, q + 1, 0);
    } else {
      DivUnique(k + 1, n, q, r + 1);
    }
  }

  /** The quotient and remainder of a division are the only ones in range. */
  lemma DivUnique(a: int, n: int, q: int, r: int)
    requires n > 0 && 0 <= r < n && a == q * n + r
    ensures a / n == q && a % n == r
  {
    var q', r' := a / n, a % n;
    assert q' * n + r' == a;
    if q > q' {
      assert (q - q') * n == q * n - q' * n;
      MulAtLeast(q - q', n);
    } else if q < q' {
      assert (q' - q) * n == q' * n - q * n;
      MulAtLeast(q' - q, n);
    }
  }

  lemma {:induction false} MulAtLeast(d: int, n: int)
    requires d >= 1 && n >= 0
    ensures d * n >= n
    decreases d
  {
    if d > 1 {
      MulAtLeast(d - 1, n);
      assert d * n == (d - 1) * n + n;
    }
  }

  lemma {:induction false} YearsMonotone(x: int, y: int)
    requires 1 <= x <= y
    ensures DaysBeforeYear(x) + (y - x) * 365 <= DaysBeforeYear(y)
    decreases y - x
  {
    if x < y {
      YearLength(x);
      YearsMonotone(x + 1, y);
    }
  }

  /** The last day of a month is still before the first day of the next. */
  lemma MonthFits(y: int, m: int)
    requires 1 <= m <= 12
    ensures DaysBeforeMonth(y, m) + DaysInMonth(y, m) == (if m == 12 then DaysInYear(y) else DaysBeforeMonth(y, m + 1))
  {
  }

  lemma {:induction false} MonthsMonotone(y: int, m: int, n: int)
    requires 1 <= m < n <= 12
    ensures DaysBeforeMonth(y, m) + DaysInMonth(y, m) <= DaysBeforeMonth(y, n)
    decreases n - m
  {
    MonthFits(y, m);
    if m + 1 < n {
      MonthsMonotone(y, m + 1, n);
    }
  }

  /** Calendar order and day numbers agree. */
  lemma OrdinalMonotone(a: Date, b: Date)
    requires ValidDate(a) && ValidDate(b) && DateBefore(a, b)
    ensures Ordinal(a) < Ordinal(b)
  {
    if a.year < b.year {
      MonthFits(a.year, a.month);
      if a.month < 12 {
        MonthsMonotone(a.year, a.month, 12);
        MonthFits(a.year, 12);
      }
      YearLength(a.year);
      YearsMonotone(a.year + 1, b.year);
    } else if a.month < b.month {
      MonthsMonotone(a.year, a.month, b.month);
    }
  }

  /** Python compares datetimes field by field; that order is exactly the
      order of their microsecond counts. */
  lemma MicrosOrder(a: DateTime, b: DateTime)
    requires ValidDateTime(a) && ValidDateTime(b)
    ensures Before(a, b) <==> Micros(a) < Micros(b)
    ensures a == b <==> Micros(a) == Micros(b)
  {
    if DateBefore(a.date, b.date) {
      OrdinalMonotone(a.date, b.date);
      DayBound(a, Ordinal(b.date));
    } else if DateBefore(b.date, a.date) {
      OrdinalMonotone(b.date, a.date);
      DayBound(b, Ordinal(a.date));
    } else {
      assert a.date == b.date;
    }
  }

  /** A time of day stays below the start of any later day. */
  lemma DayBound(t: DateTime, later: int)
    requires ValidDateTime(t) && Ordinal(t.date) < later
    ensures Micros(t) < later * MicrosPerDay
  {
    var o := Ordinal(t.date);
    assert Micros(t) == o * MicrosPerDay + ((t.hour * 60 + t.minute) * 60 + t.second) * 1_000_000 + t.micro;
    assert ((t.hour * 60 + t.minute) * 60 + t.second) * 1_000_000 + t.micro < MicrosPerDay;
    assert o * MicrosPerDay + MicrosPerDay <= later * MicrosPerDay;
  }

  // ---------------------------------------------------------------------
  // Digits

  predicate IsDigit(c: char)
  {
    '0' <= c <= '9'
  }

  predicate AllDigits(s: string)
  {
    forall i :: 0 <= i < |s| ==> IsDigit(s[i])
  }

  /** The value of a string of decimal digits (Python's `int(s)`). */
  function DigitsValue(s: string): nat
    requires AllDigits(s)
  {
    if s == [] then 0 else DigitsValue(s[..|s| - 1]) * 10 + (s[|s| - 1] as int - '0' as int)
  }

  function Pow10(n: nat): nat
  {
    if n == 0 then 1 else 10 * Pow10(n - 1)
  }

  lemma {:induction false} DigitsBound(s: string)
    requires AllDigits(s)
    ensures DigitsValue(s) < Pow10(|s|)
    decreases |s|
  {
    if s != [] {
      DigitsBound(s[..|s| - 1]);
    }
  }

  /** `n` written with exactly `width` digits, zero-padded on the left. */
  function Pad(n: nat, width: nat): (r: string)
    ensures |r| == width && AllDigits(r)
  {
    if width == 0 then "" else Pad(n / 10, width - 1) + [('0' as int + n % 10) as char]
  }

  /** Zero-padding loses nothing as long as the number fits the width. */
  lemma {:induction false} PadValue(n: nat, width: nat)
    requires n < Pow10(width)
    ensures DigitsValue(Pad(n, width)) == n
    decreases width
  {
    if width > 0 {
      var p := Pad(n / 10, width - 1);
      PadValue(n / 10, width - 1);
      assert (p + [('0' as int + n % 10) as char])[..width - 1] == p;
    }
  }

  lemma PadInjective(a: nat, b: nat, width: nat)
    requires a < Pow10(width) && b < Pow10(width)
    ensures Pad(a, width) == Pad(b, width) <==> a == b
  {
    PadValue(a, width);
    PadValue(b, width);
  }

  // ---------------------------------------------------------------------
  // strptime("%Y-%m-%d %H:%M")

  /** One `%m`, `%d`, `%H` or `%M` field: one or two digits whose value lies
      in `lo..hi` (the alternatives of Python's `_strptime` patterns for
      these directives accept exactly this). */
  function ParseField(s: string, lo: int, hi: int): (r: Option<int>)
    ensures r.Some? ==> lo <= r.value <= hi
  {
    if 1 <= |s| <= 2 && AllDigits(s) && lo <= DigitsValue(s) <= hi then Some(DigitsValue(s)) else None
  }

  /** The `%Y-%m-%d` part: four-digit year, then month and day, all checked
      against the calendar as `datetime` does. */
  function ParseDate(s: string): (r: Option<Date>)
    ensures r.Some? ==> ValidDate(r.value)
  {
    var f := Split(s, "-");
    if |f| != 3 || |f[0]| != 4 || !AllDigits(f[0]) then None
    else
      var y := DigitsValue(f[0]);
      DigitsBound(f[0]);
      assert Pow10(4) == 10000;
      match (ParseField(f[1], 1, 12), ParseField(f[2], 1, 31))
      case (Some(m), Some(d)) =>
        if 1 <= y && d <= DaysInMonth(y, m) then Some(Date(y, m, d)) else None
      case _ => None
  }

  /** The `%H:%M` part. */
  function ParseClock(s: string): (r: Option<(int, int)>)
    ensures r.Some? ==> 0 <= r.value.0 < 24 && 0 <= r.value.1 < 60
  {
    var f := Split(s, ":");
    if |f| != 2 then None
    else match (ParseField(f[0], 0, 23), ParseField(f[1], 0, 59))
      case (Some(h), Some(m)) => Some((h, m))
      case _ => None
  }

  /** `datetime.strptime(f"{date} {clock}", "%Y-%m-%d %H:%M")`, `None` where
      it raises `ValueError`. */
  function ParseStamp(date: string, clock: string): (r: Option<DateTime>)
    ensures r.Some? ==> ValidDateTime(r.value) && r.value.second == 0 && r.value.micro == 0
    ensures r.Some? ==> ParseDate(date) == Some(r.value.date)
  {
    match (ParseDate(date), ParseClock(clock))
    case (Some(d), Some(hm)) => Some(DateTime(d, hm.0, hm.1, 0, 0))
    case _ => None
  }

  function FormatDate(d: Date): string
    requires ValidDate(d)
  {
    Pad(d.year, 4) + "-" + Pad(d.month, 2) + "-" + Pad(d.day, 2)
  }

  function FormatClock(hour: nat, minute: nat): string
  {
    Pad(hour, 2) + ":" + Pad(minute, 2)
  }

  lemma DigitsHaveNo(s: string, c: char)
    requires AllDigits(s) && !IsDigit(c)
    ensures c !in s
  {
  }

  /** Splitting three dash-free pieces joined by single dashes. */
  lemma SplitThree(a: string, b: string, c: string, sep: char)
    requires sep !in a && sep !in b && sep !in c
    ensures Split(a + [sep] + b + [sep] + c, [sep]) == [a, b, c]
  {
    var parts := [a, b, c];
    assert parts[1..] == [b, c];
    assert parts[1..][1..] == [c];
    assert Join([b, c], [sep]) == b + [sep] + c;
    assert Join(parts, [sep]) == a + [sep] + (b + [sep] + c);
    assert a + [sep] + (b + [sep] + c) == a + [sep] + b + [sep] + c;
    SplitJoinChar(parts, sep);
  }

  lemma SplitTwo(a: string, b: string, sep: char)
    requires sep !in a && sep !in b
    ensures Split(a + [sep] + b, [sep]) == [a, b]
  {
    var parts := [a, b];
    assert parts[1..] == [b];
    assert Join(parts, [sep]) == a + [sep] + b;
    SplitJoinChar(parts, sep);
  }

  /** A date written as `YYYY-MM-DD` and a time written as `HH:MM` parse back
      to that date and time. */
  lemma ParseFormat(d: Date, hour: nat, minute: nat)
    requires ValidDate(d) && hour < 24 && minute < 60
    ensures ParseStamp(FormatDate(d), FormatClock(hour, minute)) == Some(DateTime(d, hour, minute, 0, 0))
  {
    var y, m, dd := Pad(d.year, 4), Pad(d.month, 2), Pad(d.day, 2);
    PadValue(d.year, 4);
    PadValue(d.month, 2);
    PadValue(d.day, 2);
    DigitsHaveNo(y, '-');
    DigitsHaveNo(m, '-');
    DigitsHaveNo(dd, '-');
    SplitThree(y, m, dd, '-');
    assert ParseDate(FormatDate(d)) == Some(d);
    var h, mi := Pad(hour, 2), Pad(minute, 2);
    PadValue(hour, 2);
    PadValue(minute, 2);
    DigitsHaveNo(h, ':');
    DigitsHaveNo(mi, ':');
    SplitTwo(h, mi, ':');
    assert ParseClock(FormatClock(hour, minute)) == Some((hour, minute));
  }

  // ---------------------------------------------------------------------
  // strftime("%Y%m%d%H%M%S")

  /** `t.strftime("%Y%m%d%H%M%S")`: fourteen digits, most significant first. */
  function Compact(t: DateTime): (r: string)
    requires ValidDateTime(t)
    ensures |r| == 14 && AllDigits(r)
  {
    Pad(t.date.year, 4) + Pad(t.date.month, 2) + Pad(t.date.day, 2)
    + Pad(t.hour, 2) + Pad(t.minute, 2) + Pad(t.second, 2)
  }

  /** Reads the fields back out of fourteen digits. */
  function ReadCompact(s: string): (r: Option<DateTime>)
  {
    if |s| == 14 && AllDigits(s) then
      Some(DateTime(Date(DigitsValue(s[..4]), DigitsValue(s[4..6]), DigitsValue(s[6..8])),
                    DigitsValue(s[8..10]), DigitsValue(s[10..12]), DigitsValue(s[12..14]), 0))
    else None
  }

  /** The six fields of the fourteen digits sit at fixed offsets. */
  lemma CompactFields(y: string, mo: string, d: string, h: string, mi: string, se: string)
    requires |y| == 4 && |mo| == 2 && |d| == 2 && |h| == 2 && |mi| == 2 && |se| == 2
    requires AllDigits(y) && AllDigits(mo) && AllDigits(d) && AllDigits(h) && AllDigits(mi) && AllDigits(se)
    ensures var s := y + mo + d + h + mi + se;
            && |s| == 14 && AllDigits(s)
            && s[..4] == y && s[4..6] == mo && s[6..8] == d
            && s[8..10] == h && s[10..12] == mi && s[12..14] == se
  {
    var s := y + mo + d + h + mi + se;
    assert s[..4] == y;
    assert s[4..6] == mo;
    assert s[6..8] == d;
    assert s[8..10] == h;
    assert s[10..12] == mi;
    assert s[12..14] == se;
  }

  /** `Compact` is undone by `ReadCompact` on every valid datetime, up to the
      microseconds it does not print. */
  lemma CompactRoundTrip(t: DateTime)
    requires ValidDateTime(t)
    ensures ReadCompact(Compact(t)) == Some(t.(micro := 0))
  {
    CompactFields(Pad(t.date.year, 4), Pad(t.date.month, 2), Pad(t.date.day, 2),
                  Pad(t.hour, 2), Pad(t.minute, 2), Pad(t.second, 2));
    PadValue(t.date.year, 4);
    PadValue(t.date.month, 2);
    PadValue(t.date.day, 2);
    PadValue(t.hour, 2);
    PadValue(t.minute, 2);
    PadValue(t.second, 2);
  }

  /** Two valid datetimes print the same fourteen digits exactly when they
      agree on everything down to the second. */
  lemma CompactInjective(a: DateTime, b: DateTime)
    requires ValidDateTime(a) && ValidDateTime(b)
    ensures Compact(a) == Compact(b) <==> a.(micro := 0) == b.(micro := 0)
  {
    CompactRoundTrip(a);
    CompactRoundTrip(b);
  }

  lemma FormatDateChars(d: Date)
    requires ValidDate(d)
    ensures forall c :: c in FormatDate(d) ==> IsDigit(c) || c == '-'
  {
  }

  lemma FormatClockChars(hour: nat, minute: nat)
    ensures forall c :: c in FormatClock(hour, minute) ==> IsDigit(c) || c == ':'
    ensures |FormatClock(hour, minute)| == 5
  {
  }

  /** A successful `%H:%M` parse reads at most five characters, so anything
      left after the minutes on the same line makes `strptime` fail. */
  lemma ClockLength(s: string)
    requires ParseClock(s).Some?
    ensures |s| <= 5
  {
    var f := Split(s, ":");
    assert f[1..] == [f[1]];
    assert s == f[0] + ":" + f[1];
  }
}
