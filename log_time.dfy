/**
  Leading log timestamps `YYYY-MM-DDTHH:MM:SS.<digits>Z` (a subset of the
  date-time of section 5.6 of RFC 3339), the proleptic Gregorian calendar
  that Python's `datetime` uses, and conversion to integer instants.
 */
module LogTime {
  import opened Wrappers
  import opened Text

  /** The fields read from a leading timestamp; `fraction` is the whole digit run before 'Z'. */
  datatype Stamp = Stamp(year: nat, month: nat, day: nat, hour: nat, minute: nat, second: nat, fraction: string)

  /** The longest run of digits at the start of `s`. */
  function DigitRun(s: string): (r: string)
    ensures r <= s && AllDigits(r)
    ensures |r| == |s| || !IsDigit(s[|r|])
  {
    if |s| > 0 && IsDigit(s[0]) then
      var t := DigitRun(s[1..]);
      assert [s[0]] + t <= s;
      [s[0]] + t
    else []
  }

  /** The `len` characters from `from` on are digits. */
  predicate DigitsAt(line: string, from: nat, len: nat)
    requires from + len <= |line|
  {
    forall i :: from <= i < from + len ==> IsDigit(line[i])
  }

  /** Digits at the positions of `YYYY-MM-DDTHH:MM:SS.` and the separators between them. */
  predicate HeadShape(line: string) {
    && |line| >= 20
    && DigitsAt(line, 0, 4) && DigitsAt(line, 5, 2) && DigitsAt(line, 8, 2)
    && DigitsAt(line, 11, 2) && DigitsAt(line, 14, 2) && DigitsAt(line, 17, 2)
    && line[4] == '-' && line[7] == '-' && line[10] == 'T'
    && line[13] == ':' && line[16] == ':' && line[19] == '.'
  }

  /**
    What `re.match(r'\d{4}-\d{2}-\d{2}T\d{2}:\d{2}:\d{2}\.(\d+)Z', line)` accepts:
    the head, at least one fraction digit, and a 'Z' right after the last of them.
   */
  predicate HasTimePrefix(line: string) {
    && HeadShape(line)
    && var run := DigitRun(line[20..]);
    && |run| >= 1 && 20 + |run| < |line| && line[20 + |run|] == 'Z'
  }

  function Field(line: string, from: nat, len: nat): nat
    requires from + len <= |line|
    requires DigitsAt(line, from, len)
  {
    DigitsValue(line[from..from + len])
  }

  /** The value of the two digits of `line` at `i` and `i + 1`. */
  function TwoDigitsAt(line: string, i: nat): nat
    requires i + 1 < |line| && IsDigit(line[i]) && IsDigit(line[i + 1])
  {
    10 * DigitValue(line[i]) + DigitValue(line[i + 1])
  }

  /**
    The fields of a line that has a timestamp prefix: each field is the
    decimal value of its digits in the line, and the fraction is every digit
    between the '.' and the 'Z'.
   */
  function ReadStamp(line: string): (s: Stamp)
    requires HasTimePrefix(line)
    ensures s.year == 1000 * DigitValue(line[0]) + 100 * DigitValue(line[1]) + TwoDigitsAt(line, 2)
    ensures s.month == TwoDigitsAt(line, 5) && s.day == TwoDigitsAt(line, 8)
    ensures s.hour == TwoDigitsAt(line, 11) && s.minute == TwoDigitsAt(line, 14) && s.second == TwoDigitsAt(line, 17)
    ensures s.month < 100 && s.day < 100 && s.hour < 100 && s.minute < 100 && s.second < 100
    ensures |s.fraction| >= 1 && AllDigits(s.fraction)
    ensures 20 + |s.fraction| < |line| && s.fraction == line[20..20 + |s.fraction|] && line[20 + |s.fraction|] == 'Z'
  {
    var st := Stamp(Field(line, 0, 4), Field(line, 5, 2), Field(line, 8, 2),
                    Field(line, 11, 2), Field(line, 14, 2), Field(line, 17, 2), DigitRun(line[20..]));
    FourDigitsValue(line[0..4]);
    TwoDigitsValue(line[5..7]);
    TwoDigitsValue(line[8..10]);
    TwoDigitsValue(line[11..13]);
    TwoDigitsValue(line[14..16]);
    TwoDigitsValue(line[17..19]);
    st
  }

  lemma TwoDigitsValue(s: string)
    requires |s| == 2 && AllDigits(s)
    ensures DigitsValue(s) == 10 * DigitValue(s[0]) + DigitValue(s[1])
  {
    assert s[..1][..0] == [];
    assert DigitsValue(s[..1]) == DigitValue(s[0]);
  }

  lemma FourDigitsValue(s: string)
    requires |s| == 4 && AllDigits(s)
    ensures DigitsValue(s) == 1000 * DigitValue(s[0]) + 100 * DigitValue(s[1]) + 10 * DigitValue(s[2]) + DigitValue(s[3])
  {
    ThreeDigitsValue(s[..3]);
  }

  lemma ThreeDigitsValue(s: string)
    requires |s| == 3 && AllDigits(s)
    ensures DigitsValue(s) == 100 * DigitValue(s[0]) + 10 * DigitValue(s[1]) + DigitValue(s[2])
  {
    assert s[..2][..1][..0] == [];
    assert DigitsValue(s[..2][..1]) == DigitValue(s[0]);
    assert DigitsValue(s[..2]) == 10 * DigitValue(s[0]) + DigitValue(s[1]);
  }

  // ---------------------------------------------------------------------------
  // The calendar of Python's `datetime`

  predicate IsLeap(y: int) {
    y % 4 == 0 && (y % 100 != 0 || y % 400 == 0)
  }

  function DaysInMonth(y: int, m: int): nat
    requires 1 <= m <= 12
  {
    if m == 2 then (if IsLeap(y) then 29 else 28)
    else if m == 4 || m == 6 || m == 9 || m == 11 then 30
    else 31
  }

  /** The stamp names a real date and time: what `datetime.strptime` accepts (seconds 0..59). */
  predicate ValidCalendar(s: Stamp) {
    && 1 <= s.year <= 9999
    && 1 <= s.month <= 12
    && 1 <= s.day <= DaysInMonth(s.year, s.month)
    && s.hour < 24 && s.minute < 60 && s.second < 60
  }

  /** Days before the first of month `m` in year `y`. */
  function DaysBeforeMonth(y: int, m: int): nat
    requires 1 <= m <= 12
  {
    var table := [0, 31, 59, 90, 120, 151, 181, 212, 243, 273, 304, 334];
    table[m - 1] + (if m > 2 && IsLeap(y) then 1 else 0)
  }

  /** Days from 0001-01-01 to the given date (Python's `toordinal() - 1`). */
  function DayNumber(y: nat, m: nat, d: nat): int
    requires y >= 1 && 1 <= m <= 12
  {
    var py := y - 1;
    py * 365 + py / 4 - py / 100 + py / 400 + DaysBeforeMonth(y, m) + d - 1
  }

  /** Seconds since 0001-01-01T00:00:00 of the whole-second part of a valid stamp. */
  function WholeSeconds(s: Stamp): int
    requires ValidCalendar(s)
  {
    ((DayNumber(s.year, s.month, s.day) * 24 + s.hour) * 60 + s.minute) * 60 + s.second
  }

  /** The i-th fraction digit, or 0 past the end: what right-padding with '0' supplies. */
  function FracDigit(frac: string, i: nat): nat
    requires AllDigits(frac)
  {
    if i < |frac| then DigitValue(frac[i]) else 0
  }

  /** `s.ljust(w, '0')` on a string no longer than `w`. */
  function PadRight(s: string, w: nat): (r: string)
    requires |s| <= w
    ensures |r| == w && s <= r
  {
    s + seq(w - |s|, _ => '0')
  }

  /** `int(frac[:3].ljust(3, '0'))`: the milliseconds of a fraction. */
  function Millis(frac: string): (ms: nat)
    requires AllDigits(frac)
    ensures ms < 1000
    ensures ms == 100 * FracDigit(frac, 0) + 10 * FracDigit(frac, 1) + FracDigit(frac, 2)
  {
    var head := if |frac| <= 3 then frac else frac[..3];
    var p := PadRight(head, 3);
    assert AllDigits(p);
    ThreeDigitsValue(p);
    assert forall i :: 0 <= i < 3 ==> DigitValue(p[i]) == FracDigit(frac, i);
    DigitsValue(p)
  }

  // ---------------------------------------------------------------------------
  // extract_time of the timeline scripts

  /** A `datetime` value: calendar fields and microseconds. */
  datatype DateTime = DateTime(year: nat, month: nat, day: nat, hour: nat, minute: nat, second: nat, microsecond: nat)

  predicate ValidDateTime(t: DateTime) {
    && ValidCalendar(Stamp(t.year, t.month, t.day, t.hour, t.minute, t.second, ""))
    && t.microsecond < 1000000
  }

  /**
    A line whose leading timestamp `strptime` would accept; Python raises on
    any other line that has the timestamp shape, so callers require this.
   */
  predicate CalendarOk(line: string) {
    HasTimePrefix(line) ==> ValidCalendar(ReadStamp(line))
  }

  /**
    `extract_time`: a time only for a line that starts with the timestamp
    shape, carrying the first three fraction digits (right-padded with
    zeros) as milliseconds.
   */
  function ExtractTime(line: string): (r: Option<DateTime>)
    requires CalendarOk(line)
    ensures r.Some? <==> HasTimePrefix(line)
    ensures r.Some? ==> ValidDateTime(r.value)
    ensures r.Some? ==> var s := ReadStamp(line);
              && r.value.year == s.year && r.value.month == s.month && r.value.day == s.day
              && r.value.hour == s.hour && r.value.minute == s.minute && r.value.second == s.second
  {
    if HasTimePrefix(line) then
      var s := ReadStamp(line);
      Some(DateTime(s.year, s.month, s.day, s.hour, s.minute, s.second, Millis(s.fraction) * 1000))
    else None
  }

  /** The microsecond of an extracted time is a whole number of milliseconds: the first three fraction digits. */
  lemma ExtractTimeMillis(line: string)
    requires CalendarOk(line) && HasTimePrefix(line)
    ensures var t, frac := ExtractTime(line).value, DigitRun(line[20..]);
            && t.microsecond % 1000 == 0
            && t.microsecond / 1000 == 100 * FracDigit(frac, 0) + 10 * FracDigit(frac, 1) + FracDigit(frac, 2)
  {
  }

  /** Milliseconds since 0001-01-01T00:00:00 of a valid time. */
  function ToMillis(t: DateTime): int
    requires ValidDateTime(t)
  {
    WholeSeconds(Stamp(t.year, t.month, t.day, t.hour, t.minute, t.second, "")) * 1000 + t.microsecond / 1000
  }

  /**
    The instant of a line's leading timestamp, in milliseconds. Total: a line
    that `strptime` would reject has none (the engine requires there is no such line).
   */
  function LineInstant(line: string): Option<int> {
    if HasTimePrefix(line) && ValidCalendar(ReadStamp(line)) then
      match ExtractTime(line) case Some(t) => Some(ToMillis(t))
    else None
  }

  /** On a line `strptime` accepts, the instant is exactly what `extract_time` gives, in milliseconds. */
  lemma LineInstantOf(line: string)
    requires CalendarOk(line)
    ensures LineInstant(line) == match ExtractTime(line) case None => None case Some(t) => Some(ToMillis(t))
  {
    if !HasTimePrefix(line) {
      assert ExtractTime(line).None?;
    }
  }

  // ---------------------------------------------------------------------------
  // Chronological order

  /** `a < b` between two `datetime` values: field by field, most significant first. */
  predicate Before(a: DateTime, b: DateTime) {
    || a.year < b.year
    || (a.year == b.year && a.month < b.month)
    || (a.year == b.year && a.month == b.month && a.day < b.day)
    || (a.year == b.year && a.month == b.month && a.day == b.day && a.hour < b.hour)
    || (a.year == b.year && a.month == b.month && a.day == b.day && a.hour == b.hour && a.minute < b.minute)
    || (a.year == b.year && a.month == b.month && a.day == b.day && a.hour == b.hour && a.minute == b.minute
        && a.second < b.second)
    || (a.year == b.year && a.month == b.month && a.day == b.day && a.hour == b.hour && a.minute == b.minute
        && a.second == b.second && a.microsecond < b.microsecond)
  }

  /** Microseconds since 0001-01-01T00:00:00 of a valid time. */
  function ToMicros(t: DateTime): int
    requires ValidDateTime(t)
  {
    WholeSeconds(Stamp(t.year, t.month, t.day, t.hour, t.minute, t.second, "")) * 1000000 + t.microsecond
  }

  /** `datetime.min`, which sorts before every other time. */
  const MinDateTime := DateTime(1, 1, 1, 0, 0, 0, 0)

  /** The first day of year `y`, counted from 0001-01-01. */
  function YearStart(y: nat): int
    requires y >= 1
  {
    var py := y - 1;
    py * 365 + py / 4 - py / 100 + py / 400
  }

  lemma YearLength(y: nat)
    requires y >= 1
    ensures YearStart(y + 1) == YearStart(y) + 365 + (if IsLeap(y) then 1 else 0)
  {
    var py := y - 1;
    QuotientStep4(py);
    QuotientStep100(py);
    QuotientStep400(py);
    LeapCount(y);
  }

  /** Multiples of 4, less multiples of 100, plus multiples of 400: exactly the leap years. */
  lemma LeapCount(y: nat)
    ensures (if y % 4 == 0 then 1 else 0) - (if y % 100 == 0 then 1 else 0) + (if y % 400 == 0 then 1 else 0)
            == (if IsLeap(y) then 1 else 0)
  {
    if y % 100 == 0 {
      CenturyDividesBy4(y);
    }
    if y % 400 == 0 {
      QuadricentennialIsCentury(y);
    }
  }

  lemma CenturyDividesBy4(y: nat)
    requires y % 100 == 0
    ensures y % 4 == 0
  {
    var q := y / 100;
    assert y == 100 * q;
    MultipleOf4(y, 25 * q);
  }

  lemma MultipleOf4(y: int, k: int)
    requires y == 4 * k
    ensures y % 4 == 0
  {
  }

  lemma MultipleOf100(y: int, k: int)
    requires y == 100 * k
    ensures y % 100 == 0
  {
  }

  lemma QuadricentennialIsCentury(y: nat)
    requires y % 400 == 0
    ensures y % 100 == 0
  {
    var q := y / 400;
    assert y == 400 * q;
    MultipleOf100(y, 4 * q);
  }

  /** Counting one more year adds one to the count of multiples of 4 exactly at a multiple of 4. */
  lemma QuotientStep4(n: nat)
    ensures (n + 1) / 4 == n / 4 + (if (n + 1) % 4 == 0 then 1 else 0)
  {
  }

  lemma QuotientStep100(n: nat)
    ensures (n + 1) / 100 == n / 100 + (if (n + 1) % 100 == 0 then 1 else 0)
  {
  }

  lemma QuotientStep400(n: nat)
    ensures (n + 1) / 400 == n / 400 + (if (n + 1) % 400 == 0 then 1 else 0)
  {
  }

  lemma DaysBeforeNextMonth(y: nat, m: nat)
    requires 1 <= m < 12
    ensures DaysBeforeMonth(y, m + 1) == DaysBeforeMonth(y, m) + DaysInMonth(y, m)
  {
  }

  lemma {:induction false} DaysBeforeLater(y: nat, m1: nat, m2: nat)
    requires 1 <= m1 < m2 <= 12
    ensures DaysBeforeMonth(y, m1) + DaysInMonth(y, m1) <= DaysBeforeMonth(y, m2)
    decreases m2 - m1
  {
    DaysBeforeNextMonth(y, m1);
    if m1 + 1 < m2 {
      DaysBeforeLater(y, m1 + 1, m2);
    }
  }

  /** Every day of a year comes before the first day of any later year. */
  lemma {:induction false} DayBeforeLaterYear(y1: nat, m1: nat, d1: nat, y2: nat)
    requires 1 <= y1 < y2 && 1 <= m1 <= 12 && 1 <= d1 <= DaysInMonth(y1, m1)
    ensures DayNumber(y1, m1, d1) < YearStart(y2)
    decreases y2 - y1
  {
    if m1 < 12 {
      DaysBeforeLater(y1, m1, 12);
    }
    YearLength(y1);
    if y1 + 1 < y2 {
      DayBeforeLaterYear(y1 + 1, 1, 1, y2);
    }
  }

  /** Calendar order is day-number order. */
  lemma DayNumberOrder(y1: nat, m1: nat, d1: nat, y2: nat, m2: nat, d2: nat)
    requires 1 <= y1 && 1 <= m1 <= 12 && 1 <= d1 <= DaysInMonth(y1, m1)
    requires 1 <= y2 && 1 <= m2 <= 12 && 1 <= d2 <= DaysInMonth(y2, m2)
    requires y1 < y2 || (y1 == y2 && m1 < m2) || (y1 == y2 && m1 == m2 && d1 < d2)
    ensures DayNumber(y1, m1, d1) < DayNumber(y2, m2, d2)
  {
    if y1 < y2 {
      DayBeforeLaterYear(y1, m1, d1, y2);
    } else if m1 < m2 {
      DaysBeforeLater(y1, m1, m2);
    }
  }

  lemma BeforeMicros(a: DateTime, b: DateTime)
    requires ValidDateTime(a) && ValidDateTime(b) && Before(a, b)
    ensures ToMicros(a) < ToMicros(b)
  {
    var da, db := DayNumber(a.year, a.month, a.day), DayNumber(b.year, b.month, b.day);
    if a.year != b.year || a.month != b.month || a.day != b.day {
      DayNumberOrder(a.year, a.month, a.day, b.year, b.month, b.day);
      assert da + 1 <= db;
      var sa := ((da * 24 + a.hour) * 60 + a.minute) * 60 + a.second;
      assert sa < (da + 1) * 86400;
      assert (da + 1) * 86400 <= db * 86400;
    }
  }

  /** Time order is microsecond order: sorting by `ToMicros` sorts chronologically. */
  lemma MicrosOrder(a: DateTime, b: DateTime)
    requires ValidDateTime(a) && ValidDateTime(b)
    ensures Before(a, b) <==> ToMicros(a) < ToMicros(b)
    ensures a == b <==> ToMicros(a) == ToMicros(b)
  {
    if Before(a, b) {
      BeforeMicros(a, b);
    } else if Before(b, a) {
      BeforeMicros(b, a);
    }
  }

  /** `datetime.min` is the zero of the scale and no valid time comes before it. */
  lemma MinDateTimeFirst(t: DateTime)
    requires ValidDateTime(t)
    ensures ValidDateTime(MinDateTime) && ToMicros(MinDateTime) == 0
    ensures !Before(t, MinDateTime)
  {
    MinDateTimeZero();
    MicrosNonNegative(t);
    MicrosOrder(t, MinDateTime);
  }

  lemma MinDateTimeZero()
    ensures ValidDateTime(MinDateTime) && ToMicros(MinDateTime) == 0
  {
    var m := MinDateTime;
    assert m == DateTime(1, 1, 1, 0, 0, 0, 0);
    assert ValidDateTime(m);
    assert ToMicros(m) == ToMicros(DateTime(1, 1, 1, 0, 0, 0, 0));
    FirstInstantZero();
  }

  lemma FirstInstantZero()
    ensures ValidDateTime(DateTime(1, 1, 1, 0, 0, 0, 0))
    ensures ToMicros(DateTime(1, 1, 1, 0, 0, 0, 0)) == 0
  {
  }

  lemma MicrosNonNegative(t: DateTime)
    requires ValidDateTime(t)
    ensures ToMicros(t) >= 0
  {
    var py := t.year - 1;
    assert py / 100 <= py / 4;
    assert DayNumber(t.year, t.month, t.day) >= 0;
  }

  /** Microseconds count up from `datetime.min`, which alone sits at zero. */
  lemma MicrosFromMin(t: DateTime)
    requires ValidDateTime(t)
    ensures ToMicros(t) >= 0
    ensures ToMicros(t) == 0 <==> t == MinDateTime
  {
    assert MinDateTime == DateTime(1, 1, 1, 0, 0, 0, 0);
    MicrosNonNegative(t);
    FirstInstantOnly(t);
  }

  lemma FirstInstantOnly(t: DateTime)
    requires ValidDateTime(t)
    ensures t == DateTime(1, 1, 1, 0, 0, 0, 0) ==> ToMicros(t) == 0
    ensures ToMicros(t) == 0 ==> t == DateTime(1, 1, 1, 0, 0, 0, 0)
  {
    if t != DateTime(1, 1, 1, 0, 0, 0, 0) {
      LaterInstantPositive(t);
    } else {
      FirstInstantZero();
    }
  }

  lemma LaterInstantPositive(t: DateTime)
    requires ValidDateTime(t) && t != DateTime(1, 1, 1, 0, 0, 0, 0)
    ensures ToMicros(t) > 0
  {
    var f := DateTime(1, 1, 1, 0, 0, 0, 0);
    FirstInstantZero();
    FirstInstantBefore(t);
    AfterZeroPositive(f, t);
  }

  lemma AfterZeroPositive(f: DateTime, t: DateTime)
    requires ValidDateTime(f) && ValidDateTime(t) && Before(f, t) && ToMicros(f) == 0
    ensures ToMicros(t) > 0
  {
    BeforeMicros(f, t);
  }

  /** Every other valid time comes after 0001-01-01T00:00:00. */
  lemma FirstInstantBefore(t: DateTime)
    requires ValidDateTime(t) && t != DateTime(1, 1, 1, 0, 0, 0, 0)
    ensures Before(DateTime(1, 1, 1, 0, 0, 0, 0), t)
  {
    if t.year == 1 && t.month == 1 && t.day == 1 && t.hour == 0 && t.minute == 0 && t.second == 0 {
      assert t.microsecond != 0;
    }
  }

  /** The millisecond instant is the microsecond one truncated, so it never reverses time order. */
  lemma MillisFollowMicros(a: DateTime, b: DateTime)
    requires ValidDateTime(a) && ValidDateTime(b)
    ensures ToMillis(a) == ToMicros(a) / 1000
    ensures Before(a, b) ==> ToMillis(a) <= ToMillis(b)
  {
    MicrosOrder(a, b);
  }
}
