/** The `DateTime<Utc>` values an `Item` carries and the text `to_rfc3339()`
    writes for them into the `timestamp` and `ingested_at` columns: the date
    and time of day (RFC 3339, section 5.6), a fractional second of 0, 3, 6
    or 9 digits chosen by how many trailing zeros the nanoseconds have, and
    the offset `+00:00`. A reader takes the text back to the value. */
module Rfc3339 {
  import opened Results
  import opened Decimal

  /** A UTC instant as a civil date and time of day. As in chrono, a leap
      second is a nanosecond field of 1_000_000_000 or more during the last
      second of a minute. */
  datatype DateTime = DateTime(year: int, month: int, day: int,
                               hour: int, minute: int, second: int, nanosecond: int)

  const NanosPerSecond := 1_000_000_000

  predicate IsLeapYear(y: int) {
    y % 4 == 0 && (y % 100 != 0 || y % 400 == 0)
  }

  function DaysInMonth(y: int, m: int): int
    requires 1 <= m <= 12
  {
    if m == 2 then (if IsLeapYear(y) then 29 else 28)
    else if m == 4 || m == 6 || m == 9 || m == 11 then 30
    else 31
  }

  /** The values chrono can represent (the year range aside). */
  predicate Valid(t: DateTime) {
    && 1 <= t.month <= 12
    && 1 <= t.day <= DaysInMonth(t.year, t.month)
    && 0 <= t.hour < 24
    && 0 <= t.minute < 60
    && 0 <= t.second < 60
    && 0 <= t.nanosecond < 2 * NanosPerSecond
    && (t.nanosecond >= NanosPerSecond ==> t.second == 59)
  }

  /** `DateTime<Utc>`: only valid timestamps exist. */
  type Timestamp = t: DateTime | Valid(t) witness DateTime(1970, 1, 1, 0, 0, 0, 0)

  // ---------------------------------------------------------------------------
  // Writer
  // ---------------------------------------------------------------------------

  /** Two digits, zero-padded. */
  function Two(n: int): string
    requires 0 <= n < 100
  {
    [DigitChar(n / 10), DigitChar(n % 10)]
  }

  /** Three digits, zero-padded. */
  function Three(n: int): string
    requires 0 <= n < 1000
  {
    [DigitChar(n / 100)] + Two(n % 100)
  }

  /** Years 0 to 9999 as four digits; any other year with an explicit sign
      and at least four digits. */
  function YearText(y: int): string {
    if 0 <= y <= 9999 then Two(y / 100) + Two(y % 100)
    else if y < 0 then "-" + Padded(-y, 4)
    else "+" + Padded(y, 4)
  }

  /** The fractional second: nothing for a whole second, otherwise a dot and
      the milliseconds, microseconds or nanoseconds as 3, 6 or 9 digits,
      whichever is the shortest that is exact. */
  function Fraction(nano: int): string
    requires 0 <= nano < NanosPerSecond
  {
    if nano == 0 then ""
    else
      var low := nano % 1_000_000;
      if low == 0 then "." + Three(nano / 1_000_000)
      else if low % 1_000 == 0 then "." + Three(nano / 1_000_000) + Three(low / 1_000)
      else "." + Three(nano / 1_000_000) + Three(low / 1_000) + Three(low % 1_000)
  }

  const UtcOffset := "+00:00"

  /** The month and day between the year and the time of day. */
  function DateText(month: int, day: int): string
    requires 1 <= month <= 12 && 1 <= day <= 31
  {
    "-" + Two(month) + "-" + Two(day) + "T"
  }

  /** The time of day up to the whole second. */
  function ClockText(hour: int, minute: int, second: int): string
    requires 0 <= hour < 24 && 0 <= minute < 60 && 0 <= second < 61
  {
    Two(hour) + ":" + Two(minute) + ":" + Two(second)
  }

  /** `to_rfc3339()` of a `DateTime<Utc>`; a leap second is written as second 60.
      The text loses nothing: the reader takes it back to the timestamp. */
  function ToRfc3339(t: DateTime): (r: string)
    requires Valid(t)
    ensures ReadRfc3339(r) == Some(t)
  {
    var leap := t.nanosecond >= NanosPerSecond;
    var second := if leap then t.second + 1 else t.second;
    var nano := if leap then t.nanosecond - NanosPerSecond else t.nanosecond;
    ReadOfWrittenParts(t, second, nano);
    YearText(t.year) + (DateText(t.month, t.day) + (ClockText(t.hour, t.minute, second)
      + (Fraction(nano) + UtcOffset)))
  }

  // ---------------------------------------------------------------------------
  // Reader
  // ---------------------------------------------------------------------------

  function ReadTwo(s: string): Option<(int, string)> {
    if |s| >= 2 && IsDigit(s[0]) && IsDigit(s[1])
    then Some((DigitValue(s[0]) * 10 + DigitValue(s[1]), s[2..]))
    else None
  }

  function ReadThree(s: string): Option<(int, string)> {
    if |s| >= 3 && IsDigit(s[0]) && IsDigit(s[1]) && IsDigit(s[2])
    then Some(((DigitValue(s[0]) * 10 + DigitValue(s[1])) * 10 + DigitValue(s[2]), s[3..]))
    else None
  }

  function Expect(s: string, c: char): Option<string> {
    if |s| > 0 && s[0] == c then Some(s[1..]) else None
  }

  function ReadYear(s: string): Option<(int, string)> {
    if |s| > 0 && (s[0] == '+' || s[0] == '-') then
      var k := DigitRun(s[1..]);
      if k < 4 then None
      else
        var v: int := ValueOf(s[1..][..k]);
        Some((if s[0] == '-' then -v else v, s[1..][k..]))
    else
      var hi :- ReadTwo(s);
      var lo :- ReadTwo(hi.1);
      Some((hi.0 * 100 + lo.0, lo.1))
  }

  /** Reads an optional fractional second of 3, 6 or 9 digits as nanoseconds. */
  function ReadFraction(s: string): Option<(int, string)> {
    if |s| > 0 && s[0] == '.' then
      var a :- ReadThree(s[1..]);
      if |a.1| > 0 && IsDigit(a.1[0]) then
        var b :- ReadThree(a.1);
        if |b.1| > 0 && IsDigit(b.1[0]) then
          var c :- ReadThree(b.1);
          Some((a.0 * 1_000_000 + b.0 * 1_000 + c.0, c.1))
        else Some((a.0 * 1_000_000 + b.0 * 1_000, b.1))
      else Some((a.0 * 1_000_000, a.1))
    else Some((0, s))
  }

  function ReadDate(s: string): Option<(int, int, string)> {
    var r1 :- Expect(s, '-');
    var mo :- ReadTwo(r1);
    var r2 :- Expect(mo.1, '-');
    var d :- ReadTwo(r2);
    var r3 :- Expect(d.1, 'T');
    Some((mo.0, d.0, r3))
  }

  function ReadClock(s: string): Option<(int, int, int, string)> {
    var h :- ReadTwo(s);
    var r1 :- Expect(h.1, ':');
    var mi :- ReadTwo(r1);
    var r2 :- Expect(mi.1, ':');
    var sec :- ReadTwo(r2);
    Some((h.0, mi.0, sec.0, sec.1))
  }

  /** Reads the text `ToRfc3339` writes; second 60 is read back as a leap second. */
  function ReadRfc3339(s: string): (r: Option<DateTime>)
    ensures r.Some? ==> Valid(r.value)
  {
    var y :- ReadYear(s);
    var date :- ReadDate(y.1);
    var clock :- ReadClock(date.2);
    var f :- ReadFraction(clock.3);
    if f.1 != UtcOffset then None
    else
      var (month, day, hour, minute, second) := (date.0, date.1, clock.0, clock.1, clock.2);
      var t := if second == 60 then DateTime(y.0, month, day, hour, minute, 59, f.0 + NanosPerSecond)
               else DateTime(y.0, month, day, hour, minute, second, f.0);
      if Valid(t) then Some(t) else None
  }

  // ---------------------------------------------------------------------------
  // Round trip
  // ---------------------------------------------------------------------------

  lemma ReadTwoOfTwo(n: int, rest: string)
    requires 0 <= n < 100
    ensures ReadTwo(Two(n) + rest) == Some((n, rest))
  {
    var s := Two(n) + rest;
    assert s[0] == DigitChar(n / 10) && s[1] == DigitChar(n % 10) && s[2..] == rest;
  }

  lemma ReadThreeOfThree(n: int, rest: string)
    requires 0 <= n < 1000
    ensures ReadThree(Three(n) + rest) == Some((n, rest))
  {
    var s := Three(n) + rest;
    assert s[0] == DigitChar(n / 100) && s[1] == DigitChar(n % 100 / 10);
    assert s[2] == DigitChar(n % 100 % 10) && s[3..] == rest;
  }

  lemma ReadYearOfSigned(sign: char, v: nat, rest: string)
    requires sign == '+' || sign == '-'
    requires |rest| > 0 && rest[0] == '-'
    ensures ReadYear([sign] + Padded(v, 4) + rest) == Some((if sign == '-' then -(v as int) else v, rest))
  {
    var p := Padded(v, 4);
    var s := [sign] + p + rest;
    assert s[1..] == p + rest;
    DigitRunStopsAtEnd(p, rest);
    ValueOfPadded(v, 4);
    assert s[1..][..|p|] == p;
    assert s[1..][|p|..] == rest;
  }

  lemma ReadFourDigitYear(y: int, rest: string)
    requires 0 <= y <= 9999
    ensures ReadYear(Two(y / 100) + Two(y % 100) + rest) == Some((y, rest))
  {
    var s := Two(y / 100) + Two(y % 100) + rest;
    assert s == Two(y / 100) + (Two(y % 100) + rest);
    assert s[0] != '+' && s[0] != '-';
    ReadTwoOfTwo(y / 100, Two(y % 100) + rest);
    ReadTwoOfTwo(y % 100, rest);
    assert y / 100 * 100 + y % 100 == y;
  }

  lemma ReadYearOfYearText(y: int, rest: string)
    requires |rest| > 0 && rest[0] == '-'
    ensures ReadYear(YearText(y) + rest) == Some((y, rest))
  {
    if 0 <= y <= 9999 {
      ReadFourDigitYear(y, rest);
    } else if y < 0 {
      ReadYearOfSigned('-', -y, rest);
    } else {
      ReadYearOfSigned('+', y, rest);
    }
  }

  /** The digit groups of a fraction, once its dot is read. */
  lemma AfterDotTwo(a: string, b: string, rest: string)
    ensures ("." + a + b + rest)[1..] == a + (b + rest)
  {
  }

  lemma AfterDotThree(a: string, b: string, c: string, rest: string)
    ensures ("." + a + b + c + rest)[1..] == a + (b + (c + rest))
  {
  }

  lemma ReadOneGroup(a: int, rest: string)
    requires 0 <= a < 1000
    requires |rest| > 0 && !IsDigit(rest[0])
    ensures ReadFraction("." + Three(a) + rest) == Some((a * 1_000_000, rest))
  {
    assert ("." + Three(a) + rest)[1..] == Three(a) + rest;
    ReadThreeOfThree(a, rest);
  }

  lemma ReadTwoGroups(a: int, b: int, rest: string)
    requires 0 <= a < 1000 && 0 <= b < 1000
    requires |rest| > 0 && !IsDigit(rest[0])
    ensures ReadFraction("." + Three(a) + Three(b) + rest) == Some((a * 1_000_000 + b * 1_000, rest))
  {
    AfterDotTwo(Three(a), Three(b), rest);
    ReadThreeOfThree(a, Three(b) + rest);
    ReadThreeOfThree(b, rest);
  }

  lemma ReadThreeGroups(a: int, b: int, c: int, rest: string)
    requires 0 <= a < 1000 && 0 <= b < 1000 && 0 <= c < 1000
    requires |rest| > 0 && !IsDigit(rest[0])
    ensures ReadFraction("." + Three(a) + Three(b) + Three(c) + rest) ==
      Some((a * 1_000_000 + b * 1_000 + c, rest))
  {
    AfterDotThree(Three(a), Three(b), Three(c), rest);
    ReadThreeOfThree(a, Three(b) + (Three(c) + rest));
    ReadThreeOfThree(b, Three(c) + rest);
    ReadThreeOfThree(c, rest);
  }

  /** Nanoseconds as milliseconds, then microseconds, then nanoseconds. */
  lemma SplitNanos(nano: int)
    requires 0 <= nano < NanosPerSecond
    ensures 0 <= nano / 1_000_000 < 1000
    ensures 0 <= nano % 1_000_000 / 1_000 < 1000 && 0 <= nano % 1_000_000 % 1_000 < 1000
    ensures nano == nano / 1_000_000 * 1_000_000 + nano % 1_000_000 / 1_000 * 1_000 + nano % 1_000_000 % 1_000
  {
    var low := nano % 1_000_000;
    assert nano == nano / 1_000_000 * 1_000_000 + low;
    assert low == low / 1_000 * 1_000 + low % 1_000;
  }

  lemma ReadFractionOfFraction(nano: int, rest: string)
    requires 0 <= nano < NanosPerSecond
    requires |rest| > 0 && !IsDigit(rest[0]) && rest[0] != '.'
    ensures ReadFraction(Fraction(nano) + rest) == Some((nano, rest))
  {
    var low := nano % 1_000_000;
    SplitNanos(nano);
    if nano == 0 {
      assert Fraction(nano) + rest == rest;
    } else if low == 0 {
      ReadOneGroup(nano / 1_000_000, rest);
    } else if low % 1_000 == 0 {
      ReadTwoGroups(nano / 1_000_000, low / 1_000, rest);
    } else {
      ReadThreeGroups(nano / 1_000_000, low / 1_000, low % 1_000, rest);
    }
  }

  lemma ReadDateOfDateText(month: int, day: int, rest: string)
    requires 1 <= month <= 12 && 1 <= day <= 31
    ensures ReadDate(DateText(month, day) + rest) == Some((month, day, rest))
  {
    var t3 := "T" + rest;
    var t2 := Two(day) + t3;
    var t1 := "-" + t2;
    var t0 := Two(month) + t1;
    assert DateText(month, day) + rest == "-" + t0;
    ReadTwoOfTwo(month, t1);
    ReadTwoOfTwo(day, t3);
  }

  lemma ReadClockOfClockText(hour: int, minute: int, second: int, rest: string)
    requires 0 <= hour < 24 && 0 <= minute < 60 && 0 <= second < 61
    ensures ReadClock(ClockText(hour, minute, second) + rest) == Some((hour, minute, second, rest))
  {
    var t3 := Two(second) + rest;
    var t2 := ":" + t3;
    var t1 := Two(minute) + t2;
    var t0 := ":" + t1;
    assert ClockText(hour, minute, second) + rest == Two(hour) + t0;
    ReadTwoOfTwo(hour, t0);
    ReadTwoOfTwo(minute, t2);
    ReadTwoOfTwo(second, rest);
  }

  /** Once every part has been read, the reader rebuilds the timestamp,
      turning second 60 back into a leap second. */
  lemma ReadRfc3339OfParts(s: string, t: DateTime, r1: string, r2: string, r3: string,
                           second: int, nano: int)
    requires Valid(t)
    requires ReadYear(s) == Some((t.year, r1))
    requires ReadDate(r1) == Some((t.month, t.day, r2))
    requires ReadClock(r2) == Some((t.hour, t.minute, second, r3))
    requires ReadFraction(r3) == Some((nano, UtcOffset))
    requires t.nanosecond >= NanosPerSecond ==> second == 60 && nano == t.nanosecond - NanosPerSecond
    requires t.nanosecond < NanosPerSecond ==> second == t.second && nano == t.nanosecond
    ensures ReadRfc3339(s) == Some(t)
  {
  }

  /** The date part opens with the dash that ends the year. */
  lemma DateTextOpens(month: int, day: int, rest: string)
    requires 1 <= month <= 12 && 1 <= day <= 31
    ensures |DateText(month, day) + rest| > 0 && (DateText(month, day) + rest)[0] == '-'
  {
    var d := DateText(month, day);
    assert d == "-" + (Two(month) + "-" + Two(day) + "T");
  }

  /** Reading back the parts written for a timestamp gives the timestamp. */
  lemma ReadOfWrittenParts(t: DateTime, second: int, nano: int)
    requires Valid(t)
    requires t.nanosecond >= NanosPerSecond ==> second == t.second + 1 && nano == t.nanosecond - NanosPerSecond
    requires t.nanosecond < NanosPerSecond ==> second == t.second && nano == t.nanosecond
    ensures ReadRfc3339(YearText(t.year) + (DateText(t.month, t.day) + (ClockText(t.hour, t.minute, second)
              + (Fraction(nano) + UtcOffset)))) == Some(t)
  {
    var r3 := Fraction(nano) + UtcOffset;
    var r2 := ClockText(t.hour, t.minute, second) + r3;
    var r1 := DateText(t.month, t.day) + r2;
    DateTextOpens(t.month, t.day, r2);
    ReadYearOfYearText(t.year, r1);
    ReadDateOfDateText(t.month, t.day, r2);
    ReadClockOfClockText(t.hour, t.minute, second, r3);
    ReadFractionOfFraction(nano, UtcOffset);
    ReadRfc3339OfParts(YearText(t.year) + r1, t, r1, r2, r3, second, nano);
  }

  /** Distinct timestamps are written as distinct texts. */
  lemma ToRfc3339Injective(a: DateTime, b: DateTime)
    requires Valid(a) && Valid(b)
    ensures ToRfc3339(a) == ToRfc3339(b) <==> a == b
  {
  }
}
