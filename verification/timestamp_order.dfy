/** How the `timestamp` and `ingested_at` columns sort. Both are TEXT columns
    holding `to_rfc3339()` output, so the database orders them by comparing
    characters. For years 0 to 9999 that order is the chronological order, even
    though the fractional second varies in length. Outside that range it is
    not. */
module TimestampOrder {
  import opened Decimal
  import opened Rfc3339

  /** Text order: compare code point by code point; a proper prefix comes first. */
  predicate TextLess(a: string, b: string)
    decreases |a|
  {
    if |a| == 0 then |b| > 0
    else if |b| == 0 then false
    else a[0] < b[0] || (a[0] == b[0] && TextLess(a[1..], b[1..]))
  }

  /** Lexicographic step: `x` decides unless it ties, then `rest` does. */
  predicate Lex(x1: int, x2: int, rest: bool) {
    x1 < x2 || (x1 == x2 && rest)
  }

  /** Nanoseconds since the start of the minute; a leap second counts as
      the 60th second. */
  function MinuteNanos(t: DateTime): int {
    t.second * NanosPerSecond + t.nanosecond
  }

  /** Chronological order of timestamps. */
  predicate Earlier(a: DateTime, b: DateTime) {
    Lex(a.year, b.year,
      Lex(a.month, b.month,
        Lex(a.day, b.day,
          Lex(a.hour, b.hour,
            Lex(a.minute, b.minute, MinuteNanos(a) < MinuteNanos(b))))))
  }

  // ---------------------------------------------------------------------------
  // Text order of concatenations
  // ---------------------------------------------------------------------------

  lemma {:induction false} TextLessIrreflexive(a: string)
    ensures !TextLess(a, a)
  {
    if |a| > 0 {
      TextLessIrreflexive(a[1..]);
    }
  }

  /** Two texts that share a fixed-width head are ordered by the head, and by
      the rest when the heads are equal. */
  lemma {:induction false} TextLessAppend(p1: string, q1: string, p2: string, q2: string)
    requires |p1| == |p2|
    ensures TextLess(p1 + q1, p2 + q2) <==> TextLess(p1, p2) || (p1 == p2 && TextLess(q1, q2))
    decreases |p1|
  {
    if |p1| > 0 {
      assert (p1 + q1)[0] == p1[0] && (p2 + q2)[0] == p2[0];
      assert (p1 + q1)[1..] == p1[1..] + q1;
      assert (p2 + q2)[1..] == p2[1..] + q2;
      TextLessAppend(p1[1..], q1, p2[1..], q2);
      if p1[0] == p2[0] {
        assert p1 == p2 <==> p1[1..] == p2[1..];
      }
    } else {
      assert p1 + q1 == q1 && p2 + q2 == q2;
    }
  }

  lemma SeparatorThen(sep: string, q1: string, q2: string)
    ensures TextLess(sep + q1, sep + q2) <==> TextLess(q1, q2)
  {
    TextLessAppend(sep, q1, sep, q2);
    TextLessIrreflexive(sep);
  }

  lemma TwoThen(x1: int, x2: int, q1: string, q2: string)
    requires 0 <= x1 < 100 && 0 <= x2 < 100
    ensures TextLess(Two(x1) + q1, Two(x2) + q2) <==> Lex(x1, x2, TextLess(q1, q2))
  {
    TextLessAppend(Two(x1), q1, Two(x2), q2);
    var a, b := Two(x1), Two(x2);
    assert a[1..] == [a[1]] && b[1..] == [b[1]];
    assert [a[1]][1..] == [] && [b[1]][1..] == [];
    assert x1 == x1 / 10 * 10 + x1 % 10 && x2 == x2 / 10 * 10 + x2 % 10;
  }

  lemma ThreeThen(x1: int, x2: int, q1: string, q2: string)
    requires 0 <= x1 < 1000 && 0 <= x2 < 1000
    ensures TextLess(Three(x1) + q1, Three(x2) + q2) <==> Lex(x1, x2, TextLess(q1, q2))
  {
    assert Three(x1) + q1 == [DigitChar(x1 / 100)] + (Two(x1 % 100) + q1);
    assert Three(x2) + q2 == [DigitChar(x2 / 100)] + (Two(x2 % 100) + q2);
    TextLessAppend([DigitChar(x1 / 100)], Two(x1 % 100) + q1, [DigitChar(x2 / 100)], Two(x2 % 100) + q2);
    TwoThen(x1 % 100, x2 % 100, q1, q2);
    assert [DigitChar(x1 / 100)][1..] == [] && [DigitChar(x2 / 100)][1..] == [];
    assert x1 == x1 / 100 * 100 + x1 % 100 && x2 == x2 / 100 * 100 + x2 % 100;
  }

  // ---------------------------------------------------------------------------
  // The fractional second
  // ---------------------------------------------------------------------------

  /** The last three digits of the nanoseconds, unless they are all zero. */
  function LastGroup(c: int): string
    requires 0 <= c < 1000
  {
    if c == 0 then "" else Three(c)
  }

  /** The digits after the milliseconds, trailing zero groups dropped. */
  function LowText(low: int): string
    requires 0 <= low < 1_000_000
  {
    if low == 0 then "" else Three(low / 1_000) + LastGroup(low % 1_000)
  }

  lemma FractionShape(nano: int)
    requires 0 < nano < NanosPerSecond
    ensures Fraction(nano) == "." + Three(nano / 1_000_000) + LowText(nano % 1_000_000)
  {
  }

  /** A digit sorts after the first character of the offset. */
  lemma DigitAfterOffset(q1: string, x: int, q2: string)
    requires 0 <= x < 1000
    ensures TextLess(UtcOffset + q1, Three(x) + q2)
    ensures !TextLess(Three(x) + q2, UtcOffset + q1)
  {
    assert (UtcOffset + q1)[0] == '+';
    assert (Three(x) + q2)[0] == DigitChar(x / 100);
  }

  lemma LastGroupOrder(c1: int, c2: int)
    requires 0 <= c1 < 1000 && 0 <= c2 < 1000
    ensures TextLess(LastGroup(c1) + UtcOffset, LastGroup(c2) + UtcOffset) <==> c1 < c2
  {
    if c1 == 0 && c2 == 0 {
      assert LastGroup(c1) + UtcOffset == UtcOffset;
      TextLessIrreflexive(UtcOffset);
    } else if c1 == 0 {
      DigitAfterOffset("", c2, UtcOffset);
      assert UtcOffset + "" == UtcOffset;
    } else if c2 == 0 {
      DigitAfterOffset("", c1, UtcOffset);
      assert UtcOffset + "" == UtcOffset;
    } else {
      ThreeThen(c1, c2, UtcOffset, UtcOffset);
      TextLessIrreflexive(UtcOffset);
    }
  }

  lemma LowOrder(l1: int, l2: int)
    requires 0 <= l1 < 1_000_000 && 0 <= l2 < 1_000_000
    ensures TextLess(LowText(l1) + UtcOffset, LowText(l2) + UtcOffset) <==> l1 < l2
  {
    if l1 == 0 && l2 == 0 {
      assert LowText(l1) + UtcOffset == UtcOffset;
      TextLessIrreflexive(UtcOffset);
    } else if l1 == 0 {
      LowAfterNone(l2);
    } else if l2 == 0 {
      LowAfterNone(l1);
    } else {
      LowBothPresent(l1, l2);
    }
  }

  /** Digits past the milliseconds, then the offset, regrouped. */
  lemma LowShape(l: int)
    requires 0 < l < 1_000_000
    ensures LowText(l) + UtcOffset == Three(l / 1_000) + (LastGroup(l % 1_000) + UtcOffset)
  {
  }

  /** Text with further digits sorts after text without. */
  lemma LowAfterNone(l: int)
    requires 0 < l < 1_000_000
    ensures TextLess(LowText(0) + UtcOffset, LowText(l) + UtcOffset)
    ensures !TextLess(LowText(l) + UtcOffset, LowText(0) + UtcOffset)
  {
    LowShape(l);
    DigitAfterOffset("", l / 1_000, LastGroup(l % 1_000) + UtcOffset);
    assert LowText(0) + UtcOffset == UtcOffset + "";
  }

  lemma LowBothPresent(l1: int, l2: int)
    requires 0 < l1 < 1_000_000 && 0 < l2 < 1_000_000
    ensures TextLess(LowText(l1) + UtcOffset, LowText(l2) + UtcOffset) <==> l1 < l2
  {
    LowShape(l1);
    LowShape(l2);
    ThreeThen(l1 / 1_000, l2 / 1_000, LastGroup(l1 % 1_000) + UtcOffset, LastGroup(l2 % 1_000) + UtcOffset);
    LastGroupOrder(l1 % 1_000, l2 % 1_000);
    LexOfSplit(l1, l2, 1_000);
  }

  /** A whole second sorts before any fraction of the same second. */
  lemma WholeBeforeFraction(n: int)
    requires 0 < n < NanosPerSecond
    ensures TextLess(Fraction(0) + UtcOffset, Fraction(n) + UtcOffset)
    ensures !TextLess(Fraction(n) + UtcOffset, Fraction(0) + UtcOffset)
  {
    FractionShape(n);
    assert (Fraction(n) + UtcOffset)[0] == '.';
    assert Fraction(0) + UtcOffset == UtcOffset;
  }

  /** Splitting a number at a power of ten orders it lexicographically. */
  lemma LexOfSplit(n1: int, n2: int, unit: int)
    requires unit > 0 && n1 >= 0 && n2 >= 0
    ensures Lex(n1 / unit, n2 / unit, n1 % unit < n2 % unit) <==> n1 < n2
  {
    LexOfParts(n1 / unit, n1 % unit, n2 / unit, n2 % unit, unit);
  }

  /** Numbers written as quotient and remainder compare quotient first. */
  lemma LexOfParts(q1: int, r1: int, q2: int, r2: int, unit: int)
    requires unit > 0 && 0 <= r1 < unit && 0 <= r2 < unit
    ensures Lex(q1, q2, r1 < r2) <==> q1 * unit + r1 < q2 * unit + r2
  {
    if q1 < q2 {
      MulStep(q1, q2, unit);
    } else if q2 < q1 {
      MulStep(q2, q1, unit);
    }
  }

  lemma MulStep(a: int, b: int, unit: int)
    requires a < b && unit > 0
    ensures a * unit + unit <= b * unit
  {
    var d := b - a;
    assert b * unit == a * unit + d * unit;
    MulAtLeast(d, unit);
  }

  lemma {:induction false} MulAtLeast(d: int, unit: int)
    requires d >= 1 && unit > 0
    ensures d * unit >= unit
    decreases d
  {
    if d > 1 {
      MulAtLeast(d - 1, unit);
      assert d * unit == (d - 1) * unit + unit;
    }
  }

  lemma FractionWithOffset(n: int)
    requires 0 < n < NanosPerSecond
    ensures Fraction(n) + UtcOffset == "." + (Three(n / 1_000_000) + (LowText(n % 1_000_000) + UtcOffset))
  {
    FractionShape(n);
  }

  lemma NonzeroFractionOrder(n1: int, n2: int)
    requires 0 < n1 < NanosPerSecond && 0 < n2 < NanosPerSecond
    ensures TextLess(Fraction(n1) + UtcOffset, Fraction(n2) + UtcOffset) <==> n1 < n2
  {
    var q1, q2 := n1 / 1_000_000, n2 / 1_000_000;
    var t1, t2 := LowText(n1 % 1_000_000) + UtcOffset, LowText(n2 % 1_000_000) + UtcOffset;
    FractionWithOffset(n1);
    FractionWithOffset(n2);
    SeparatorThen(".", Three(q1) + t1, Three(q2) + t2);
    ThreeThen(q1, q2, t1, t2);
    LowOrder(n1 % 1_000_000, n2 % 1_000_000);
    LexOfSplit(n1, n2, 1_000_000);
  }

  /** The fractional second, followed by the offset, sorts as the
      nanoseconds do, although it is 0, 4, 7 or 10 characters long. */
  lemma FractionOrder(n1: int, n2: int)
    requires 0 <= n1 < NanosPerSecond && 0 <= n2 < NanosPerSecond
    ensures TextLess(Fraction(n1) + UtcOffset, Fraction(n2) + UtcOffset) <==> n1 < n2
  {
    if n1 == 0 && n2 == 0 {
      TextLessIrreflexive(Fraction(n1) + UtcOffset);
    } else if n1 == 0 {
      WholeBeforeFraction(n2);
    } else if n2 == 0 {
      WholeBeforeFraction(n1);
    } else {
      NonzeroFractionOrder(n1, n2);
    }
  }

  // ---------------------------------------------------------------------------
  // The whole timestamp
  // ---------------------------------------------------------------------------

  /** The seconds and nanoseconds as written: a leap second becomes second 60. */
  function WrittenSecond(t: DateTime): int {
    if t.nanosecond >= NanosPerSecond then t.second + 1 else t.second
  }

  function WrittenNanos(t: DateTime): int {
    if t.nanosecond >= NanosPerSecond then t.nanosecond - NanosPerSecond else t.nanosecond
  }

  /** The text from the hour on. */
  function ClockTail(t: DateTime): string
    requires Valid(t)
  {
    ClockText(t.hour, t.minute, WrittenSecond(t)) + Fraction(WrittenNanos(t)) + UtcOffset
  }

  lemma SecondOrder(a: DateTime, b: DateTime)
    requires Valid(a) && Valid(b)
    ensures TextLess(Two(WrittenSecond(a)) + Fraction(WrittenNanos(a)) + UtcOffset,
                     Two(WrittenSecond(b)) + Fraction(WrittenNanos(b)) + UtcOffset)
            <==> MinuteNanos(a) < MinuteNanos(b)
  {
    var fa, fb := Fraction(WrittenNanos(a)) + UtcOffset, Fraction(WrittenNanos(b)) + UtcOffset;
    assert Two(WrittenSecond(a)) + Fraction(WrittenNanos(a)) + UtcOffset == Two(WrittenSecond(a)) + fa;
    assert Two(WrittenSecond(b)) + Fraction(WrittenNanos(b)) + UtcOffset == Two(WrittenSecond(b)) + fb;
    TwoThen(WrittenSecond(a), WrittenSecond(b), fa, fb);
    FractionOrder(WrittenNanos(a), WrittenNanos(b));
    assert MinuteNanos(a) == WrittenSecond(a) * NanosPerSecond + WrittenNanos(a);
    assert MinuteNanos(b) == WrittenSecond(b) * NanosPerSecond + WrittenNanos(b);
  }

  lemma ClockTailShape(t: DateTime)
    requires Valid(t)
    ensures ClockTail(t) == Two(t.hour) + (":" + (Two(t.minute) + (":" +
      (Two(WrittenSecond(t)) + Fraction(WrittenNanos(t)) + UtcOffset))))
  {
  }

  lemma ClockOrder(a: DateTime, b: DateTime)
    requires Valid(a) && Valid(b)
    ensures TextLess(ClockTail(a), ClockTail(b)) <==>
      Lex(a.hour, b.hour, Lex(a.minute, b.minute, MinuteNanos(a) < MinuteNanos(b)))
  {
    var sa := Two(WrittenSecond(a)) + Fraction(WrittenNanos(a)) + UtcOffset;
    var sb := Two(WrittenSecond(b)) + Fraction(WrittenNanos(b)) + UtcOffset;
    ClockTailShape(a);
    ClockTailShape(b);
    TwoThen(a.hour, b.hour, ":" + (Two(a.minute) + (":" + sa)), ":" + (Two(b.minute) + (":" + sb)));
    SeparatorThen(":", Two(a.minute) + (":" + sa), Two(b.minute) + (":" + sb));
    TwoThen(a.minute, b.minute, ":" + sa, ":" + sb);
    SeparatorThen(":", sa, sb);
    SecondOrder(a, b);
  }

  lemma DateOrder(a: DateTime, b: DateTime)
    requires Valid(a) && Valid(b)
    ensures TextLess(DateText(a.month, a.day) + ClockTail(a), DateText(b.month, b.day) + ClockTail(b)) <==>
      Lex(a.month, b.month, Lex(a.day, b.day, TextLess(ClockTail(a), ClockTail(b))))
  {
    var ca, cb := ClockTail(a), ClockTail(b);
    assert DateText(a.month, a.day) + ca == "-" + (Two(a.month) + ("-" + (Two(a.day) + ("T" + ca))));
    assert DateText(b.month, b.day) + cb == "-" + (Two(b.month) + ("-" + (Two(b.day) + ("T" + cb))));
    SeparatorThen("-", Two(a.month) + ("-" + (Two(a.day) + ("T" + ca))), Two(b.month) + ("-" + (Two(b.day) + ("T" + cb))));
    TwoThen(a.month, b.month, "-" + (Two(a.day) + ("T" + ca)), "-" + (Two(b.day) + ("T" + cb)));
    SeparatorThen("-", Two(a.day) + ("T" + ca), Two(b.day) + ("T" + cb));
    TwoThen(a.day, b.day, "T" + ca, "T" + cb);
    SeparatorThen("T", ca, cb);
  }

  lemma YearOrder(y1: int, y2: int, q1: string, q2: string)
    requires 0 <= y1 <= 9999 && 0 <= y2 <= 9999
    ensures TextLess(YearText(y1) + q1, YearText(y2) + q2) <==> Lex(y1, y2, TextLess(q1, q2))
  {
    assert YearText(y1) + q1 == Two(y1 / 100) + (Two(y1 % 100) + q1);
    assert YearText(y2) + q2 == Two(y2 / 100) + (Two(y2 % 100) + q2);
    TwoThen(y1 / 100, y2 / 100, Two(y1 % 100) + q1, Two(y2 % 100) + q2);
    TwoThen(y1 % 100, y2 % 100, q1, q2);
    assert y1 == y1 / 100 * 100 + y1 % 100 && y2 == y2 / 100 * 100 + y2 % 100;
  }

  /** The stored text of a timestamp: the year, then everything after it. */
  lemma StoredText(t: DateTime)
    requires Valid(t)
    ensures ToRfc3339(t) == YearText(t.year) + (DateText(t.month, t.day) + ClockTail(t))
  {
  }

  /** For years 0 to 9999 the stored text of one timestamp sorts before that of
      another exactly when the first is earlier. */
  lemma TextOrderIsChronological(a: DateTime, b: DateTime)
    requires Valid(a) && Valid(b)
    requires 0 <= a.year <= 9999 && 0 <= b.year <= 9999
    ensures TextLess(ToRfc3339(a), ToRfc3339(b)) <==> Earlier(a, b)
  {
    StoredText(a);
    StoredText(b);
    PartsOrder(a, b);
  }

  lemma PartsOrder(a: DateTime, b: DateTime)
    requires Valid(a) && Valid(b)
    requires 0 <= a.year <= 9999 && 0 <= b.year <= 9999
    ensures TextLess(YearText(a.year) + (DateText(a.month, a.day) + ClockTail(a)),
                     YearText(b.year) + (DateText(b.month, b.day) + ClockTail(b)))
            <==> Earlier(a, b)
  {
    var ra := DateText(a.month, a.day) + ClockTail(a);
    var rb := DateText(b.month, b.day) + ClockTail(b);
    YearOrder(a.year, b.year, ra, rb);
    DateOrder(a, b);
    ClockOrder(a, b);
  }

  /** Past year 9999 the order breaks: the first instant of year 10000 sorts
      before the last instant of year 9999. */
  lemma TextOrderBreaksAfterYear9999()
    ensures var last := DateTime(9999, 12, 31, 23, 59, 59, 0);
            var next := DateTime(10000, 1, 1, 0, 0, 0, 0);
            Valid(last) && Valid(next) && Earlier(last, next) && TextLess(ToRfc3339(next), ToRfc3339(last))
  {
    var last := DateTime(9999, 12, 31, 23, 59, 59, 0);
    var next := DateTime(10000, 1, 1, 0, 0, 0, 0);
    StoredText(last);
    StoredText(next);
    var rl := DateText(last.month, last.day) + ClockTail(last);
    var rn := DateText(next.month, next.day) + ClockTail(next);
    YearTextOpens(9999, rl);
    YearTextOpens(10000, rn);
  }

  /** The first character of the year: a digit for years 0 to 9999, a `+`
      for later ones. */
  lemma YearTextOpens(y: int, rest: string)
    requires y == 9999 || y == 10000
    ensures |YearText(y) + rest| > 0
    ensures y == 9999 ==> (YearText(y) + rest)[0] == DigitChar(9)
    ensures y == 10000 ==> (YearText(y) + rest)[0] == '+'
  {
    if y == 9999 {
      assert YearText(y)[0] == DigitChar(9);
    } else {
      assert YearText(y)[0] == '+';
    }
  }
}
