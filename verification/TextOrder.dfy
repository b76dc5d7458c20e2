// cpp/include/pmm/orders.hpp and cpp/src/pmm/db.cpp: expiry times compared as text. Section 5.1 of
// RFC 3339 promises that text order is time order only for fractions of one length; here they
// may differ.
module TextOrder {
  import opened Common
  import opened Calendar
  import opened Timestamps

  // ---- the order of text ----

  predicate AtMost(s: string, t: string) {
    !Less(t, s)
  }

  lemma {:induction false} LessAfter(x: string, a: string, b: string)
    ensures Less(x + a, x + b) <==> Less(a, b)
  {
    if x == [] {
      assert x + a == a && x + b == b;
    } else {
      assert (x + a)[1..] == x[1..] + a && (x + b)[1..] == x[1..] + b;
      LessAfter(x[1..], a, b);
    }
  }

  lemma {:induction false} LessDecides(x: string, y: string, a: string, b: string)
    requires |x| == |y| && Less(x, y)
    ensures Less(x + a, y + b)
  {
    assert (x + a)[1..] == x[1..] + a && (y + b)[1..] == y[1..] + b;
    if x[0] == y[0] { LessDecides(x[1..], y[1..], a, b); }
  }

  lemma {:induction false} LessIrreflexive(s: string)
    ensures !Less(s, s)
  {
    if s != [] { LessIrreflexive(s[1..]); }
  }

  lemma {:induction false} LessAsymmetric(s: string, t: string)
    requires Less(s, t)
    ensures !Less(t, s)
  {
    if s != [] && s[0] == t[0] { LessAsymmetric(s[1..], t[1..]); }
  }

  // ---- numbers of a fixed width ----

  lemma DigitOrder(n: int, m: int)
    requires 0 <= n < m <= 9
    ensures Less([DigitChar(n)], [DigitChar(m)])
  {}

  lemma {:induction false} PadOrder(n: nat, m: nat, width: nat)
    requires width >= 1 && n < m < Pow10(width)
    ensures Less(Pad(n, width), Pad(m, width))
    decreases width
  {
    if width == 1 {
      assert Pow10(1) == 10;
      DigitOrder(n, m);
    } else {
      PadStep(n, width);
      PadStep(m, width);
      var a, b := [DigitChar(n % 10)], [DigitChar(m % 10)];
      if n / 10 == m / 10 {
        DigitOrder(n % 10, m % 10);
        LessAfter(Pad(n / 10, width - 1), a, b);
      } else {
        PadOrder(n / 10, m / 10, width - 1);
        LessDecides(Pad(n / 10, width - 1), Pad(m / 10, width - 1), a, b);
      }
    }
  }

  lemma PadStep(n: nat, width: nat)
    requires width > 1 && n < Pow10(width)
    ensures n / 10 < Pow10(width - 1) && |Pad(n / 10, width - 1)| == width - 1
    ensures Pad(n, width) == Pad(n / 10, width - 1) + [DigitChar(n % 10)]
  {
    assert n / 10 < Pow10(width - 1);
    PadWidth(n / 10, width - 1);
  }

  lemma FieldLess(n: nat, m: nat, width: nat, sep: char, a: string, b: string)
    requires width >= 1 && n < m < Pow10(width)
    ensures Less(Field(n, width, sep, a), Field(m, width, sep, b))
  {
    PadOrder(n, m, width);
    PadWidth(n, width);
    PadWidth(m, width);
    LessDecides(Pad(n, width), Pad(m, width), [sep] + a, [sep] + b);
  }

  lemma FieldSame(n: nat, width: nat, sep: char, a: string, b: string)
    ensures Less(Field(n, width, sep, a), Field(n, width, sep, b)) <==> Less(a, b)
  {
    LessAfter(Pad(n, width), [sep] + a, [sep] + b);
    LessAfter([sep], a, b);
  }

  // ---- dates and times ----

  /** A date that exists, in a year of four digits. */
  predicate FourDigit(c: Civil) {
    Exists(c) && 0 <= c.year <= 9999
  }

  function TimeText(c: Civil, tail: string): string
    requires Natural(c)
  {
    Field(c.hour, 2, ':', Field(c.minute, 2, ':', Pad(c.second, 2) + tail))
  }

  function DateText(c: Civil, rest: string): string
    requires Natural(c)
  {
    Field(c.year, 4, '-', Field(c.month, 2, '-', Field(c.day, 2, 'T', rest)))
  }

  lemma Widths()
    ensures Pow10(2) == 100 && Pow10(4) == 10000
  {
    assert Pow10(2) == 100;
  }

  lemma TimeLess(a: Civil, b: Civil, x: string, y: string)
    requires FourDigit(a) && FourDigit(b) && TimeBefore(a, b)
    ensures Less(TimeText(a, x), TimeText(b, y))
  {
    Widths();
    var p, r := Pad(a.second, 2) + x, Pad(b.second, 2) + y;
    if a.hour < b.hour {
      FieldLess(a.hour, b.hour, 2, ':', Field(a.minute, 2, ':', p), Field(b.minute, 2, ':', r));
    } else {
      FieldSame(a.hour, 2, ':', Field(a.minute, 2, ':', p), Field(b.minute, 2, ':', r));
      if a.minute < b.minute {
        FieldLess(a.minute, b.minute, 2, ':', p, r);
      } else {
        FieldSame(a.minute, 2, ':', p, r);
        PadOrder(a.second, b.second, 2);
        PadWidth(a.second, 2);
        PadWidth(b.second, 2);
        LessDecides(Pad(a.second, 2), Pad(b.second, 2), x, y);
      }
    }
  }

  lemma DateLess(a: Civil, b: Civil, x: string, y: string)
    requires FourDigit(a) && FourDigit(b) && DateBefore(a, b)
    ensures Less(DateText(a, x), DateText(b, y))
  {
    Widths();
    var p, r := Field(a.day, 2, 'T', x), Field(b.day, 2, 'T', y);
    if a.year < b.year {
      FieldLess(a.year, b.year, 4, '-', Field(a.month, 2, '-', p), Field(b.month, 2, '-', r));
    } else {
      FieldSame(a.year, 4, '-', Field(a.month, 2, '-', p), Field(b.month, 2, '-', r));
      if a.month < b.month {
        FieldLess(a.month, b.month, 2, '-', p, r);
      } else {
        FieldSame(a.month, 2, '-', p, r);
        FieldLess(a.day, b.day, 2, 'T', x, y);
      }
    }
  }

  lemma DateSame(c: Civil, x: string, y: string)
    requires Natural(c)
    ensures Less(DateText(c, x), DateText(c, y)) <==> Less(x, y)
  {
    var p, r := Field(c.day, 2, 'T', x), Field(c.day, 2, 'T', y);
    FieldSame(c.year, 4, '-', Field(c.month, 2, '-', p), Field(c.month, 2, '-', r));
    FieldSame(c.month, 2, '-', p, r);
    FieldSame(c.day, 2, 'T', x, y);
  }

  lemma TimeSame(c: Civil, x: string, y: string)
    requires Natural(c)
    ensures Less(TimeText(c, x), TimeText(c, y)) <==> Less(x, y)
  {
    var p, r := Pad(c.second, 2) + x, Pad(c.second, 2) + y;
    FieldSame(c.hour, 2, ':', Field(c.minute, 2, ':', p), Field(c.minute, 2, ':', r));
    FieldSame(c.minute, 2, ':', p, r);
    LessAfter(Pad(c.second, 2), x, y);
  }

  lemma DateOnly(a: Civil, b: Civil, x: string, y: string)
    requires Natural(a) && Natural(b) && SameDate(a, b)
    ensures Less(DateText(a, x), DateText(b, y)) <==> Less(x, y)
  {
    assert DateText(a, x) == DateText(b, x);
    DateSame(b, x, y);
  }

  /** Earlier in seconds is smaller in text, whatever follows the seconds. */
  lemma CivilLess(a: Civil, b: Civil, x: string, y: string)
    requires FourDigit(a) && FourDigit(b) && Timegm(a) < Timegm(b)
    ensures Less(CivilText(a, x), CivilText(b, y))
  {
    BeforeIff(a, b);
    if DateBefore(a, b) {
      DateLess(a, b, TimeText(a, x), TimeText(b, y));
    } else {
      TimeLess(a, b, x, y);
      DateOnly(a, b, TimeText(a, x), TimeText(b, y));
    }
  }

  lemma CivilSame(c: Civil, x: string, y: string)
    requires Natural(c)
    ensures Less(CivilText(c, x), CivilText(c, y)) <==> Less(x, y)
  {
    TimeSame(c, x, y);
    DateSame(c, TimeText(c, x), TimeText(c, y));
  }

  lemma SameSecond(a: Civil, b: Civil)
    requires Exists(a) && Exists(b) && Timegm(a) == Timegm(b)
    ensures a == b
  {
    BeforeIff(a, b);
    BeforeIff(b, a);
  }

  // ---- fractions ----

  /** The value of a string of fraction digits. */
  function FracValue(f: string): real {
    if f == [] then 0.0 else (DigitValue(f[0]) as real + FracValue(f[1..])) / 10.0
  }

  lemma {:induction false} FracBelowOne(f: string)
    requires AllDigits(f)
    ensures 0.0 <= FracValue(f) < 1.0
  {
    if f != [] { FracBelowOne(f[1..]); }
  }

  lemma {:induction false} LeadingDigit(f: string)
    requires f != []
    ensures DecimalValue(f) == DigitValue(f[0]) * Pow10(|f[1..]|) + DecimalValue(f[1..])
  {
    var n := |f| - 1;
    if n == 0 {
      assert f[..0] == [] == f[1..] && Pow10(0) == 1;
    } else {
      LeadingDigit(f[..n]);
      assert f[..n][1..] == f[1..][..n - 1] && f[1..][n - 1] == f[n];
      TenTimes(DigitValue(f[0]), Pow10(n - 1));
    }
  }

  lemma TenTimes(d: int, p: int)
    ensures 10 * (d * p) == d * (10 * p)
  {}

  predicate Scaled(x: real, p: int, v: int) {
    x * p as real == v as real
  }

  /** It is the value the reader of timestamps gives the same digits. */
  lemma {:induction false} FracIsDecimal(f: string)
    ensures Scaled(FracValue(f), Pow10(|f|), DecimalValue(f))
  {
    if f == [] {
      assert FracValue(f) == 0.0 && DecimalValue(f) == 0;
    } else {
      FracIsDecimal(f[1..]);
      FracStep(f, f[1..]);
    }
  }

  lemma FracStep(f: string, rest: string)
    requires f != [] && rest == f[1..] && Scaled(FracValue(rest), Pow10(|rest|), DecimalValue(rest))
    ensures Scaled(FracValue(f), Pow10(|f|), DecimalValue(f))
  {
    LeadingDigit(f);
    TenfoldPow(|f|, |rest|);
    ScaleUp(DigitValue(f[0]), FracValue(rest), Pow10(|rest|), DecimalValue(rest),
            FracValue(f), Pow10(|f|), DecimalValue(f));
  }

  lemma TenfoldPow(n: nat, m: nat)
    requires n == m + 1
    ensures Pow10(n) == 10 * Pow10(m)
  {}

  lemma ScaleUp(d: int, x: real, p: int, v: int, x': real, p': int, v': int)
    requires Scaled(x, p, v)
    requires x' == (d as real + x) / 10.0 && p' == 10 * p && v' == d * p + v
    ensures Scaled(x', p', v')
  {
    assert x' * p' as real == (d as real + x) * p as real;
    assert (d as real + x) * p as real == d as real * p as real + x * p as real;
    assert d as real * p as real == (d * p) as real;
  }

  lemma HeadTail(f: string)
    ensures f == [] ==> f + OFFSET == OFFSET
    ensures f != [] ==> f + OFFSET != [] && (f + OFFSET)[0] == f[0] && (f + OFFSET)[1..] == f[1..] + OFFSET
  {}

  /** Values are compared by their leading digits first. */
  lemma LeadingCompare(f: string, g: string)
    requires AllDigits(f) && AllDigits(g) && f != [] && g != []
    ensures FracValue(f) < FracValue(g) ==> f[0] < g[0] || (f[0] == g[0] && FracValue(f[1..]) < FracValue(g[1..]))
    ensures FracValue(f) == FracValue(g) ==> f[0] == g[0] && FracValue(f[1..]) == FracValue(g[1..])
  {
    FracBelowOne(f[1..]);
    FracBelowOne(g[1..]);
    WholeThenPart(DigitValue(f[0]), FracValue(f[1..]), DigitValue(g[0]), FracValue(g[1..]));
    DigitCompare(f[0], g[0]);
  }

  lemma WholeThenPart(a: int, x: real, b: int, y: real)
    requires 0.0 <= x < 1.0 && 0.0 <= y < 1.0
    ensures (a as real + x) / 10.0 < (b as real + y) / 10.0 ==> a < b || (a == b && x < y)
    ensures (a as real + x) / 10.0 == (b as real + y) / 10.0 ==> a == b && x == y
  {}

  lemma DigitCompare(c: char, d: char)
    requires IsDigit(c) && IsDigit(d)
    ensures (DigitValue(c) < DigitValue(d) <==> c < d) && (DigitValue(c) == DigitValue(d) <==> c == d)
  {}

  lemma PlusBeforeDigits(g: string)
    requires AllDigits(g) && g != []
    ensures Less(OFFSET, g + OFFSET) && !Less(g + OFFSET, OFFSET)
  {
    HeadTail(g);
    assert OFFSET != [] && OFFSET[0] == '+';
  }

  lemma {:induction false} DigitsLess(f: string, g: string)
    requires AllDigits(f) && AllDigits(g) && FracValue(f) < FracValue(g)
    ensures Less(f + OFFSET, g + OFFSET)
  {
    FracBelowOne(f);
    HeadTail(f);
    HeadTail(g);
    if f == [] {
      PlusBeforeDigits(g);
    } else {
      LeadingCompare(f, g);
      if f[0] == g[0] { DigitsLess(f[1..], g[1..]); }
    }
  }

  /** Digits of one and the same value differ only in how many zeros follow: more digits are later
      in the text. */
  lemma {:induction false} SameValue(f: string, g: string)
    requires AllDigits(f) && AllDigits(g) && FracValue(f) == FracValue(g)
    ensures Less(g + OFFSET, f + OFFSET) <==> |f| > |g|
  {
    HeadTail(f);
    HeadTail(g);
    if f == [] {
      if g == [] { LessIrreflexive(OFFSET); } else { PlusBeforeDigits(g); }
    } else if g == [] {
      PlusBeforeDigits(f);
    } else {
      LeadingCompare(f, g);
      SameValue(f[1..], g[1..]);
    }
  }

  function FracText(f: string): string {
    if f == [] then [] else ['.'] + f
  }

  /** What follows the seconds in a normalised stamp. */
  function StampTail(f: string): string {
    if f == [] then OFFSET else ['.'] + (f + OFFSET)
  }

  lemma TailLess(f: string, g: string)
    requires AllDigits(f) && AllDigits(g) && FracValue(f) < FracValue(g)
    ensures Less(StampTail(f), StampTail(g))
  {
    FracBelowOne(f);
    if f != [] {
      DigitsLess(f, g);
      LessAfter(['.'], f + OFFSET, g + OFFSET);
    }
  }

  lemma TailSame(f: string, g: string)
    requires AllDigits(f) && AllDigits(g) && FracValue(f) == FracValue(g)
    ensures Less(StampTail(g), StampTail(f)) <==> |f| > |g|
  {
    if f == [] {
      if g == [] { LessIrreflexive(OFFSET); }
    } else if g != [] {
      SameValue(f, g);
      LessAfter(['.'], g + OFFSET, f + OFFSET);
    }
  }

  // ---- stamps ----

  /** A UTC time with any number of fraction digits, none included. */
  datatype Stamp = Stamp(civil: Civil, frac: string)

  predicate ValidStamp(s: Stamp) {
    FourDigit(s.civil) && AllDigits(s.frac)
  }

  function Text(s: Stamp): string
    requires ValidStamp(s)
  {
    CivilText(s.civil, StampTail(s.frac))
  }

  /** The same with the Z suffix. */
  function ZuluText(s: Stamp): string
    requires ValidStamp(s)
  {
    CivilText(s.civil, FracText(s.frac)) + "Z"
  }

  function TimeOf(s: Stamp): real {
    Timegm(s.civil) as real + FracValue(s.frac)
  }

  /** Z becomes +00:00; anything else stays. */
  function Normalize(ts: string): string {
    if ts != [] && ts[|ts| - 1] == 'Z' then ts[..|ts| - 1] + OFFSET else ts
  }

  lemma CivilTextAppend(c: Civil, x: string, y: string)
    requires Natural(c)
    ensures CivilText(c, x) + y == CivilText(c, x + y)
  {
    TimeAppend(c, x, y);
    DateAppend(c, TimeText(c, x), y);
  }

  lemma TimeAppend(c: Civil, x: string, y: string)
    requires Natural(c)
    ensures TimeText(c, x) + y == TimeText(c, x + y)
  {
    var sec := Pad(c.second, 2) + x;
    ConcatAssoc(Pad(c.second, 2), x, y);
    FieldAppend(c.minute, 2, ':', sec, y);
    FieldAppend(c.hour, 2, ':', Field(c.minute, 2, ':', sec), y);
  }

  lemma DateAppend(c: Civil, rest: string, y: string)
    requires Natural(c)
    ensures DateText(c, rest) + y == DateText(c, rest + y)
  {
    var day := Field(c.day, 2, 'T', rest);
    FieldAppend(c.day, 2, 'T', rest, y);
    FieldAppend(c.month, 2, '-', day, y);
    FieldAppend(c.year, 4, '-', Field(c.month, 2, '-', day), y);
  }

  lemma FieldAppend(n: nat, width: nat, sep: char, rest: string, y: string)
    ensures Field(n, width, sep, rest) + y == Field(n, width, sep, rest + y)
  {
    ConcatAssoc(Pad(n, width), [sep] + rest, y);
    ConcatAssoc([sep], rest, y);
  }

  lemma NormalizeEndings(t: string)
    ensures Normalize(t + "Z") == t + OFFSET && Normalize(t + OFFSET) == t + OFFSET
  {
    assert (t + "Z")[..|t|] == t;
    assert (t + OFFSET)[|t| + 5] == '0';
  }

  lemma TextIs(s: Stamp)
    requires ValidStamp(s)
    ensures Text(s) == CivilText(s.civil, FracText(s.frac)) + OFFSET
  {
    CivilTextAppend(s.civil, FracText(s.frac), OFFSET);
    TailIs(s.frac);
  }

  lemma TailIs(f: string)
    ensures FracText(f) + OFFSET == StampTail(f)
  {
    if f == [] {
      assert [] + OFFSET == OFFSET;
    } else {
      ConcatAssoc(['.'], f, OFFSET);
    }
  }

  /** Both spellings of a UTC time normalise to one text. */
  lemma NormalizeUnifies(s: Stamp)
    requires ValidStamp(s)
    ensures Normalize(ZuluText(s)) == Text(s) && Normalize(Text(s)) == Text(s)
  {
    TextIs(s);
    NormalizeEndings(CivilText(s.civil, FracText(s.frac)));
  }

  /** Text order is time order: a strictly earlier time is a strictly smaller text, whatever the
      lengths of the two fractions. */
  lemma TextOrderIsTimeOrder(a: Stamp, b: Stamp)
    requires ValidStamp(a) && ValidStamp(b) && TimeOf(a) < TimeOf(b)
    ensures Less(Text(a), Text(b))
  {
    FracBelowOne(a.frac);
    FracBelowOne(b.frac);
    if Timegm(a.civil) < Timegm(b.civil) {
      CivilLess(a.civil, b.civil, StampTail(a.frac), StampTail(b.frac));
    } else {
      SameSecond(a.civil, b.civil);
      TailLess(a.frac, b.frac);
      CivilSame(a.civil, StampTail(a.frac), StampTail(b.frac));
    }
  }

  /** At one and the same time, the text with more fraction digits is the larger. */
  lemma SameTimeLongerIsLater(a: Stamp, b: Stamp)
    requires ValidStamp(a) && ValidStamp(b) && TimeOf(a) == TimeOf(b)
    ensures Less(Text(b), Text(a)) <==> |a.frac| > |b.frac|
  {
    FracBelowOne(a.frac);
    FracBelowOne(b.frac);
    assert Timegm(a.civil) == Timegm(b.civil);
    SameSecond(a.civil, b.civil);
    TailSame(a.frac, b.frac);
    CivilSame(a.civil, StampTail(b.frac), StampTail(a.frac));
  }

  lemma FractionRead(f: string)
    requires AllDigits(f)
    ensures Fraction(f + OFFSET) == FracValue(f)
  {
    RunOfDigits(f, OFFSET);
    FracIsDecimal(f);
    Unscale(FracValue(f), Pow10(|f|), DecimalValue(f));
  }

  lemma Unscale(x: real, p: int, v: int)
    requires p >= 1 && Scaled(x, p, v)
    ensures v as real / p as real == x
  {}

  lemma DotOfStamp(f: string)
    ensures AfterDot(StampTail(f)) == if f == [] then None else Some(f + OFFSET)
  {
    if f == [] {
      DotSkips(OFFSET, []);
      assert OFFSET + [] == OFFSET;
    } else {
      assert StampTail(f)[1..] == f + OFFSET;
    }
  }

  /** The time of a stamp is the time its text is read as. */
  lemma TimeIsRead(s: Stamp)
    requires ValidStamp(s)
    ensures IsoToUnix(Text(s)) == TimeOf(s)
  {
    ScanCivilWritten(s.civil, StampTail(s.frac));
    DotOfText(s.civil, StampTail(s.frac));
    DotOfStamp(s.frac);
    FractionRead(s.frac);
  }

  // ---- the shape of the text ----

  /** A number of the given width, a separator, and the rest. */
  ghost predicate Opens(s: string, n: nat, width: nat, sep: char, rest: string) {
    && |s| == width + 1 + |rest| && s[width] == sep && s[width + 1..] == rest
    && AllDigits(s[..width]) && DecimalValue(s[..width]) == n
  }

  lemma FieldOpens(n: nat, width: nat, sep: char, rest: string)
    requires width >= 1 && n < Pow10(width)
    ensures Opens(Field(n, width, sep, rest), n, width, sep, rest)
  {
    PadWidth(n, width);
    PadReads(n, width);
    assert Field(n, width, sep, rest)[..width] == Pad(n, width);
    assert Field(n, width, sep, rest)[width + 1..] == rest;
  }

  /** A time of day as text: two digits each, colons between, then the tail. */
  ghost predicate ClockShape(c: Civil, s: string, tail: string)
    requires Natural(c)
  {
    exists a, b :: Opens(s, c.hour, 2, ':', a) && Opens(a, c.minute, 2, ':', b)
                && |b| == 2 + |tail| && AllDigits(b[..2]) && DecimalValue(b[..2]) == c.second && b[2..] == tail
  }

  /** A date and time as text: four digits, two and two with dashes between, a T, and the time. */
  ghost predicate IsoShape(c: Civil, s: string, tail: string)
    requires Natural(c)
  {
    exists a, b, d :: Opens(s, c.year, 4, '-', a) && Opens(a, c.month, 2, '-', b) && Opens(b, c.day, 2, 'T', d)
                   && ClockShape(c, d, tail)
  }

  lemma ClockIs(c: Civil, tail: string)
    requires FourDigit(c)
    ensures ClockShape(c, TimeText(c, tail), tail)
  {
    Widths();
    var b := Pad(c.second, 2) + tail;
    var a := Field(c.minute, 2, ':', b);
    FieldOpens(c.hour, 2, ':', a);
    FieldOpens(c.minute, 2, ':', b);
    PadWidth(c.second, 2);
    PadReads(c.second, 2);
    assert b[..2] == Pad(c.second, 2) && b[2..] == tail;
  }

  /** The offset of UTC, and before it a point and six digits unless they are zero. */
  ghost predicate UtcTail(tail: string, us: nat) {
    if us == 0 then tail == "+00:00"
    else |tail| == 13 && tail[0] == '.' && AllDigits(tail[1..7]) && DecimalValue(tail[1..7]) == us && tail[7..] == "+00:00"
  }

  lemma TailShape(us: nat)
    requires us < 1000000
    ensures UtcTail(Tail(us), us)
  {
    SixDigits();
    PadWidth(us, 6);
    PadReads(us, 6);
    if us != 0 { assert Tail(us)[1..7] == Pad(us, 6) && Tail(us)[7..] == "+00:00"; }
  }

  ghost predicate Written(s: string, c: Civil, us: nat)
    requires Natural(c)
  {
    exists tail :: IsoShape(c, s, tail) && UtcTail(tail, us)
  }

  lemma CivilShape(c: Civil, tail: string)
    requires FourDigit(c)
    ensures IsoShape(c, CivilText(c, tail), tail)
  {
    Widths();
    ClockIs(c, tail);
    assert MonthLength(c.year, c.month) <= 31;
    var d := TimeText(c, tail);
    var b := Field(c.day, 2, 'T', d);
    var a := Field(c.month, 2, '-', b);
    FieldOpens(c.day, 2, 'T', d);
    FieldOpens(c.month, 2, '-', b);
    FieldOpens(c.year, 4, '-', a);
  }

  /** Every stored time of a four-digit year has that shape, to the nearest microsecond. */
  lemma WrittenShape(u: real)
    requires u >= 0.0
    requires var s := SplitTime(u); s.seconds >= 0 && FourDigit(Gmtime(s.seconds))
    ensures var s := SplitTime(u); s.us >= 0 && Written(UnixToIso(u), Gmtime(s.seconds), s.us)
  {
    SplitIsMicros(u);
    var s := SplitTime(u);
    TextWritten(UnixToIso(u), Gmtime(s.seconds), s.us);
  }

  lemma TextWritten(s: string, c: Civil, us: nat)
    requires FourDigit(c) && us < 1000000 && s == CivilText(c, Tail(us))
    ensures Written(s, c, us)
  {
    CivilShape(c, Tail(us));
    TailShape(us);
  }
}
