// cpp/src/pmm/engine.cpp: a time as ISO text (section 5.6 of RFC 3339) and back, the way printf
// writes it and scanf, find and atof read it.
module Timestamps {
  import opened Common
  import opened Calendar

  predicate IsDigit(c: char) {
    '0' <= c <= '9'
  }

  function DigitChar(d: int): char
    requires 0 <= d <= 9
  {
    ['0', '1', '2', '3', '4', '5', '6', '7', '8', '9'][d]
  }

  function DigitValue(c: char): int {
    c as int - '0' as int
  }

  predicate AllDigits(s: string) {
    forall i :: 0 <= i < |s| ==> IsDigit(s[i])
  }

  function Decimal(n: nat): string {
    if n < 10 then [DigitChar(n)] else Decimal(n / 10) + [DigitChar(n % 10)]
  }

  /** Zero-padded to at least the width, as %04d. */
  function Pad(n: nat, width: nat): string
    decreases width
  {
    if width <= 1 then Decimal(n) else Pad(n / 10, width - 1) + [DigitChar(n % 10)]
  }

  function DecimalValue(s: string): int {
    if s == [] then 0 else 10 * DecimalValue(s[..|s| - 1]) + DigitValue(s[|s| - 1])
  }

  // ---- writing ----

  function Field(n: nat, width: nat, sep: char, rest: string): string {
    Pad(n, width) + ([sep] + rest)
  }

  /** Everything after the seconds: the fraction unless it is zero, and the UTC offset. */
  function Tail(us: nat): string {
    if us == 0 then "+00:00" else "." + (Pad(us, 6) + "+00:00")
  }

  predicate Natural(c: Civil) {
    c.year >= 0 && c.month >= 0 && c.day >= 0 && c.hour >= 0 && c.minute >= 0 && c.second >= 0
  }

  function CivilText(c: Civil, tail: string): string
    requires Natural(c)
  {
    Field(c.year, 4, '-', Field(c.month, 2, '-', Field(c.day, 2, 'T',
      Field(c.hour, 2, ':', Field(c.minute, 2, ':', Pad(c.second, 2) + tail)))))
  }

  /** Whole seconds, and microseconds to the nearest with a carry. */
  datatype Split = Split(seconds: int, us: int)

  function SplitTime(u: real): Split {
    var t := u.Floor;
    var us := ((u - t as real) * 1000000.0 + 0.5).Floor;
    if us >= 1000000 then Split(t + 1, us - 1000000) else Split(t, us)
  }

  lemma SplitIsMicros(u: real)
    ensures var s := SplitTime(u); 0 <= s.us < 1000000 && s.seconds * 1000000 + s.us == (u * 1000000.0 + 0.5).Floor
  {
    var t := u.Floor;
    var part := ((u - t as real) * 1000000.0 + 0.5).Floor;
    assert u * 1000000.0 + 0.5 == ((u - t as real) * 1000000.0 + 0.5) + (t * 1000000) as real;
    FloorShift((u - t as real) * 1000000.0 + 0.5, t * 1000000);
  }

  lemma FloorShift(x: real, n: int)
    ensures (x + n as real).Floor == x.Floor + n
  {}

  function UnixToIso(u: real): string
    requires u >= 0.0
  {
    SplitIsMicros(u);
    var s := SplitTime(u);
    assert s.seconds >= 0;
    GmtimeInverts(s.seconds);
    CivilText(Gmtime(s.seconds), Tail(s.us))
  }

  // ---- reading ----

  datatype Scanned = Scanned(value: int, rest: string)

  function Blanks(s: string): string {
    if s != [] && (s[0] == ' ' || '\t' <= s[0] <= '\r') then Blanks(s[1..]) else s
  }

  /** Length of the run of digits at the front. */
  function DigitRun(s: string): (n: nat)
    ensures n <= |s|
  {
    if s == [] || !IsDigit(s[0]) then 0 else 1 + DigitRun(s[1..])
  }

  /** A %d: blanks, an optional sign, at least one digit. */
  function ScanInt(s: string): Option<Scanned> {
    var b := Blanks(s);
    var signed := b != [] && (b[0] == '-' || b[0] == '+');
    var d := if signed then b[1..] else b;
    var n := DigitRun(d);
    if n == 0 then None
    else Some(Scanned(if signed && b[0] == '-' then -DecimalValue(d[..n]) else DecimalValue(d[..n]), d[n..]))
  }

  /** A %d and the literal character after it. */
  function ScanField(s: string, sep: char): Option<Scanned> {
    var r := ScanInt(s);
    if r.None? || r.value.rest == [] || r.value.rest[0] != sep then None
    else Some(Scanned(r.value.value, r.value.rest[1..]))
  }

  function ScanTime(date: Civil, s: string): Option<Civil> {
    var h := ScanField(s, ':');
    if h.None? then None else
    var mi := ScanField(h.value.rest, ':');
    if mi.None? then None else
    var sec := ScanInt(mi.value.rest);
    if sec.None? then None
    else Some(date.(hour := h.value.value, minute := mi.value.value, second := sec.value.value))
  }

  function ScanCivil(s: string): Option<Civil> {
    var y := ScanField(s, '-');
    if y.None? then None else
    var m := ScanField(y.value.rest, '-');
    if m.None? then None else
    var d := ScanField(m.value.rest, 'T');
    if d.None? then None
    else ScanTime(Civil(y.value.value, m.value.value, d.value.value, 0, 0, 0), d.value.rest)
  }

  /** What follows the first dot of the whole text. */
  function AfterDot(s: string): Option<string> {
    if s == [] then None else if s[0] == '.' then Some(s[1..]) else AfterDot(s[1..])
  }

  /** The digits of a fraction as a value below one. */
  function Fraction(s: string): real {
    var n := DigitRun(s);
    DecimalValue(s[..n]) as real / Pow10(n) as real
  }

  function IsoToUnix(s: string): real {
    var c := ScanCivil(s);
    if c.None? then 0.0
    else
      var dot := AfterDot(s);
      Timegm(c.value) as real + if dot.Some? then Fraction(dot.value) else 0.0
  }

  // ---- digits ----

  lemma DigitChars(d: int)
    requires 0 <= d <= 9
    ensures IsDigit(DigitChar(d)) && DigitValue(DigitChar(d)) == d
  {}

  lemma AppendDigit(s: string, n: nat)
    requires AllDigits(s) && DecimalValue(s) == n / 10
    ensures var t := s + [DigitChar(n % 10)]; AllDigits(t) && DecimalValue(t) == n
  {
    DigitChars(n % 10);
    var t := s + [DigitChar(n % 10)];
    assert t[..|t| - 1] == s;
  }

  lemma {:induction false} DecimalReads(n: nat)
    ensures AllDigits(Decimal(n)) && |Decimal(n)| >= 1 && DecimalValue(Decimal(n)) == n
  {
    if n < 10 {
      AppendDigit([], n);
      assert Decimal(n) == [] + [DigitChar(n % 10)];
    } else {
      DecimalReads(n / 10);
      AppendDigit(Decimal(n / 10), n);
    }
  }

  lemma {:induction false} PadReads(n: nat, width: nat)
    ensures AllDigits(Pad(n, width)) && |Pad(n, width)| >= 1 && DecimalValue(Pad(n, width)) == n
    decreases width
  {
    if width <= 1 {
      DecimalReads(n);
    } else {
      PadReads(n / 10, width - 1);
      AppendDigit(Pad(n / 10, width - 1), n);
    }
  }

  /** Numbers that fit are written at exactly the width. */
  lemma {:induction false} PadWidth(n: nat, width: nat)
    requires width >= 1 && n < Pow10(width)
    ensures |Pad(n, width)| == width
    decreases width
  {
    if width == 1 {
      assert Pow10(1) == 10;
    } else {
      assert n / 10 < Pow10(width - 1);
      PadWidth(n / 10, width - 1);
    }
  }

  predicate EndsDigits(rest: string) {
    rest == [] || !IsDigit(rest[0])
  }

  lemma {:induction false} RunOfDigits(ds: string, rest: string)
    requires AllDigits(ds) && EndsDigits(rest)
    ensures DigitRun(ds + rest) == |ds|
    ensures (ds + rest)[..|ds|] == ds && (ds + rest)[|ds|..] == rest
  {
    if ds == [] {
      assert ds + rest == rest;
    } else {
      assert (ds + rest)[1..] == ds[1..] + rest;
      RunOfDigits(ds[1..], rest);
    }
  }

  lemma ScanPadded(n: nat, width: nat, rest: string)
    requires EndsDigits(rest)
    ensures ScanInt(Pad(n, width) + rest) == Some(Scanned(n, rest))
  {
    var ds := Pad(n, width);
    PadReads(n, width);
    RunOfDigits(ds, rest);
    assert (ds + rest)[0] == ds[0] && IsDigit(ds[0]);
    assert Blanks(ds + rest) == ds + rest;
  }

  lemma ScanWritten(n: nat, width: nat, sep: char, rest: string)
    requires !IsDigit(sep)
    ensures ScanField(Field(n, width, sep, rest), sep) == Some(Scanned(n, rest))
  {
    ScanPadded(n, width, [sep] + rest);
    assert ([sep] + rest)[1..] == rest;
  }

  lemma ScanTimeWritten(c: Civil, tail: string)
    requires Natural(c) && EndsDigits(tail)
    ensures ScanTime(c.(hour := 0, minute := 0, second := 0),
                     Field(c.hour, 2, ':', Field(c.minute, 2, ':', Pad(c.second, 2) + tail))) == Some(c)
  {
    var sec := Pad(c.second, 2) + tail;
    ScanWritten(c.hour, 2, ':', Field(c.minute, 2, ':', sec));
    ScanWritten(c.minute, 2, ':', sec);
    ScanPadded(c.second, 2, tail);
  }

  lemma ScanCivilWritten(c: Civil, tail: string)
    requires Natural(c) && EndsDigits(tail)
    ensures ScanCivil(CivilText(c, tail)) == Some(c)
  {
    var time := Field(c.hour, 2, ':', Field(c.minute, 2, ':', Pad(c.second, 2) + tail));
    var days := Field(c.day, 2, 'T', time);
    ScanWritten(c.year, 4, '-', Field(c.month, 2, '-', days));
    ScanWritten(c.month, 2, '-', days);
    ScanWritten(c.day, 2, 'T', time);
    ScanTimeWritten(c, tail);
    assert Civil(c.year, c.month, c.day, 0, 0, 0) == c.(hour := 0, minute := 0, second := 0);
  }

  // ---- the fraction ----

  predicate NoDot(s: string) {
    forall i :: 0 <= i < |s| ==> s[i] != '.'
  }

  lemma {:induction false} DotSkips(s: string, rest: string)
    requires NoDot(s)
    ensures AfterDot(s + rest) == AfterDot(rest)
  {
    if s == [] {
      assert s + rest == rest;
    } else {
      assert (s + rest)[1..] == s[1..] + rest;
      DotSkips(s[1..], rest);
    }
  }

  lemma DotSkipsField(n: nat, width: nat, sep: char, rest: string)
    requires sep != '.'
    ensures AfterDot(Field(n, width, sep, rest)) == AfterDot(rest)
  {
    PadReads(n, width);
    DotSkips(Pad(n, width), [sep] + rest);
    DotSkips([sep], rest);
  }

  lemma DotOfText(c: Civil, tail: string)
    requires Natural(c)
    ensures AfterDot(CivilText(c, tail)) == AfterDot(tail)
  {
    var sec := Pad(c.second, 2) + tail;
    var minute := Field(c.minute, 2, ':', sec);
    var hour := Field(c.hour, 2, ':', minute);
    var day := Field(c.day, 2, 'T', hour);
    DotSkipsField(c.year, 4, '-', Field(c.month, 2, '-', day));
    DotSkipsField(c.month, 2, '-', day);
    DotSkipsField(c.day, 2, 'T', hour);
    DotSkipsField(c.hour, 2, ':', minute);
    DotSkipsField(c.minute, 2, ':', sec);
    PadReads(c.second, 2);
    DotSkips(Pad(c.second, 2), tail);
  }

  const OFFSET := "+00:00"

  lemma DotOfTail(us: nat)
    ensures AfterDot(Tail(us)) == if us == 0 then None else Some(Pad(us, 6) + OFFSET)
  {
    if us == 0 {
      DotSkips(OFFSET, []);
      assert OFFSET + [] == OFFSET;
    } else {
      assert Tail(us)[1..] == Pad(us, 6) + OFFSET;
    }
  }

  lemma SixDigits()
    ensures Pow10(6) == 1000000
  {
    assert Pow10(3) == 1000;
    assert Pow10(6) == 10 * (10 * (10 * Pow10(3)));
  }

  lemma FractionWritten(us: nat)
    requires us < 1000000
    ensures Fraction(Pad(us, 6) + OFFSET) == us as real / 1000000.0
  {
    SixDigits();
    PadReads(us, 6);
    PadWidth(us, 6);
    RunOfDigits(Pad(us, 6), OFFSET);
  }

  /** Writing a time and reading it back gives the time to the nearest microsecond, for every time
      since 1970: also when the fraction rounds up into the next second, and when it is left out
      because it is zero. */
  lemma RoundTrip(u: real)
    requires u >= 0.0
    ensures IsoToUnix(UnixToIso(u)) == RoundMicro(u)
  {
    var s := SplitTime(u);
    SplitRounds(u);
    GmtimeInverts(s.seconds);
    ReadBack(UnixToIso(u), Gmtime(s.seconds), s.us);
  }

  lemma SplitRounds(u: real)
    requires u >= 0.0
    ensures var s := SplitTime(u); s.seconds >= 0 && 0 <= s.us < 1000000 && s.seconds as real + s.us as real / 1000000.0 == RoundMicro(u)
  {
    SplitIsMicros(u);
    var s := SplitTime(u);
    SumOfParts(s.seconds, s.us);
  }

  lemma ReadBack(text: string, c: Civil, us: nat)
    requires Natural(c) && us < 1000000 && text == CivilText(c, Tail(us))
    ensures IsoToUnix(text) == Timegm(c) as real + us as real / 1000000.0
  {
    assert EndsDigits(Tail(us));
    ScanCivilWritten(c, Tail(us));
    DotOfText(c, Tail(us));
    DotOfTail(us);
    if us != 0 { FractionWritten(us); }
  }

  lemma SumOfParts(seconds: int, us: int)
    ensures seconds as real + us as real / 1000000.0 == (seconds * 1000000 + us) as real / 1000000.0
  {}

  /** A text without digits is read as no time at all, which is 0. */
  lemma UnreadableIsZero(s: string)
    requires forall i :: 0 <= i < |s| ==> !IsDigit(s[i])
    ensures IsoToUnix(s) == 0.0
  {
    BlanksSkip(s);
  }

  lemma {:induction false} BlanksSkip(s: string)
    requires forall i :: 0 <= i < |s| ==> !IsDigit(s[i])
    ensures forall i :: 0 <= i < |Blanks(s)| ==> !IsDigit(Blanks(s)[i])
  {
    if s != [] { BlanksSkip(s[1..]); }
  }
}
