// Gregorian calendar arithmetic: gmtime as a walk over years and months from 1970, timegm as the
// closed form; cpp/src/pmm/engine.cpp relies on both being inverse to each other.
module Calendar {

  predicate Leap(y: int) {
    y % 4 == 0 && (y % 100 != 0 || y % 400 == 0)
  }

  function YearLength(y: int): int {
    if Leap(y) then 366 else 365
  }

  function MonthLength(y: int, m: int): int {
    if m == 2 then (if Leap(y) then 29 else 28)
    else if m == 4 || m == 6 || m == 9 || m == 11 then 30 else 31
  }

  /** Days before the month in an ordinary year, and in this one. */
  function Cumulative(m: int): int {
    if m <= 1 then 0 else if m == 2 then 31 else if m == 3 then 59 else if m == 4 then 90 else if m == 5 then 120
    else if m == 6 then 151 else if m == 7 then 181 else if m == 8 then 212 else if m == 9 then 243
    else if m == 10 then 273 else if m == 11 then 304 else if m == 12 then 334 else 365
  }

  function DaysBeforeMonth(y: int, m: int): int {
    Cumulative(m) + if m > 2 && Leap(y) then 1 else 0
  }

  /** Leap years up to and including y, on the proleptic calendar. */
  function LeapsThrough(y: int): int {
    y / 4 - y / 100 + y / 400
  }

  function DaysBeforeYear(y: int): int {
    365 * (y - 1970) + LeapsThrough(y - 1) - LeapsThrough(1969)
  }

  datatype Civil = Civil(year: int, month: int, day: int, hour: int, minute: int, second: int)

  /** Months outside 1..12 carry into the year, as timegm does. */
  function Days(y: int, m: int, d: int): int {
    var y', m' := y + (m - 1) / 12, (m - 1) % 12 + 1;
    DaysBeforeYear(y') + DaysBeforeMonth(y', m') + d - 1
  }

  function Timegm(c: Civil): int {
    Days(c.year, c.month, c.day) * 86400 + c.hour * 3600 + c.minute * 60 + c.second
  }

  datatype YearDay = YearDay(year: int, day: nat)
  datatype MonthDay = MonthDay(month: int, day: nat)

  function WalkYears(y: int, days: nat): YearDay
    decreases days
  {
    if days < YearLength(y) then YearDay(y, days) else WalkYears(y + 1, days - YearLength(y))
  }

  function WalkMonths(y: int, m: int, days: nat): MonthDay
    decreases days
  {
    if days < MonthLength(y, m) || m >= 12 then MonthDay(m, days) else WalkMonths(y, m + 1, days - MonthLength(y, m))
  }

  function Gmtime(t: nat): Civil {
    var yd := WalkYears(1970, t / 86400);
    var md := WalkMonths(yd.year, 1, yd.day);
    var s := t % 86400;
    Civil(yd.year, md.month, md.day + 1, s / 3600, s / 60 % 60, s % 60)
  }

  /** A date and time that exists. */
  predicate Exists(c: Civil) {
    && 1 <= c.month <= 12 && 1 <= c.day <= MonthLength(c.year, c.month)
    && 0 <= c.hour < 24 && 0 <= c.minute < 60 && 0 <= c.second < 60
  }

  lemma LeapStep(y: int)
    ensures LeapsThrough(y) == LeapsThrough(y - 1) + if Leap(y) then 1 else 0
  {
    QuotientStep(y, 4);
    QuotientStep(y, 100);
    QuotientStep(y, 400);
    Centuries(y);
  }

  lemma QuotientStep(y: int, k: int)
    requires k == 4 || k == 100 || k == 400
    ensures y / k == (y - 1) / k + if y % k == 0 then 1 else 0
  {}

  lemma Centuries(y: int)
    ensures y % 100 == 0 ==> y % 4 == 0
    ensures y % 400 == 0 ==> y % 100 == 0
  {
    var q, r := y / 100, y / 400;
    if y % 100 == 0 { assert y == 4 * (25 * q); }
    if y % 400 == 0 { assert y == 100 * (4 * r); }
  }

  lemma YearStep(y: int)
    ensures DaysBeforeYear(y + 1) == DaysBeforeYear(y) + YearLength(y)
  {
    LeapStep(y);
  }

  lemma {:induction false} YearsMonotone(y: int, z: int)
    requires y <= z
    ensures DaysBeforeYear(y) <= DaysBeforeYear(z)
    decreases z - y
  {
    if y < z {
      YearStep(z - 1);
      YearsMonotone(y, z - 1);
    }
  }

  lemma MonthStep(y: int, m: int)
    requires 1 <= m < 12
    ensures DaysBeforeMonth(y, m + 1) == DaysBeforeMonth(y, m) + MonthLength(y, m)
  {}

  lemma MonthsFit(y: int, m: int)
    requires 1 <= m <= 12
    ensures 0 <= DaysBeforeMonth(y, m) && DaysBeforeMonth(y, m) + MonthLength(y, m) <= YearLength(y)
  {}

  lemma {:induction false} WalkYearsInverts(y: int, days: nat)
    ensures var r := WalkYears(y, days);
            && DaysBeforeYear(r.year) + r.day == DaysBeforeYear(y) + days
            && 0 <= r.day < YearLength(r.year) && r.year >= y
    decreases days
  {
    if days >= YearLength(y) {
      YearStep(y);
      WalkYearsInverts(y + 1, days - YearLength(y));
    }
  }

  lemma {:induction false} WalkMonthsInverts(y: int, m: int, days: nat)
    requires 1 <= m <= 12 && DaysBeforeMonth(y, m) + days < YearLength(y)
    ensures var r := WalkMonths(y, m, days);
            && DaysBeforeMonth(y, r.month) + r.day == DaysBeforeMonth(y, m) + days
            && m <= r.month <= 12 && 0 <= r.day < MonthLength(y, r.month)
    decreases days
  {
    if days >= MonthLength(y, m) && m < 12 {
      MonthStep(y, m);
      WalkMonthsInverts(y, m + 1, days - MonthLength(y, m));
    }
  }

  lemma DaysInRange(y: int, m: int, d: int)
    requires 1 <= m <= 12
    ensures Days(y, m, d) == DaysBeforeYear(y) + DaysBeforeMonth(y, m) + d - 1
  {}

  lemma SecondsOfDay(s: int)
    requires 0 <= s < 86400
    ensures s / 3600 * 3600 + s / 60 % 60 * 60 + s % 60 == s && 0 <= s / 3600 < 24
  {
    assert s / 60 / 60 == s / 3600;
  }

  /** Every second since 1970 is a date that exists, and timegm takes it back. */
  lemma GmtimeInverts(t: nat)
    ensures Exists(Gmtime(t)) && Timegm(Gmtime(t)) == t && Gmtime(t).year >= 1970
  {
    var yd := WalkYears(1970, t / 86400);
    WalkYearsInverts(1970, t / 86400);
    WalkMonthsInverts(yd.year, 1, yd.day);
    var md := WalkMonths(yd.year, 1, yd.day);
    SecondsOfDay(t % 86400);
    DaysInRange(yd.year, md.month, md.day + 1);
    assert DaysBeforeYear(1970) == 0;
  }

  // ---- order ----

  predicate DateBefore(a: Civil, b: Civil) {
    a.year < b.year || (a.year == b.year && (a.month < b.month || (a.month == b.month && a.day < b.day)))
  }

  predicate TimeBefore(a: Civil, b: Civil) {
    a.hour < b.hour || (a.hour == b.hour && (a.minute < b.minute || (a.minute == b.minute && a.second < b.second)))
  }

  predicate SameDate(a: Civil, b: Civil) {
    a.year == b.year && a.month == b.month && a.day == b.day
  }

  /** Field by field, from the year down. */
  predicate Before(a: Civil, b: Civil) {
    DateBefore(a, b) || (SameDate(a, b) && TimeBefore(a, b))
  }

  lemma {:induction false} MonthsMonotone(y: int, m: int, n: int)
    requires 1 <= m < n <= 12
    ensures DaysBeforeMonth(y, m) + MonthLength(y, m) <= DaysBeforeMonth(y, n)
    decreases n - m
  {
    MonthStep(y, m);
    if m + 1 < n {
      MonthsMonotone(y, m + 1, n);
      assert MonthLength(y, m + 1) >= 0;
    }
  }

  lemma DateOrder(a: Civil, b: Civil)
    requires Exists(a) && Exists(b) && DateBefore(a, b)
    ensures Days(a.year, a.month, a.day) < Days(b.year, b.month, b.day)
  {
    DaysInRange(a.year, a.month, a.day);
    DaysInRange(b.year, b.month, b.day);
    if a.year < b.year {
      YearOrder(a, b);
    } else if a.month < b.month {
      MonthsMonotone(a.year, a.month, b.month);
    }
  }

  lemma YearOrder(a: Civil, b: Civil)
    requires Exists(a) && Exists(b) && a.year < b.year
    ensures DaysBeforeYear(a.year) + DaysBeforeMonth(a.year, a.month) + a.day
          < DaysBeforeYear(b.year) + DaysBeforeMonth(b.year, b.month) + b.day
  {
    MonthsFit(a.year, a.month);
    MonthsFit(b.year, b.month);
    YearStep(a.year);
    YearsMonotone(a.year + 1, b.year);
  }

  /** For dates that exist, earlier in seconds is exactly earlier field by field. */
  lemma BeforeIff(a: Civil, b: Civil)
    requires Exists(a) && Exists(b)
    ensures Timegm(a) < Timegm(b) <==> Before(a, b)
  {
    if DateBefore(a, b) {
      DateOrder(a, b);
    } else if DateBefore(b, a) {
      DateOrder(b, a);
    } else {
      assert SameDate(a, b);
    }
  }

  // ---- against other accounts of the calendar ----

  /** The Gregorian cycle: 400 years have 146097 days; and counted from March the months are the
      closed form of 153 days every five months. */
  lemma GregorianCycle(y: int, m: int)
    requires 3 <= m <= 12
    ensures DaysBeforeYear(y + 400) == DaysBeforeYear(y) + 146097
    ensures DaysBeforeMonth(y, m) - DaysBeforeMonth(y, 3) == (153 * (m - 3) + 2) / 5
    ensures MonthLength(y, 1) == 31 && MonthLength(y, 2) == DaysBeforeMonth(y, 3) - 31 && MonthLength(y, 12) == 31
  {
    assert (y + 400 - 1) / 400 == (y - 1) / 400 + 1;
    assert (y + 400 - 1) / 100 == (y - 1) / 100 + 4;
    assert (y + 400 - 1) / 4 == (y - 1) / 4 + 100;
  }

  /** The leap day of the year 2000, which the century rule alone would drop. */
  lemma KnownSecond()
    ensures Timegm(Civil(2000, 2, 29, 0, 0, 0)) == 951782400 && Exists(Civil(2000, 2, 29, 0, 0, 0))
    ensures !Exists(Civil(1900, 2, 29, 0, 0, 0))
  {}
}
