/** The real-time clock's conversions between seconds since 1970 and broken-down
    time (devrtc.c).  The two conversions are loops over years and months; they
    are specified by a closed form, and related to each other and to the
    "seconds since the Epoch" of IEEE Std 1003.1-2017. */
module Rtc {

  const SEC2DAY := 24 * 60 * 60

  // ulong is 32 bits wide
  const WRAP := 0x1_0000_0000

  // days per year, then days per month
  const DMSIZE: seq<int> := [365, 31, 28, 31, 30, 31, 30, 31, 31, 30, 31, 30, 31]
  const LDMSIZE: seq<int> := [366, 31, 29, 31, 30, 31, 30, 31, 31, 30, 31, 30, 31]

  // days of a common year that precede month m, for m in 1..13
  const BEFOREMONTH: seq<int> := [0, 0, 31, 59, 90, 120, 151, 181, 212, 243, 273, 304, 334, 365]

  function YrSize(yr: int): seq<int> {
    if yr % 4 == 0 then LDMSIZE else DMSIZE
  }

  /** The value of an Rtc structure, without the week day, which neither
      conversion looks at. */
  datatype Date = Date(sec: int, min: int, hour: int, mday: int, mon: int, year: int) {

    predicate Valid() {
      && 1970 <= year
      && 1 <= mon <= 12
      && 1 <= mday <= YrSize(year)[mon]
      && 0 <= hour < 24 && 0 <= min < 60 && 0 <= sec < 60
    }

    /** This date precedes d in lexicographic order. */
    predicate Before(d: Date) {
      || year < d.year
      || (year == d.year && mon < d.mon)
      || (year == d.year && mon == d.mon && mday < d.mday)
      || (year == d.year && mon == d.mon && mday == d.mday && TimeOfDay() < d.TimeOfDay())
    }

    function TimeOfDay(): int {
      hour * 3600 + min * 60 + sec
    }
  }

  /** Days from 1970 to the start of a year, counting every fourth year as leap. */
  function DaysBeforeYear(year: int): int {
    if year < 1970 then 0 else 365 * (year - 1970) + (year - 1969) / 4
  }

  function DaysBeforeMonth(year: int, mon: int): int
    requires mon <= 13
  {
    if mon < 1 then 0 else BEFOREMONTH[mon] + if year % 4 == 0 && 3 <= mon then 1 else 0
  }

  /** Days since 1 January 1970. */
  function DayNumber(d: Date): int
    requires d.mon <= 13
  {
    DaysBeforeYear(d.year) + DaysBeforeMonth(d.year, d.mon) + d.mday - 1
  }

  /** Seconds since the start of 1970, in closed form, without wrap-around. */
  function Secs(d: Date): int
    requires d.mon <= 13
  {
    DayNumber(d) * SEC2DAY + d.TimeOfDay()
  }

  class Rtc {
    var sec: int
    var min: int
    var hour: int
    var wday: int
    var mday: int
    var mon: int
    var year: int

    constructor (d: Date, wday: int)
      ensures Value() == d && this.wday == wday
    {
      sec, min, hour := d.sec, d.min, d.hour;
      mday, mon, year := d.mday, d.mon, d.year;
      this.wday := wday;
    }

    function Value(): Date
      reads this
    {
      Date(sec, min, hour, mday, mon, year)
    }
  }

  // ---------- the conversions ----------

  /** Only an index into the month table is demanded of the caller; the result is
      reduced to the width of a ulong at every step, as in the original. */
  method Rtc2Sec(rtc: Rtc) returns (secs: int)
    requires rtc.mon <= 13
    ensures secs == Secs(rtc.Value()) % WRAP
  {
    secs := 0;
    ghost var days := 0;
    var i := 1970;
    while i < rtc.year
      invariant 1970 <= i && (i == 1970 || i <= rtc.year)
      invariant days == DaysBeforeYear(i) && secs == days * SEC2DAY % WRAP
    {
      var d2m := YrSize(i);
      NextYear(i);
      AddDays(days, d2m[0]);
      secs, days := (secs + d2m[0] * SEC2DAY) % WRAP, days + d2m[0];
      i := i + 1;
    }

    var d2m := YrSize(rtc.year);
    i := 1;
    while i < rtc.mon
      invariant 1 <= i && (i == 1 || i <= rtc.mon)
      invariant days == DaysBeforeYear(rtc.year) + DaysBeforeMonth(rtc.year, i)
      invariant secs == days * SEC2DAY % WRAP
    {
      NextMonth(rtc.year, i);
      AddDays(days, d2m[i]);
      secs, days := (secs + d2m[i] * SEC2DAY) % WRAP, days + d2m[i];
      i := i + 1;
    }

    AddDays(days, rtc.mday - 1);
    secs, days := (secs + (rtc.mday - 1) * SEC2DAY) % WRAP, days + rtc.mday - 1;
    assert days == DayNumber(rtc.Value());
    AddTimeOfDay(days * SEC2DAY, rtc.hour * 3600, rtc.min * 60, rtc.sec);
    secs := (secs + rtc.hour * 3600) % WRAP;
    secs := (secs + rtc.min * 60) % WRAP;
    secs := (secs + rtc.sec) % WRAP;
  }

  /** The result is the one valid date whose seconds are secs (SecsInjective), and
      the week day is left alone. */
  method Sec2Rtc(secs: int, rtc: Rtc)
    requires 0 <= secs < WRAP
    modifies rtc
    ensures rtc.Value().Valid()
    ensures Secs(rtc.Value()) == secs
    ensures rtc.wday == old(rtc.wday)
  {
    var hms := secs % SEC2DAY;
    var day := secs / SEC2DAY;

    rtc.sec := hms % 60;
    var d := hms / 60;
    rtc.min := d % 60;
    d := d / 60;
    rtc.hour := d;

    d := 1970;
    while day >= YrSize(d)[0]
      modifies {}
      invariant 1970 <= d && 0 <= day
      invariant DaysBeforeYear(d) + day == secs / SEC2DAY
      decreases day
    {
      NextYear(d);
      day := day - YrSize(d)[0];
      d := d + 1;
    }
    rtc.year := d;

    var d2m := YrSize(rtc.year);
    d := 1;
    while day >= d2m[d]
      modifies {}
      invariant 1 <= d <= 12 && 0 <= day
      invariant DaysBeforeMonth(rtc.year, d) + day < d2m[0]
      invariant DaysBeforeYear(rtc.year) + DaysBeforeMonth(rtc.year, d) + day == secs / SEC2DAY
      decreases 12 - d
    {
      NextMonth(rtc.year, d);
      day := day - d2m[d];
      d := d + 1;
    }
    rtc.mday := day + 1;
    rtc.mon := d;
  }

  lemma NextYear(y: int)
    requires 1970 <= y
    ensures DaysBeforeYear(y + 1) == DaysBeforeYear(y) + YrSize(y)[0]
  {
  }

  lemma NextMonth(y: int, m: int)
    requires 1 <= m <= 12
    ensures DaysBeforeMonth(y, m + 1) == DaysBeforeMonth(y, m) + YrSize(y)[m]
    ensures m == 12 ==> DaysBeforeMonth(y, m + 1) == YrSize(y)[0]
  {
  }

  lemma AddDays(days: int, n: int)
    ensures (days * SEC2DAY % WRAP + n * SEC2DAY) % WRAP == (days + n) * SEC2DAY % WRAP
  {
  }

  lemma AddTimeOfDay(a: int, h: int, m: int, s: int)
    ensures (((a % WRAP + h) % WRAP + m) % WRAP + s) % WRAP == (a + h + m + s) % WRAP
  {
    assert ((a % WRAP + h) % WRAP + m) % WRAP == (a + h + m) % WRAP;
  }

  // ---------- what the two conversions are to each other ----------

  lemma {:induction false} YearsMonotone(y: int, z: int)
    requires 1970 <= y <= z
    ensures DaysBeforeYear(y) + (if y < z then YrSize(y)[0] else 0) <= DaysBeforeYear(z)
    decreases z - y
  {
    if y < z {
      NextYear(y);
      YearsMonotone(y + 1, z);
    }
  }

  lemma {:induction false} MonthsMonotone(y: int, m: int, n: int)
    requires 1 <= m <= n <= 13
    ensures DaysBeforeMonth(y, m) + (if m < n then YrSize(y)[m] else 0) <= DaysBeforeMonth(y, n)
    decreases n - m
  {
    if m < n {
      NextMonth(y, m);
      MonthsMonotone(y, m + 1, n);
    }
  }

  lemma DayNumberMonotone(a: Date, b: Date)
    requires a.Valid() && b.Valid() && a.Before(b)
    requires (a.year, a.mon, a.mday) != (b.year, b.mon, b.mday)
    ensures DayNumber(a) < DayNumber(b)
  {
    MonthsMonotone(a.year, a.mon, 13);
    if a.year < b.year {
      NextMonth(a.year, 12);
      YearsMonotone(a.year, b.year);
      MonthsMonotone(b.year, 1, b.mon);
    } else if a.mon < b.mon {
      MonthsMonotone(a.year, a.mon, b.mon);
    }
  }

  lemma TimeFitsDay(d: Date)
    requires d.Valid()
    ensures 0 <= d.TimeOfDay() < SEC2DAY
  {
  }

  lemma LaterDay(day: int, time: int, day': int, time': int)
    requires day < day' && time < SEC2DAY && 0 <= time'
    ensures day * SEC2DAY + time < day' * SEC2DAY + time'
  {
  }

  /** The conversion is strictly monotone in lexicographic date order. */
  lemma SecsMonotone(a: Date, b: Date)
    requires a.Valid() && b.Valid() && a.Before(b)
    ensures Secs(a) < Secs(b)
  {
    TimeFitsDay(a);
    TimeFitsDay(b);
    if (a.year, a.mon, a.mday) != (b.year, b.mon, b.mday) {
      DayNumberMonotone(a, b);
      LaterDay(DayNumber(a), a.TimeOfDay(), DayNumber(b), b.TimeOfDay());
    } else {
      assert DayNumber(a) == DayNumber(b);
    }
  }

  lemma BeforeIsTotal(a: Date, b: Date)
    requires a.Valid() && b.Valid()
    ensures a.Before(b) || b.Before(a) || a == b
  {
    if a.TimeOfDay() == b.TimeOfDay() {
      SameTime(a.hour, a.min, a.sec, b.hour, b.min, b.sec);
    }
  }

  lemma SameTime(h: int, m: int, s: int, h': int, m': int, s': int)
    requires 0 <= m < 60 && 0 <= s < 60 && 0 <= m' < 60 && 0 <= s' < 60
    requires h * 3600 + m * 60 + s == h' * 3600 + m' * 60 + s'
    ensures h == h' && m == m' && s == s'
  {
  }

  lemma SecsInjective(a: Date, b: Date)
    requires a.Valid() && b.Valid()
    ensures Secs(a) == Secs(b) <==> a == b
  {
    BeforeIsTotal(a, b);
    if a.Before(b) {
      SecsMonotone(a, b);
    } else if b.Before(a) {
      SecsMonotone(b, a);
    }
  }

  /** Every second count survives the trip through an Rtc. */
  method SecondsRoundTrip(secs: int, rtc: Rtc) returns (again: int)
    requires 0 <= secs < WRAP
    modifies rtc
    ensures again == secs
  {
    Sec2Rtc(secs, rtc);
    Fits(secs);
    again := Rtc2Sec(rtc);
  }

  /** A valid date survives the trip through a second count exactly when its
      seconds fit a ulong, that is up to early 2106; the week day never does. */
  method DateRoundTrip(rtc: Rtc, other: Rtc)
    requires rtc != other && rtc.Value().Valid()
    modifies other
    ensures other.Value() == rtc.Value() <==> Secs(rtc.Value()) < WRAP
    ensures other.wday == old(other.wday)
  {
    var secs := Rtc2Sec(rtc);
    Sec2Rtc(secs, other);
    SecsNonNegative(rtc.Value());
    Fits(Secs(rtc.Value()));
    SecsInjective(rtc.Value(), other.Value());
  }

  lemma SecsNonNegative(d: Date)
    requires d.Valid()
    ensures 0 <= Secs(d)
  {
    DayNonNegative(d);
    TimeFitsDay(d);
    LaterDay(-1, 0, DayNumber(d), d.TimeOfDay());
  }

  lemma DayNonNegative(d: Date)
    requires d.Valid()
    ensures 0 <= DayNumber(d)
  {
    assert 0 <= DaysBeforeYear(d.year);
    assert 0 <= BEFOREMONTH[d.mon];
  }

  /** Two dates agree modulo the ulong width exactly when the second one's seconds
      are the first one's, reduced. */
  lemma Fits(x: int)
    requires 0 <= x
    ensures x % WRAP == x <==> x < WRAP
  {
  }

  // ---------- the calendar ----------

  predicate GregorianLeap(year: int) {
    year % 4 == 0 && (year % 100 != 0 || year % 400 == 0)
  }

  predicate GregorianValid(d: Date) {
    d.Valid() && (d.mon == 2 && d.mday == 29 ==> GregorianLeap(d.year))
  }

  /** tm_yday of a Gregorian date. */
  function YDay(d: Date): int
    requires GregorianValid(d)
  {
    BEFOREMONTH[d.mon] + (if GregorianLeap(d.year) && 3 <= d.mon then 1 else 0) + d.mday - 1
  }

  /** Section 4.16 of the Base Definitions of IEEE Std 1003.1-2017. */
  function EpochSeconds(d: Date): int
    requires GregorianValid(d)
  {
    var tm_year := d.year - 1900;
    d.sec + d.min * 60 + d.hour * 3600 + YDay(d) * 86400
    + (tm_year - 70) * 31536000 + (tm_year - 69) / 4 * 86400
    - (tm_year - 1) / 100 * 86400 + (tm_year + 299) / 400 * 86400
  }

  predicate BeforeMarch2100(d: Date) {
    d.year < 2100 || (d.year == 2100 && d.mon <= 2)
  }

  /** Leap days the year-divisible-by-four rule counts and the Gregorian one does
      not, up to and including this date. */
  function SkippedLeapDays(d: Date): int {
    (d.year - 1901) / 100 - (d.year - 1601) / 400
    + if d.year % 4 == 0 && !GregorianLeap(d.year) && 3 <= d.mon then 1 else 0
  }

  lemma SkippedLeapDaysSign(d: Date)
    requires d.Valid()
    ensures 0 <= SkippedLeapDays(d)
    ensures SkippedLeapDays(d) == 0 <==> BeforeMarch2100(d)
  {
    var c := (d.year - 2001) / 100;
    assert (d.year - 1901) / 100 == c + 1 && (d.year - 1601) / 400 == (c + 4) / 4;
    Centuries(c);
  }

  lemma Centuries(c: int)
    requires -1 <= c
    ensures c + 1 - (c + 4) / 4 >= if c <= 0 then 0 else 1
    ensures c <= 0 ==> c + 1 - (c + 4) / 4 == 0
  {
  }

  lemma DayNumberInEpoch(d: Date)
    requires GregorianValid(d)
    ensures DayNumber(d) == YDay(d) + (d.year - 1970) * 365 + (d.year - 1969) / 4
                            + if d.year % 4 == 0 && !GregorianLeap(d.year) && 3 <= d.mon then 1 else 0
  {
  }

  lemma SecsInEpoch(d: Date)
    requires GregorianValid(d)
    ensures Secs(d) == EpochSeconds(d) + 86400 * SkippedLeapDays(d)
  {
    DayNumberInEpoch(d);
  }

  /** The year-divisible-by-four rule agrees with the standard on every Gregorian
      date before 1 March 2100, and on none after it. */
  lemma AgreesWithEpochExactlyBefore2100(d: Date)
    requires GregorianValid(d)
    ensures Secs(d) == EpochSeconds(d) <==> BeforeMarch2100(d)
  {
    SecsInEpoch(d);
    SkippedLeapDaysSign(d);
  }

  /** In March 2100 they are apart by the day that February 2100 does not have. */
  lemma March2100Example(d: Date)
    requires GregorianValid(d) && d.year == 2100 && d.mon == 3
    ensures Secs(d) == EpochSeconds(d) + SEC2DAY
  {
    SecsInEpoch(d);
  }
}
