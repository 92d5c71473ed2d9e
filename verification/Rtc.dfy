/** The calendar conversions of kernel/bsp/sm8250/drivers/rtc.c against the Gregorian calendar. */
module Rtc {
  import opened Machine

  const DAY: nat := 86400

  datatype Time = Time(year: nat, month: nat, day: nat, hour: nat, minute: nat, second: nat)

  predicate IsLeap(y: int) { (y % 4 == 0 && y % 100 != 0) || y % 400 == 0 }

  const MONTH_LENGTHS: seq<nat> := [31, 28, 31, 30, 31, 30, 31, 31, 30, 31, 30, 31]

  function DaysInMonth(y: int, m: nat): (d: nat)
    requires 1 <= m <= 12
    ensures 28 <= d <= 31
  {
    if m == 2 && IsLeap(y) then 29 else MONTH_LENGTHS[m - 1]
  }

  function DaysInYear(y: int): nat { if IsLeap(y) then 366 else 365 }

  ghost predicate ValidTime(t: Time) {
    && 1970 <= t.year && 1 <= t.month <= 12 && 1 <= t.day <= DaysInMonth(t.year, t.month)
    && t.hour < 24 && t.minute < 60 && t.second < 60
  }

  // ---------- The Gregorian calendar ----------

  /** Days from the start of 1970 to the start of year `y`. */
  function DaysBeforeYear(y: nat): nat {
    if y <= 1970 then 0 else DaysBeforeYear(y - 1) + DaysInYear(y - 1)
  }

  function DaysBeforeMonth(y: nat, m: nat): nat
    requires m <= 13
  {
    if m <= 1 then 0 else DaysBeforeMonth(y, m - 1) + DaysInMonth(y, m - 1)
  }

  /** Seconds since the start of 1970. */
  function Seconds(t: Time): nat
    requires 1 <= t.month <= 12 && 1 <= t.day
  {
    (DaysBeforeYear(t.year) + DaysBeforeMonth(t.year, t.month) + (t.day - 1)) * DAY
    + t.hour * 3600 + t.minute * 60 + t.second
  }

  /** The day count of the "Seconds Since the Epoch" formula of IEEE Std 1003.1-2017, Base
      Definitions, section 4.16, with its correction terms for centuries. */
  function PosixFormula(y: nat): int
    requires y >= 1970
  {
    365 * (y - 1970) + (y - 1969) / 4 - (y - 1901) / 100 + (y - 1601) / 400
  }

  lemma {:induction false} PosixDays(y: nat)
    requires y >= 1970
    ensures DaysBeforeYear(y) == PosixFormula(y)
  {
    hide PosixFormula, DaysInYear;
    if y > 1970 {
      PosixDays(y - 1);
      PosixStep(y - 1);
    } else {
      PosixStart();
    }
  }

  lemma PosixStart()
    ensures PosixFormula(1970) == 0
  {
  }

  lemma PosixStep(y: nat)
    requires y >= 1970
    ensures PosixFormula(y + 1) == PosixFormula(y) + DaysInYear(y)
  {
    Every4(y);
    Every100(y);
    Every400(y);
    LeapRule(y);
    hide DaysInYear, Indicator;
  }

  function Indicator(b: bool): nat { if b then 1 else 0 }

  /** The leap-year rule as a sum: a day every 4 years, but not every 100, but every 400. */
  lemma LeapRule(y: nat)
    ensures DaysInYear(y) == 365 + Indicator(y % 4 == 0) - Indicator(y % 100 == 0) + Indicator(y % 400 == 0)
    ensures Indicator(y % 100 == 0 && y % 400 != 0) == Indicator(y % 100 == 0) - Indicator(y % 400 == 0)
  {
    assert y % 400 == 0 ==> y % 100 == 0;
    assert y % 100 == 0 ==> y % 4 == 0;
  }

  lemma Every4(y: nat)
    requires y >= 1970
    ensures (y - 1968) / 4 == (y - 1969) / 4 + Indicator(y % 4 == 0)
  {
  }

  lemma Every100(y: nat)
    requires y >= 1970
    ensures (y - 1900) / 100 == (y - 1901) / 100 + Indicator(y % 100 == 0)
  {
  }

  lemma Every400(y: nat)
    requires y >= 1970
    ensures (y - 1600) / 400 == (y - 1601) / 400 + Indicator(y % 400 == 0)
  {
  }

  /** Century years in 1970..y that are no leap years. */
  function SkippedLeapDays(y: nat): nat {
    if y <= 1970 then 0
    else SkippedLeapDays(y - 1) + Indicator((y - 1) % 100 == 0 && (y - 1) % 400 != 0)
  }

  lemma {:induction false} QuarterDays(y: nat)
    requires y >= 1970
    ensures 365 * (y - 1970) + (y - 1969) / 4 == DaysBeforeYear(y) + SkippedLeapDays(y)
  {
    if y > 1970 {
      QuarterDays(y - 1);
      Every4(y - 1);
      LeapRule(y - 1);
      hide DaysInYear, Indicator;
    }
  }

  lemma {:induction false} SkippedFrom2101(y: nat)
    ensures SkippedLeapDays(y) == 0 <==> y <= 2100
    ensures y >= 1970 ==> SkippedLeapDays(y) <= (y - 1) / 100 - 19
  {
    if y > 1970 { SkippedFrom2101(y - 1); }
  }

  // ---------- Date to seconds ----------

  /** C division, which truncates towards zero. */
  function TruncDiv(a: int, b: nat): int
    requires b > 0
  {
    if a >= 0 then a / b else -(-a / b)
  }

  function ToEpoch(t: Time): nat
    requires t.month <= 13
  {
    ((((t.year - 1970) * 365 + TruncDiv(t.year - 1969, 4)) + DaysBeforeMonth(t.year, t.month) + (t.day - 1)) * DAY
     + t.hour * 3600 + t.minute * 60 + t.second) % TWO64
  }

  method TimeToEpoch(t: Time) returns (epoch: nat)
    requires t.month <= 13
    ensures epoch == ToEpoch(t)
  {
    var days := (t.year - 1970) * 365 + TruncDiv(t.year - 1969, 4);
    for i := 1 to if t.month == 0 then 1 else t.month
      invariant days == (t.year - 1970) * 365 + TruncDiv(t.year - 1969, 4) + DaysBeforeMonth(t.year, i)
    {
      days := days + DaysInMonth(t.year, i);
    }
    days := days + t.day - 1;
    epoch := (days * DAY + t.hour * 3600 + t.minute * 60 + t.second) % TWO64;
  }

  /** For every valid date from 1970 on, the result is a day too late for every century year
      without a leap day that has passed. */
  lemma ToEpochDrift(t: Time)
    requires ValidTime(t) && t.year < 0x1_0000
    ensures ToEpoch(t) == Seconds(t) + SkippedLeapDays(t.year) * DAY
  {
    QuarterDays(t.year);
    DayOfYear(t.year, t.month, t.day);
    SkippedFrom2101(t.year);
    var days := (t.year - 1970) * 365 + TruncDiv(t.year - 1969, 4);
    assert 0 <= days == DaysBeforeYear(t.year) + SkippedLeapDays(t.year) <= 365 * 63565 + 15892;
    hide DaysBeforeMonth, DaysBeforeYear, SkippedLeapDays, DaysInMonth, TruncDiv;
    NoWrap(days + DaysBeforeMonth(t.year, t.month) + (t.day - 1), t.hour * 3600 + t.minute * 60 + t.second);
  }

  /** Before 1970 days count down: 365 for each year, and one more for every four whole years
      before 1969. */
  lemma BeforeEpoch(t: Time)
    requires t.year < 1970 && t.month <= 13
    ensures ToEpoch(t) ==
      ((DaysBeforeMonth(t.year, t.month) + t.day - 1 - 365 * (1970 - t.year) - (1969 - t.year) / 4) * DAY
       + t.hour * 3600 + t.minute * 60 + t.second) % TWO64
  {
    hide DaysBeforeMonth;
  }

  lemma NoWrap(days: nat, rest: nat)
    requires days <= 365 * 63565 + 15892 + 366 && rest <= DAY
    ensures (days * DAY + rest) % TWO64 == days * DAY + rest
  {
  }

  lemma {:induction false} MonthsAddUp(y: nat, m: nat)
    requires 1 <= m <= 13
    ensures DaysBeforeMonth(y, m) + (if m == 13 then 0 else 28) <= DaysInYear(y)
    ensures DaysBeforeMonth(y, 13) == DaysInYear(y)
  {
    assert DaysBeforeMonth(y, 3) == DaysBeforeMonth(y, 2) + DaysInMonth(y, 2);
    assert DaysBeforeMonth(y, 4) == DaysBeforeMonth(y, 3) + 31;
    assert DaysBeforeMonth(y, 7) == DaysBeforeMonth(y, 5) + 61 && DaysBeforeMonth(y, 5) == DaysBeforeMonth(y, 4) + 30;
    assert DaysBeforeMonth(y, 9) == DaysBeforeMonth(y, 7) + 62 && DaysBeforeMonth(y, 11) == DaysBeforeMonth(y, 9) + 61;
    assert DaysBeforeMonth(y, 13) == DaysBeforeMonth(y, 11) + 61;
  }

  /** The days before each month, by the usual formula for the Gregorian calendar. */
  lemma MonthFormula(y: nat, m: nat)
    requires 1 <= m <= 12
    ensures DaysBeforeMonth(y, m) == (367 * m - 362) / 12 - if m <= 2 then 0 else if IsLeap(y) then 1 else 2
    ensures DaysBeforeMonth(y, 13) == if IsLeap(y) then 366 else 365
  {
    hide IsLeap;
    assert DaysBeforeMonth(y, 2) == 31;
    assert DaysBeforeMonth(y, 3) == if IsLeap(y) then 60 else 59;
    var d := DaysBeforeMonth(y, 3);
    assert DaysBeforeMonth(y, 4) == d + 31 && DaysBeforeMonth(y, 5) == d + 61 && DaysBeforeMonth(y, 6) == d + 92;
    assert DaysBeforeMonth(y, 7) == d + 122 && DaysBeforeMonth(y, 8) == d + 153 && DaysBeforeMonth(y, 9) == d + 184;
    assert DaysBeforeMonth(y, 10) == d + 214 && DaysBeforeMonth(y, 11) == d + 245;
    assert DaysBeforeMonth(y, 12) == d + 275 && DaysBeforeMonth(y, 13) == d + 306;
  }

  lemma DayOfYear(y: nat, m: nat, d: nat)
    requires 1 <= m <= 12 && 1 <= d <= DaysInMonth(y, m)
    ensures DaysBeforeMonth(y, m) + (d - 1) < DaysInYear(y)
  {
    MonthsAscend(y, m + 1, 13);
    MonthsAddUp(y, 13);
  }

  lemma {:induction false} MonthsAscend(y: nat, m: nat, n: nat)
    requires 1 <= m <= n <= 13
    ensures DaysBeforeMonth(y, m) <= DaysBeforeMonth(y, n)
  {
    if m < n { MonthsAscend(y, m, n - 1); }
  }

  // ---------- Seconds to date ----------

  /** The year reached by taking off whole years, and the seconds left over. */
  function YearSearch(epoch: nat, y: nat): (nat, nat)
    decreases epoch
  {
    if epoch < DaysInYear(y) * DAY then (y, epoch) else YearSearch(epoch - DaysInYear(y) * DAY, y + 1)
  }

  /** The month reached in the same way, if any, and the seconds left over. */
  function MonthSearch(y: nat, m: nat, epoch: nat): (Option<nat>, nat)
    requires 1 <= m <= 13
    decreases 13 - m
  {
    if m == 13 then (None, epoch)
    else if epoch < DaysInMonth(y, m) * DAY then (Some(m), epoch)
    else MonthSearch(y, m + 1, epoch - DaysInMonth(y, m) * DAY)
  }

  /** The fields are stored in 16 and 8 bits; `month` keeps its old value when none is found. */
  function FromEpoch(epoch: nat, oldMonth: nat): Time {
    var (y, inYear) := YearSearch(epoch, 1970);
    var (m, inMonth) := MonthSearch(y, 1, inYear);
    var (day, hour, minute, second) := DayFields(inMonth);
    Time(y % 0x1_0000, if m.Some? then m.value else oldMonth, day, hour, minute, second)
  }

  /** Day of the month and time of day, each stored in 8 bits. */
  function DayFields(inMonth: nat): (nat, nat, nat, nat) {
    var inDay := inMonth % DAY;
    ((inMonth / DAY % 256 + 1) % 256, inDay / 3600 % 256, inDay % 3600 / 60 % 256, inDay % 3600 % 60 % 256)
  }

  method EpochToTime(epoch: nat, oldMonth: nat) returns (t: Time)
    ensures t == FromEpoch(epoch, oldMonth)
  {
    hide IsLeap, DaysInMonth;
    var y: nat, rest: nat := 1970, epoch;
    while true
      invariant YearSearch(rest, y) == YearSearch(epoch, 1970)
      decreases rest
    {
      var d := if IsLeap(y) then 366 else 365;
      if rest < d * DAY { break; }
      rest, y := rest - d * DAY, y + 1;
    }
    var month, m := oldMonth, 1;
    ghost var inYear := rest;
    while m <= 12
      invariant 1 <= m <= 13 && month == oldMonth && MonthSearch(y, m, rest) == MonthSearch(y, 1, inYear)
    {
      var d := DaysInMonth(y, m);
      if rest < d * DAY { month := m; break; }
      rest, m := rest - d * DAY, m + 1;
    }
    var day := (rest / DAY % 256 + 1) % 256;
    rest := rest % DAY;
    var hour := rest / 3600 % 256;
    rest := rest % 3600;
    t := Time(y % 0x1_0000, month, day, hour, rest / 60 % 256, rest % 60 % 256);
  }

  lemma {:induction false} YearSearchSpec(epoch: nat, y: nat)
    requires y >= 1970
    ensures var (z, rest) := YearSearch(epoch, y);
      z >= y && rest < DaysInYear(z) * DAY && DaysBeforeYear(y) * DAY + epoch == DaysBeforeYear(z) * DAY + rest
    decreases epoch
  {
    if epoch >= DaysInYear(y) * DAY {
      YearSearchSpec(epoch - DaysInYear(y) * DAY, y + 1);
    }
  }

  lemma {:induction false} MonthSearchSpec(y: nat, m: nat, epoch: nat)
    requires 1 <= m <= 13 && DaysBeforeMonth(y, m) * DAY + epoch < DaysInYear(y) * DAY
    ensures var (n, rest) := MonthSearch(y, m, epoch);
      && n.Some? && m <= n.value <= 12 && rest < DaysInMonth(y, n.value) * DAY
      && DaysBeforeMonth(y, m) * DAY + epoch == DaysBeforeMonth(y, n.value) * DAY + rest
    decreases 13 - m
  {
    MonthsAddUp(y, m);
    hide DaysInMonth, DaysInYear;
    if m < 13 && epoch >= DaysInMonth(y, m) * DAY {
      MonthSearchSpec(y, m + 1, epoch - DaysInMonth(y, m) * DAY);
    }
  }

  lemma SplitDay(inMonth: nat, days: nat)
    requires inMonth < days * DAY && days <= 31
    ensures var (day, hour, minute, second) := DayFields(inMonth);
      && 1 <= day <= days && hour < 24 && minute < 60 && second < 60
      && (day - 1) * DAY + hour * 3600 + minute * 60 + second == inMonth
  {
    var d, r := inMonth / DAY, inMonth % DAY;
    assert inMonth == d * DAY + r && d < days;
    SplitClock(r);
    FitsByte(d);
    FitsByte(d + 1);
    FitsByte(r / 3600);
    FitsByte(r % 3600 / 60);
    FitsByte(r % 3600 % 60);
    assert DayFields(inMonth) == (d + 1, r / 3600, r % 3600 / 60, r % 3600 % 60);
  }

  lemma FitsByte(x: nat)
    ensures x < 256 ==> x % 256 == x
  {
  }

  lemma SplitClock(r: nat)
    requires r < DAY
    ensures r / 3600 < 24 && r % 3600 / 60 < 60 && r % 3600 % 60 < 60
    ensures r / 3600 * 3600 + r % 3600 / 60 * 60 + r % 3600 % 60 == r
  {
  }

  /** The fields found are a Gregorian date; the year is stored in 16 bits. */
  lemma SearchIsGregorian(epoch: nat, oldMonth: nat)
    ensures var y, t := YearSearch(epoch, 1970).0, FromEpoch(epoch, oldMonth);
      && y >= 1970 && t.year == y % 0x1_0000
      && ValidTime(t.(year := y)) && Seconds(t.(year := y)) == epoch
  {
    YearSearchSpec(epoch, 1970);
    assert DaysBeforeYear(1970) == 0 && DaysBeforeMonth(YearSearch(epoch, 1970).0, 1) == 0;
    hide YearSearch, MonthSearch, DaysInMonth, DaysBeforeYear, DaysBeforeMonth, DayFields, DaysInYear;
    var (y, inYear) := YearSearch(epoch, 1970);
    MonthSearchSpec(y, 1, inYear);
    var (m, inMonth) := MonthSearch(y, 1, inYear);
    SplitDay(inMonth, DaysInMonth(y, m.value));
  }

  // ---------- Round trips ----------

  lemma {:induction false} YearsAscend(y: nat, z: nat)
    requires 1970 <= y <= z
    ensures DaysBeforeYear(z) >= DaysBeforeYear(y) + 365 * (z - y)
    ensures y < z ==> DaysBeforeYear(z) >= DaysBeforeYear(y) + DaysInYear(y)
    decreases z
  {
    if y < z { YearsAscend(y, z - 1); }
  }

  lemma YearBounds(t: Time)
    requires ValidTime(t)
    ensures DaysBeforeYear(t.year) * DAY <= Seconds(t) < (DaysBeforeYear(t.year) + DaysInYear(t.year)) * DAY
  {
    DayOfYear(t.year, t.month, t.day);
  }

  function DayNumber(t: Time): nat
    requires 1 <= t.month <= 12 && 1 <= t.day
  {
    DaysBeforeYear(t.year) + DaysBeforeMonth(t.year, t.month) + (t.day - 1)
  }

  lemma DayNumberInjective(t: Time, u: Time)
    requires ValidTime(t) && ValidTime(u) && DayNumber(t) == DayNumber(u)
    ensures t.year == u.year && t.month == u.month && t.day == u.day
  {
    DayOfYear(t.year, t.month, t.day);
    DayOfYear(u.year, u.month, u.day);
    if t.year < u.year { YearsAscend(t.year, u.year); }
    if u.year < t.year { YearsAscend(u.year, t.year); }
    assert DaysBeforeMonth(t.year, t.month + 1) == DaysBeforeMonth(t.year, t.month) + DaysInMonth(t.year, t.month);
    assert DaysBeforeMonth(u.year, u.month + 1) == DaysBeforeMonth(u.year, u.month) + DaysInMonth(u.year, u.month);
    hide DaysBeforeMonth, DaysBeforeYear, DaysInMonth;
    if t.month < u.month { MonthsAscend(t.year, t.month + 1, u.month); }
    if u.month < t.month { MonthsAscend(t.year, u.month + 1, t.month); }
  }

  /** Different valid times have different second counts. */
  lemma SecondsInjective(t: Time, u: Time)
    requires ValidTime(t) && ValidTime(u) && Seconds(t) == Seconds(u)
    ensures t == u
  {
    assert Seconds(t) == DayNumber(t) * DAY + Clock(t) && Seconds(u) == DayNumber(u) * DAY + Clock(u);
    hide DayNumber, Seconds, DaysInMonth;
    DaysAndClock(DayNumber(t), Clock(t), DayNumber(u), Clock(u));
    ClockInjective(t, u);
    DayNumberInjective(t, u);
  }

  function Clock(t: Time): nat { t.hour * 3600 + t.minute * 60 + t.second }

  lemma ClockInjective(t: Time, u: Time)
    requires t.minute < 60 && t.second < 60 && u.minute < 60 && u.second < 60 && Clock(t) == Clock(u)
    ensures t.hour == u.hour && t.minute == u.minute && t.second == u.second
  {
  }

  lemma DaysAndClock(d: nat, c: nat, e: nat, f: nat)
    requires c < DAY && f < DAY && d * DAY + c == e * DAY + f
    ensures d == e && c == f
  {
  }

  lemma YearOfEpoch(t: Time, extra: nat)
    requires ValidTime(t) && extra <= 700
    ensures t.year <= YearSearch(Seconds(t) + extra * DAY, 1970).0 <= t.year + 2
  {
    hide YearSearch, FromEpoch, Seconds, DaysBeforeYear;
    var e := Seconds(t) + extra * DAY;
    var z := YearSearch(e, 1970).0;
    SearchIsGregorian(e, 1);
    var u := FromEpoch(e, 1).(year := z);
    YearBounds(t);
    YearBounds(u);
    if z < t.year { YearsAscend(z, t.year); }
    if z > t.year + 2 {
      YearsAscend(t.year, t.year + 1);
      YearsAscend(t.year + 1, z);
    }
  }

  /** Converting a date and back gives the date exactly for years up to 2100. */
  lemma DateRoundTrip(t: Time, oldMonth: nat)
    requires ValidTime(t) && t.year < 0x1_0000
    ensures FromEpoch(ToEpoch(t), oldMonth) == t <==> t.year <= 2100
  {
    hide YearSearch, FromEpoch, Seconds, SkippedLeapDays, ToEpoch;
    ToEpochDrift(t);
    SkippedFrom2101(t.year);
    var k, e := SkippedLeapDays(t.year), ToEpoch(t);
    YearOfEpoch(t, k);
    SearchIsGregorian(e, oldMonth);
    var z := YearSearch(e, 1970).0;
    var u := FromEpoch(e, oldMonth);
    if t.year <= 2100 {
      SecondsInjective(u.(year := z), t);
    }
  }

  /** The year found is before `y` exactly when the seconds are before the start of `y`. */
  lemma YearBefore(epoch: nat, y: nat)
    requires y >= 1970
    ensures YearSearch(epoch, 1970).0 < y <==> epoch < DaysBeforeYear(y) * DAY
  {
    SearchIsGregorian(epoch, 1);
    var z := YearSearch(epoch, 1970).0;
    YearBounds(FromEpoch(epoch, 1).(year := z));
    if z < y { YearsAscend(z, y); } else { YearsAscend(y, z); }
  }

  /** The start of 2101. */
  /** As long as the year is an `int`, the conversion finds the exact Gregorian date. */
  lemma FromEpochIsGregorian(epoch: nat, oldMonth: nat)
    requires epoch < DaysBeforeYear(YEARS) * DAY
    ensures var y, t := YearSearch(epoch, 1970).0, FromEpoch(epoch, oldMonth);
      && 1970 <= y < YEARS && t.year == y % 0x1_0000
      && ValidTime(t.(year := y)) && Seconds(t.(year := y)) == epoch
  {
    hide DaysBeforeYear, YearSearch, FromEpoch, Seconds;
    SearchIsGregorian(epoch, oldMonth);
    YearBefore(epoch, YEARS);
  }

  /** One past the last year an `int` can hold. */
  const YEARS: nat := 0x8000_0000

  const START_2101: nat := 4_133_980_800

  /** Converting seconds and back gives the seconds exactly before the start of 2101. */
  lemma EpochRoundTrip(epoch: nat, oldMonth: nat)
    requires epoch < DaysBeforeYear(0x1_0000) * DAY
    ensures ValidTime(FromEpoch(epoch, oldMonth))
    ensures ToEpoch(FromEpoch(epoch, oldMonth)) == epoch <==> epoch < START_2101
  {
    hide YearSearch, FromEpoch, ToEpoch, Seconds, DaysBeforeYear, DaysInMonth, SkippedLeapDays;
    YearBefore(epoch, 0x1_0000);
    YearBefore(epoch, 2101);
    PosixDays(2101);
    SearchIsGregorian(epoch, oldMonth);
    ToEpochDrift(FromEpoch(epoch, oldMonth));
    SkippedFrom2101(YearSearch(epoch, 1970).0);
  }
}
