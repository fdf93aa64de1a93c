/** The calendar conversions of wow_time.c with their machine integers. */
module WowTime {
  const TWO16 := 0x1_0000
  const TWO32 := 0x1_0000_0000
  const TWO64 := 0x1_0000_0000_0000_0000
  const DAY_MSEC := 86400000

  function U16(x: int): int { x % TWO16 }

  function U64(x: int): int { x % TWO64 }

  /** A 32-bit int, wrapping around. */
  function Wrap32(x: int): int { (x + 0x8000_0000) % TWO32 - 0x8000_0000 }

  // ---------------------------------------------------------------- tables

  /** rtc_data_leap. */
  predicate Leap(year: int) {
    year % 4 == 0 && (year % 100 != 0 || year % 400 == 0)
  }

  /** gs_mon_days: days before a month. */
  function MonthStart(leap: bool, mon: int): (d: int)
    requires 1 <= mon <= 12
    ensures 0 <= d <= 335
  {
    var plain := [0, 31, 59, 90, 120, 151, 181, 212, 243, 273, 304, 334];
    var leaping := [0, 31, 60, 91, 121, 152, 182, 213, 244, 274, 305, 335];
    if leap then leaping[mon - 1] else plain[mon - 1]
  }

  function YearDays(leap: bool): int { if leap then 366 else 365 }

  /** Days of a month, from the Gregorian calendar. */
  function MonthDays(leap: bool, mon: int): int
    requires 1 <= mon <= 12
  {
    if mon == 2 then (if leap then 29 else 28) else if mon == 4 || mon == 6 || mon == 9 || mon == 11 then 30 else 31
  }

  /** The table adds up the months. */
  lemma MonthTable(leap: bool, mon: int)
    requires 1 <= mon <= 12
    ensures MonthStart(leap, 1) == 0
    ensures (if mon < 12 then MonthStart(leap, mon + 1) else YearDays(leap)) == MonthStart(leap, mon) + MonthDays(leap, mon)
  {
    if mon == 1 {} else if mon == 2 {} else if mon == 3 {} else if mon == 4 {} else if mon == 5 {} else if mon == 6 {}
    else if mon == 7 {} else if mon == 8 {} else if mon == 9 {} else if mon == 10 {} else if mon == 11 {} else {}
  }

  /** Leap days of the years from 1970 to before this one. */
  function LeapDays(year: int): (n: nat)
    ensures n <= if year > 1970 then year - 1970 else 0
    decreases year - 1970
  {
    if year <= 1970 then 0 else LeapDays(year - 1) + if Leap(year - 1) then 1 else 0
  }

  /** Days from 1 January 1970 to a Gregorian date. */
  function DaysTo(year: int, mon: int, day: int): int
    requires 1 <= mon <= 12
  {
    (year - 1970) * 365 + LeapDays(year) + MonthStart(Leap(year), mon) + day - 1
  }

  predicate ValidDate(year: int, mon: int, day: int) {
    1 <= mon <= 12 && 1 <= day <= MonthDays(Leap(year), mon)
  }

  // ---------------------------------------------------------------- from days to a date

  /** The month of the day with this number in its year, from 1: the last month that begins before it. */
  function MonthAt(leap: bool, day: int, i: int): (m: int)
    requires 1 <= day && 1 <= i <= 12
    ensures 1 <= m <= i && MonthStart(leap, m) < day
    ensures m < i ==> day <= MonthStart(leap, m + 1)
    decreases i
  {
    if MonthStart(leap, i) < day then i else MonthAt(leap, day, i - 1)
  }

  /** Years passed within four years from 1970 on, the third of which is the long one. */
  function YearIn(r: int): int {
    if r < 365 then 0 else if r < 730 then 1 else if r < 1096 then 2 else 3
  }

  function YearStart(j: int): int {
    if j == 0 then 0 else if j == 1 then 365 else if j == 2 then 730 else 1096
  }

  datatype Date = Date(year: int, mon: int, day: int)

  /** The date the code computes from a number of days and the first year of their four-year group. */
  function DateIn(first: int, r: int): (d: Date)
    requires 0 <= r < 1461
    ensures 1 <= d.mon <= 12
  {
    var j := YearIn(r);
    var day := r - YearStart(j) + 1;
    var mon := MonthAt(j == 2, day, 12);
    Date(first + j, mon, day - MonthStart(j == 2, mon))
  }

  // ---------------------------------------------------------------- the conversions

  datatype TimeInfo = TimeInfo(year: int, mon: int, day: int, hour: int, min: int, sec: int, msec: int)

  /** CP56Time2a without its quality bits; the year has seven bits. */
  datatype Cp56 = Cp56(low: int, high: int, min: int, hour: int, day: int, mon: int, year: int)

  predicate IsU64(x: int) { 0 <= x < TWO64 }

  /** First year of the four-year group, as the code computes it from the number of days. */
  function GroupYear(days: int): int { U16(days / 1461) * 4 + 1970 }

  function Rtc(ms: int): TimeInfo
    requires IsU64(ms)
  {
    var days := ms / DAY_MSEC;
    var d := DateIn(GroupYear(days), days % 1461);
    TimeInfo(U16(d.year), d.mon, d.day, ms / 3600000 % 24, ms / 60000 % 60, ms / 1000 % 60, ms % 1000)
  }

  function ToCp56(ms: int): Cp56
    requires IsU64(ms)
  {
    var days := ms / DAY_MSEC;
    var d := DateIn(GroupYear(days), days % 1461);
    Cp56(ms % 60000 % 256, ms % 60000 / 256, ms / 60000 % 60, ms / 3600000 % 24, d.day, d.mon, (d.year - 2000) % 128)
  }

  /** Seconds from 1970 to a date and time, with the years' product in 32 bits. */
  function Seconds(year: int, leap: bool, mon: int, day: int, clock: int): int
    requires 1 <= mon <= 12
  {
    Wrap32((year - 1970) * 365 * 24 * 3600) + LeapDays(year) * 86400 + (MonthStart(leap, mon) + day - 1) * 86400 + clock
  }

  function RtcMsec(t: TimeInfo): int
    requires 1 <= t.mon <= 12
  {
    U64(Seconds(t.year, Leap(t.year), t.mon, t.day, t.hour * 3600 + t.min * 60 + t.sec) * 1000 + t.msec)
  }

  function Cp56Msec(t: Cp56): int
    requires 1 <= t.mon <= 12
  {
    U64(Seconds(t.year + 2000, Leap(t.year), t.mon, t.day, t.hour * 3600 + t.min * 60) * 1000 + t.high * 256 + t.low)
  }

  /** The two widths of a year field. */
  datatype Field = Bits7 | Bits16

  function Fit(f: Field, x: int): int {
    match f
    case Bits7 => x % 128
    case Bits16 => x % TWO16
  }

  lemma FitNext(f: Field, x: int)
    ensures Fit(f, Fit(f, x) + 1) == Fit(f, x + 1)
  {
    if f.Bits7? {
      assert x + 1 == x / 128 * 128 + (x % 128 + 1);
    } else {
      assert x + 1 == x / TWO16 * TWO16 + (x % TWO16 + 1);
    }
  }

  lemma FitFour(f: Field, x: int)
    ensures Fit(f, x) % 4 == x % 4
  {
    DropFours(x, x / 128 * 32);
    DropFours(x, x / TWO16 * 16384);
  }

  lemma DropFours(x: int, k: int)
    ensures (x - 4 * k) % 4 == x % 4
  {
  }

  /** The year correction: steps through the group's years while days are left. */
  method CorrectYear(first: int, r: int, f: Field) returns (year: int, rest: int)
    requires 0 <= r < 1461 && first % 4 == 2
    ensures year == Fit(f, first + YearIn(r)) && rest == r - YearStart(YearIn(r))
  {
    hide Fit;
    year, rest := Fit(f, first), r;
    ghost var j := 0;
    while true
      invariant 0 <= j <= YearIn(r) && year == Fit(f, first + j) && rest == r - YearStart(j) >= 0
      decreases rest
    {
      var days := 365;
      if year % 4 == 0 { days := 366; }
      FitFour(f, first + j);
      FitNext(f, first + j);
      if rest < days { break; }
      year := Fit(f, year + 1);
      rest := rest - days;
      j := j + 1;
    }
  }

  /** The month loop, from December down. */
  method FindMonth(leap: bool, day: int) returns (mon: int, dayOfMonth: int)
    requires 1 <= day <= YearDays(leap)
    ensures mon == MonthAt(leap, day, 12) && dayOfMonth == day - MonthStart(leap, mon)
  {
    mon, dayOfMonth := 0, 0;
    var i := 12;
    while i > 0
      invariant 0 <= i <= 12
      invariant i > 0 && MonthAt(leap, day, 12) == MonthAt(leap, day, i)
    {
      if MonthStart(leap, i) < day {
        mon := i;
        dayOfMonth := day - MonthStart(leap, i);
        break;
      }
      i := i - 1;
    }
  }

  /** wow_time_msec_to_rtc. */
  method MsecToRtc(ms: int) returns (t: TimeInfo)
    requires IsU64(ms)
    ensures t == Rtc(ms)
  {
    var msec, time := ms % 1000, ms / 1000;
    var sec := time % 60;
    time := time / 60;
    var min := time % 60;
    time := time / 60;
    var hour := time % 24;
    time := time / 24;
    Digits(ms);
    var group := U16(time / 1461) * 4 + 1970;
    var year, rest := CorrectYear(group, time % 1461, Bits16);
    GroupLeap(group, time % 1461, Bits16);
    var mon, day := FindMonth(year % 4 == 0, rest + 1);
    t := TimeInfo(year, mon, day, hour, min, sec, msec);
  }

  /** wow_time_msec_to_cp56. */
  method MsecToCp56(ms: int) returns (t: Cp56)
    requires IsU64(ms)
    ensures t == ToCp56(ms)
  {
    var low, high, time := ms % 60000 % 256, ms % 60000 / 256, ms / 60000;
    var min := time % 60;
    time := time / 60;
    var hour := time % 24;
    time := time / 24;
    Digits(ms);
    var group := U16(time / 1461) * 4 + 1970;
    var year, rest := CorrectYear(group - 2000, time % 1461, Bits7);
    GroupLeap(group - 2000, time % 1461, Bits7);
    var mon, day := FindMonth(year % 4 == 0, rest + 1);
    t := Cp56(low, high, min, hour, day, mon, year);
  }

  lemma Digits(ms: int)
    requires ms >= 0
    ensures ms / 1000 / 60 == ms / 60000 && ms / 60000 / 60 == ms / 3600000 && ms / 3600000 / 24 == ms / DAY_MSEC
  {
  }

  lemma GroupLeap(first: int, r: int, f: Field)
    requires first % 4 == 2 && 0 <= r < 1461
    ensures Fit(f, first + YearIn(r)) % 4 == 0 <==> YearIn(r) == 2
    ensures 1 <= r - YearStart(YearIn(r)) + 1 <= YearDays(YearIn(r) == 2)
  {
    hide Fit;
    FitFour(f, first + YearIn(r));
  }

  /** wow_time_rtc_to_msec. */
  method RtcToMsec(t: TimeInfo) returns (ms: int)
    requires 1 <= t.mon <= 12
    ensures ms == RtcMsec(t)
  {
    hide U64, Wrap32, MonthStart, LeapDays;
    var product := Wrap32((t.year - 1970) * 365 * 24 * 3600);
    var month, clock := MonthStart(Leap(t.year), t.mon) * 24 * 3600, t.hour * 3600 + t.min * 60 + t.sec;
    SumsModulo(product, LeapDays(t.year) * 86400, month, (t.day - 1) * 24 * 3600, clock, t.msec);
    var sum := U64(product);
    sum := AddLeapDays(sum, t.year);
    sum := U64(sum + month);
    sum := U64(sum + (t.day - 1) * 24 * 3600);
    sum := U64(sum + clock);
    ms := U64(sum * 1000 + t.msec);
  }

  /** Wrapping after every step is wrapping at the end. */
  lemma SumsModulo(a: int, b: int, c: int, d: int, e: int, f: int)
    ensures IsU64(U64(a))
    ensures U64(U64(U64(U64(U64(U64(a) + b) + c) + d) + e) * 1000 + f) == U64((a + b + c + d + e) * 1000 + f)
  {
    WrapAdd(a, b);
    WrapAdd(a + b, c);
    WrapAdd(a + b + c, d);
    WrapAdd(a + b + c + d, e);
    WrapScale(a + b + c + d + e, f);
  }

  lemma WrapAdd(a: int, b: int)
    ensures U64(U64(a) + b) == U64(a + b)
  {
  }

  lemma WrapScale(a: int, b: int)
    ensures U64(U64(a) * 1000 + b) == U64(a * 1000 + b)
  {
  }

  /** The loop over the years since 1970. */
  method AddLeapDays(start: int, year: int) returns (sum: int)
    requires IsU64(start)
    ensures sum == U64(start + LeapDays(year) * 86400)
  {
    hide U64, Leap;
    sum := start;
    var i := 1970;
    U64Small(start);
    NoLeapDays(year);
    while i < year
      invariant (i <= year || i == 1970) && 1970 <= i && sum == U64(start + LeapDays(i) * 86400)
    {
      WrapAdd(start + LeapDays(i) * 86400, 86400);
      if Leap(i) { sum := U64(sum + 24 * 3600); }
      i := i + 1;
    }
  }

  lemma U64Small(x: int)
    requires IsU64(x)
    ensures U64(x) == x
  {
  }

  lemma NoLeapDays(year: int)
    ensures year <= 1970 ==> LeapDays(year) == 0
  {
  }

  /** wow_time_cp56_to_msec. */
  method Cp56ToMsec(t: Cp56) returns (ms: int)
    requires 1 <= t.mon <= 12
    ensures ms == Cp56Msec(t)
  {
    hide U64, Wrap32, MonthStart, LeapDays;
    var product := Wrap32((t.year + 2000 - 1970) * 365 * 24 * 3600);
    var month, clock := MonthStart(Leap(t.year), t.mon) * 24 * 3600, t.hour * 3600 + t.min * 60;
    SumsModulo(product, LeapDays(t.year + 2000) * 86400, month, (t.day - 1) * 24 * 3600, clock, t.high * 256 + t.low);
    var sum := U64(product);
    sum := AddLeapDays(sum, t.year + 2000);
    sum := U64(sum + month);
    sum := U64(sum + (t.day - 1) * 24 * 3600);
    sum := U64(sum + clock);
    ms := U64(sum * 1000 + (t.high * 256 + t.low));
  }

  // ---------------------------------------------------------------- the code's dates are Gregorian up to 2099

  lemma {:induction false} LeapDaysUntil2100(year: int)
    requires 1970 <= year <= 2100
    ensures LeapDays(year) == (year - 1969) / 4
    decreases year
  {
    if year > 1970 { LeapDaysUntil2100(year - 1); }
  }

  lemma {:induction false} LeapDaysAtMost(year: int)
    requires 1970 <= year
    ensures LeapDays(year) <= (year - 1969) / 4
    decreases year
  {
    if year > 1970 { LeapDaysAtMost(year - 1); }
  }

  /** The leap days before a year, by the Gregorian rule for all years: 477 are before 1970. */
  lemma {:induction false} LeapDaysExactly(year: int)
    requires 1970 <= year
    ensures LeapDays(year) == (year - 1) / 4 - (year - 1) / 100 + (year - 1) / 400 - 477
    decreases year
  {
    hide Leap;
    if year > 1970 {
      LeapDaysExactly(year - 1);
      LeapStep(year - 1);
    }
  }

  lemma LeapStep(y: int)
    ensures y / 4 - y / 100 + y / 400 == (y - 1) / 4 - (y - 1) / 100 + (y - 1) / 400 + if Leap(y) then 1 else 0
  {
    hide Leap;
    DivStep(y, 4);
    DivStep(y, 100);
    DivStep(y, 400);
    LeapRule(y);
  }

  lemma DivStep(y: int, n: int)
    requires n > 0
    ensures y / n == (y - 1) / n + if y % n == 0 then 1 else 0
  {
    var q, r := y / n, y % n;
    assert y == q * n + r;
    if r == 0 { DivIs(y - 1, q - 1, n - 1, n); } else { DivIs(y - 1, q, r - 1, n); }
  }

  lemma DivIs(x: int, q: int, r: int, n: int)
    requires n > 0 && 0 <= r < n && x == q * n + r
    ensures x / n == q
  {
    var d := x / n - q;
    assert d * n == r - x % n;
    Multiples(d, n);
  }

  lemma Multiples(d: int, n: int)
    requires n > 0
    ensures d >= 1 ==> d * n >= n
    ensures d <= -1 ==> d * n <= -n
  {
  }

  lemma LeapRule(y: int)
    ensures Leap(y) <==> (if y % 400 == 0 then y % 100 == 0 && y % 4 == 0 else y % 4 == 0 && y % 100 != 0)
    ensures y % 400 == 0 ==> y % 100 == 0
    ensures y % 100 == 0 ==> y % 4 == 0
  {
    Divides(y, 400, 100, 4);
    Divides(y, 100, 4, 25);
  }

  lemma Divides(y: int, a: int, b: int, k: int)
    requires b > 0 && k > 0 && a == b * k
    ensures y % a == 0 ==> y % b == 0
  {
    if y % a == 0 {
      var q := y / a;
      assert y == q * a == (q * k) * b;
      DivIs(y, q * k, 0, b);
    }
  }

  /** Until the end of 2099 the date is valid and is the Gregorian date of that many days after 1 January 1970. */
  lemma DateIsGregorian(days: int)
    requires 0 <= days < 130 * 365 + 32
    ensures var d := DateIn(GroupYear(days), days % 1461);
            && ValidDate(d.year, d.mon, d.day) && DaysTo(d.year, d.mon, d.day) == days
            && 1970 <= d.year < 2100 && GroupYear(days) == days / 1461 * 4 + 1970
  {
    hide Leap, MonthAt, YearStart, YearIn, LeapDays, MonthStart, MonthDays;
    var q, r := days / 1461, days % 1461;
    var j := YearIn(r);
    var day := r - YearStart(j) + 1;
    var year := q * 4 + 1970 + j;
    InGroup(r);
    GroupLeap(1970, r, Bits16);
    LeapDaysUntil2100(year);
    MonthTable(j == 2, MonthAt(j == 2, day, 12));
    LeapUntil2100(year);
    assert (year - 1969) / 4 == q + (if j == 3 then 1 else 0);
  }

  lemma InGroup(r: int)
    requires 0 <= r < 1461
    ensures 0 <= YearIn(r) <= 3
    ensures YearStart(YearIn(r)) == YearIn(r) * 365 + if YearIn(r) == 3 then 1 else 0
  {
  }

  lemma LeapUntil2100(year: int)
    requires 1970 <= year < 2100
    ensures Leap(year) <==> year % 4 == 0
  {
  }

  /** The clock fields give back the part of the day. */
  lemma ClockOfDay(ms: int)
    requires ms >= 0
    ensures var t := Clock(ms);
            0 <= t < 86400 && (ms / DAY_MSEC * 86400 + t) * 1000 + ms % 1000 == ms
  {
    var s, m, h := ms / 1000, ms / 60000, ms / 3600000;
    Digits(ms);
    assert s == m * 60 + s % 60 && m == h * 60 + m % 60 && h == ms / DAY_MSEC * 24 + h % 24;
  }

  function Clock(ms: int): int {
    ms / 3600000 % 24 * 3600 + ms / 60000 % 60 * 60 + ms / 1000 % 60
  }

  // ---------------------------------------------------------------- what the fields say

  /** Minutes and hours of a number of minutes, whatever day it is in. */
  lemma ClockParts(ms: int)
    requires ms >= 0
    ensures var hour, min := ms / 3600000 % 24, ms / 60000 % 60;
            0 <= hour < 24 && 0 <= min < 60 && (ms / DAY_MSEC * 86400 + hour * 3600 + min * 60) * 1000 + ms % 60000 == ms
  {
    Digits(ms);
    var m, h := ms / 60000, ms / 3600000;
    assert m == h * 60 + m % 60 && h == ms / DAY_MSEC * 24 + h % 24;
  }

  /** The clock fields of a conversion are in their ranges and add up to the part of the day, for every number of milliseconds. */
  lemma RtcFields(ms: int)
    requires IsU64(ms)
    ensures var t := Rtc(ms);
            && 0 <= t.hour < 24 && 0 <= t.min < 60 && 0 <= t.sec < 60 && 0 <= t.msec < 1000
            && ((t.hour * 60 + t.min) * 60 + t.sec) * 1000 + t.msec == ms % DAY_MSEC
  {
    hide DateIn, GroupYear, U16;
    ClockParts(ms);
    SecondParts(ms);
    DayRest(ms);
  }

  lemma SecondParts(ms: int)
    requires ms >= 0
    ensures ms / 1000 % 60 * 1000 + ms % 1000 == ms % 60000 && 0 <= ms / 1000 % 60 < 60
  {
    var s := ms / 1000;
    assert ms / 60000 == s / 60 && s == s / 60 * 60 + s % 60;
  }

  lemma DayRest(ms: int)
    requires ms >= 0
    ensures ms % DAY_MSEC == ms - ms / DAY_MSEC * 86400000
  {
  }

  lemma Cp56Fields(ms: int)
    requires IsU64(ms)
    ensures var t := ToCp56(ms);
            && 0 <= t.hour < 24 && 0 <= t.min < 60 && 0 <= t.low < 256 && 0 <= t.high * 256 + t.low < 60000
            && (t.hour * 60 + t.min) * 60000 + t.high * 256 + t.low == ms % DAY_MSEC
            && 1 <= t.mon <= 12 && 1 <= t.day <= 366 && 0 <= t.year < 128
  {
    hide DateIn, GroupYear;
    ClockParts(ms);
    DayRest(ms);
    DayBounds(GroupYear(ms / DAY_MSEC), ms / DAY_MSEC % 1461);
  }

  /** Until the end of 2099 the fields are a valid Gregorian date and a time of day, and together say the number of milliseconds. */
  lemma RtcSays(ms: int)
    requires 0 <= ms < (130 * 365 + 32) * DAY_MSEC
    ensures var t := Rtc(ms);
            && ValidDate(t.year, t.mon, t.day) && 1970 <= t.year < 2100
            && (DaysTo(t.year, t.mon, t.day) * 86400 + t.hour * 3600 + t.min * 60 + t.sec) * 1000 + t.msec == ms
  {
    hide DateIn, GroupYear, ValidDate, DaysTo;
    RtcFields(ms);
    DateIsGregorian(ms / DAY_MSEC);
    DayRest(ms);
  }

  /** The same for the two-digit year of CP56Time2a, from 2000 on. */
  lemma Cp56Says(ms: int)
    requires START_2000 <= ms < (130 * 365 + 32) * DAY_MSEC
    ensures var t := ToCp56(ms);
            && ValidDate(t.year + 2000, t.mon, t.day) && 0 <= t.year < 100
            && (DaysTo(t.year + 2000, t.mon, t.day) * 86400 + t.hour * 3600 + t.min * 60) * 1000 + t.high * 256 + t.low == ms
  {
    hide DateIn, GroupYear, ValidDate, DaysTo, Seconds, Leap;
    Cp56Fields(ms);
    DateIsGregorian(ms / DAY_MSEC);
    SecondsUntil2100(ms / DAY_MSEC, 0);
    DayRest(ms);
  }

  /** The way back from any valid date and time of the years 1970 to 2038 is the number of milliseconds they stand for. */
  lemma RtcMsecSays(t: TimeInfo)
    requires ValidDate(t.year, t.mon, t.day) && 1970 <= t.year < 2039
    requires 0 <= t.hour < 24 && 0 <= t.min < 60 && 0 <= t.sec < 60 && 0 <= t.msec < 1000
    ensures RtcMsec(t) == (DaysTo(t.year, t.mon, t.day) * 86400 + t.hour * 3600 + t.min * 60 + t.sec) * 1000 + t.msec
  {
    hide MonthStart, LeapDays, Leap, Wrap32, U64, MonthDays;
    CenturyProduct(t.year - 1970);
    LeapDaysUntil2100(t.year);
    MonthBounds(t.year, t.mon, t.day);
    U64Is((DaysTo(t.year, t.mon, t.day) * 86400 + t.hour * 3600 + t.min * 60 + t.sec) * 1000 + t.msec);
  }

  lemma MonthBounds(year: int, mon: int, day: int)
    requires ValidDate(year, mon, day)
    ensures 1 <= mon <= 12 && 0 <= MonthStart(Leap(year), mon) + day - 1 < 366
  {
    MonthTable(Leap(year), mon);
  }

  lemma Cp56MsecSays(t: Cp56)
    requires ValidDate(t.year + 2000, t.mon, t.day) && 0 <= t.year < 39
    requires 0 <= t.hour < 24 && 0 <= t.min < 60 && 0 <= t.low < 256 && 0 <= t.high * 256 + t.low < 60000
    ensures Cp56Msec(t)
         == (DaysTo(t.year + 2000, t.mon, t.day) * 86400 + t.hour * 3600 + t.min * 60) * 1000 + t.high * 256 + t.low
  {
    hide MonthStart, LeapDays, Leap, Wrap32, U64, MonthDays;
    CenturyProduct(t.year + 30);
    LeapDaysUntil2100(t.year + 2000);
    LeapOfTwoDigits(t.year + 2000);
    MonthBounds(t.year + 2000, t.mon, t.day);
    U64Is((DaysTo(t.year + 2000, t.mon, t.day) * 86400 + t.hour * 3600 + t.min * 60) * 1000 + t.high * 256 + t.low);
  }

  // ---------------------------------------------------------------- when the round trips hold

  const START_2000 := 10957 * DAY_MSEC
  const START_2039 := 25202 * DAY_MSEC

  /** The code's seconds for a date, relative to the date's true place: off by the wrap of the product only. */
  lemma SecondsUntil2100(days: int, clock: int)
    requires 0 <= days < 130 * 365 + 32
    ensures var d := DateIn(GroupYear(days), days % 1461);
            && 1970 <= d.year < 2100
            && (days < 10957 <==> d.year < 2000) && (days < 25202 <==> d.year < 2039)
            && Seconds(d.year, Leap(d.year), d.mon, d.day, clock)
               == days * 86400 + clock - (if d.year < 2039 then 0 else TWO32)
  {
    hide MonthStart, LeapDays, DateIn, GroupYear, Leap, Wrap32, ValidDate, MonthDays;
    DateIsGregorian(days);
    var d := DateIn(GroupYear(days), days % 1461);
    CenturyProduct(d.year - 1970);
    LeapDaysUntil2100(d.year);
    MonthOfYear(days, d);
    LeapUntil2100(d.year);
  }

  lemma MonthOfYear(days: int, d: Date)
    requires ValidDate(d.year, d.mon, d.day) && DaysTo(d.year, d.mon, d.day) == days
    ensures 0 <= days - (d.year - 1970) * 365 - LeapDays(d.year) < YearDays(Leap(d.year))
  {
    MonthTable(Leap(d.year), d.mon);
  }

  /** Whatever the date, the code's seconds stay within these bounds. */
  lemma SecondsBounds(year: int, leap: bool, mon: int, day: int, clock: int)
    requires 1 <= mon <= 12 && 0 <= year < TWO16 && 1 <= day <= 366 && 0 <= clock < 86400
    ensures -0x8000_0000 <= Seconds(year, leap, mon, day, clock) < 3_580_000_000
    ensures year <= 2127 ==> Seconds(year, leap, mon, day, clock) < 2_220_000_000
    ensures Wrap32((year - 1970) * 31536000) >= 0 ==> Seconds(year, leap, mon, day, clock) >= 0
  {
    hide MonthStart, LeapDays;
    if year >= 1970 { LeapDaysAtMost(year); } else { NoLeapDays(year); }
  }

  lemma DayBounds(first: int, r: int)
    requires 0 <= r < 1461
    ensures 1 <= DateIn(first, r).day <= 366 && DateIn(first, r).year == first + YearIn(r)
  {
    GroupLeap(1970, r, Bits16);
  }

  /** rtc_to_msec undoes msec_to_rtc exactly for the years 1970 to 2038. */
  lemma RtcRoundTrip(ms: int)
    requires IsU64(ms)
    ensures RtcMsec(Rtc(ms)) == ms <==> ms < START_2039
  {
    hide MonthStart, LeapDays, DateIn, GroupYear, Leap, Seconds, Clock, U64, Rtc, RtcMsec;
    var days := ms / DAY_MSEC;
    var d := DateIn(GroupYear(days), days % 1461);
    ClockOfDay(ms);
    RtcIs(ms);
    if days < 130 * 365 + 32 {
      SecondsUntil2100(days, Clock(ms));
    } else {
      DayBounds(GroupYear(days), days % 1461);
      SecondsBounds(U16(d.year), Leap(U16(d.year)), d.mon, d.day, Clock(ms));
      if ms >= TWO64 - 2147483648000 { RtcAtTheEnd(ms); }
    }
    U64Is(Seconds(U16(d.year), Leap(U16(d.year)), d.mon, d.day, Clock(ms)) * 1000 + ms % 1000);
  }

  lemma RtcIs(ms: int)
    requires IsU64(ms)
    ensures var days := ms / DAY_MSEC; var d := DateIn(GroupYear(days), days % 1461);
            RtcMsec(Rtc(ms)) == U64(Seconds(U16(d.year), Leap(U16(d.year)), d.mon, d.day, Clock(ms)) * 1000 + ms % 1000)
  {
    hide MonthStart, LeapDays, DateIn, GroupYear, Leap, Seconds, U64, U16;
  }

  /** The last dates before the 64-bit counter ends, where the wrapped result is negative, are not the exception either. */
  lemma RtcAtTheEnd(ms: int)
    requires TWO64 - 2147483648000 <= ms < TWO64
    ensures RtcMsec(Rtc(ms)) != ms
  {
    hide LeapDays, MonthStart, DateIn, GroupYear, Leap, U16, YearIn, Seconds, Wrap32;
    var days := ms / DAY_MSEC;
    var q, r := days / 1461, days % 1461;
    var d := DateIn(GroupYear(days), r);
    ClockOfDay(ms);
    EndYears(ms);
    InGroup(r);
    DayBounds(GroupYear(days), r);
    var year := U16(d.year);
    LeapDaysAtMost(year);
    SecondsParts(year, Leap(year), d.mon, d.day, Clock(ms));
    EndProduct(year - 1970);
  }

  /** The years around the end of the counter, as the 16-bit year field holds them. */
  lemma EndYears(ms: int)
    requires TWO64 - 2147483648000 <= ms < TWO64
    ensures var days := ms / DAY_MSEC; var q, r := days / 1461, days % 1461;
            && 146135494 <= q <= 146135511 && 0 <= r < 1461 && 0 <= YearIn(r) <= 3
            && GroupYear(days) == 4 * q - 584317006
            && U16(DateIn(GroupYear(days), r).year) == 4 * q - 584513614 + YearIn(r)
  {
    hide MonthAt;
    var days := ms / DAY_MSEC;
    var q := days / 1461;
    InGroup(days % 1461);
    assert U16(q) == q - 146079744;
  }

  lemma EndProduct(n: int)
    requires 26392 <= n <= 26463
    ensures Wrap32(n * 31536000) == n * 31536000 - 833223655424
  {
  }

  /** A month and a day of the month add up to less than a year and a month. */
  lemma SecondsParts(year: int, leap: bool, mon: int, day: int, clock: int)
    requires 1 <= mon <= 12 && 1 <= day <= 366
    ensures var rest := Seconds(year, leap, mon, day, clock) - Wrap32((year - 1970) * 31536000) - LeapDays(year) * 86400 - clock;
            0 <= rest <= 700 * 86400
  {
    hide MonthStart, LeapDays, Wrap32;
  }

  // ---------------------------------------------------------------- CP56Time2a

  function Minutes(ms: int): int {
    ms / 3600000 % 24 * 3600 + ms / 60000 % 60 * 60
  }

  lemma MinutesOfDay(ms: int)
    requires ms >= 0
    ensures 0 <= Minutes(ms) < 86400 && (ms / DAY_MSEC * 86400 + Minutes(ms)) * 1000 + ms % 60000 == ms
    ensures ms % 60000 / 256 * 256 + ms % 60000 % 256 == ms % 60000
  {
    var m, h := ms / 60000, ms / 3600000;
    Digits(ms);
    assert m == h * 60 + m % 60 && h == ms / DAY_MSEC * 24 + h % 24;
  }

  /** In this century the leap rule sees the same for the year and for its last two digits. */
  lemma LeapOfTwoDigits(year: int)
    requires 2000 <= year < 2100
    ensures Leap(year - 2000) <==> Leap(year)
  {
  }

  /** The way back, by the two-digit year that the conversion keeps. */
  lemma Cp56Is(ms: int)
    requires IsU64(ms)
    ensures var days := ms / DAY_MSEC; var d := DateIn(GroupYear(days), days % 1461); var y := (d.year - 2000) % 128;
            Cp56Msec(ToCp56(ms)) == U64(Seconds(y + 2000, Leap(y), d.mon, d.day, Minutes(ms)) * 1000 + ms % 60000)
  {
    hide MonthStart, LeapDays, DateIn, GroupYear, Leap, Seconds, Wrap32, Minutes, U64;
    MinutesOfDay(ms);
    MinutesAre(ms);
  }

  /** cp56_to_msec undoes msec_to_cp56 exactly for the years 2000 to 2038. */
  lemma Cp56RoundTrip(ms: int)
    requires IsU64(ms)
    ensures Cp56Msec(ToCp56(ms)) == ms <==> START_2000 <= ms < START_2039
  {
    hide Cp56Msec, ToCp56;
    if ms / DAY_MSEC < 130 * 365 + 32 { Cp56Until2100(ms); } else { Cp56From2100(ms); }
  }

  lemma Cp56Until2100(ms: int)
    requires 0 <= ms && ms / DAY_MSEC < 130 * 365 + 32
    ensures Cp56Msec(ToCp56(ms)) == ms <==> START_2000 <= ms < START_2039
  {
    hide MonthStart, LeapDays, DateIn, GroupYear, Leap, Seconds, Wrap32, Minutes, U64, Cp56Msec, ToCp56;
    var days := ms / DAY_MSEC;
    var d := DateIn(GroupYear(days), days % 1461);
    MinutesOfDay(ms);
    SecondsUntil2100(days, Minutes(ms));
    if d.year < 2000 {
      Cp56BeforeTheCentury(ms);
    } else {
      Cp56Is(ms);
      LeapOfTwoDigits(d.year);
      U64Is(Seconds(d.year, Leap(d.year), d.mon, d.day, Minutes(ms)) * 1000 + ms % 60000);
    }
  }

  lemma Cp56From2100(ms: int)
    requires IsU64(ms) && ms / DAY_MSEC >= 130 * 365 + 32
    ensures Cp56Msec(ToCp56(ms)) != ms
  {
    hide MonthStart, LeapDays, DateIn, GroupYear, Leap, Seconds, Wrap32, Minutes, U64, Cp56Msec, ToCp56;
    if ms >= TWO64 - 2147483648000 {
      Cp56AtTheEnd(ms);
    } else {
      var days := ms / DAY_MSEC;
      var d := DateIn(GroupYear(days), days % 1461);
      var y := (d.year - 2000) % 128;
      MinutesOfDay(ms);
      DayBounds(GroupYear(days), days % 1461);
      SecondsBounds(y + 2000, Leap(y), d.mon, d.day, Minutes(ms));
      Cp56Is(ms);
      U64Is(Seconds(y + 2000, Leap(y), d.mon, d.day, Minutes(ms)) * 1000 + ms % 60000);
    }
  }

  /** A year before 2000 comes back as one 128 years later, with a wrapped product. */
  lemma Cp56BeforeTheCentury(ms: int)
    requires 0 <= ms < START_2000
    ensures Cp56Msec(ToCp56(ms)) != ms
  {
    hide LeapDays, MonthStart, DateIn, GroupYear, Leap, Seconds, Wrap32, Minutes, U64, YearIn, Cp56Msec, ToCp56;
    var days := ms / DAY_MSEC;
    var d := DateIn(GroupYear(days), days % 1461);
    MinutesOfDay(ms);
    Cp56Is(ms);
    SecondsUntil2100(days, Minutes(ms));
    EarlySeconds(days, Minutes(ms));
    assert (d.year - 2000) % 128 == d.year - 1872;
    U64Is(Seconds(d.year + 128, Leap(d.year - 1872), d.mon, d.day, Minutes(ms)) * 1000 + ms % 60000);
  }

  lemma EarlySeconds(days: int, clock: int)
    requires 0 <= days < 10957 && 0 <= clock < 86400
    ensures var d := DateIn(GroupYear(days), days % 1461);
            1970 <= d.year < 2000
            && -0x1_0000_0000 < Seconds(d.year + 128, Leap(d.year - 1872), d.mon, d.day, clock) < days * 86400 + clock
  {
    hide LeapDays, MonthStart, DateIn, GroupYear, Leap, Seconds, Wrap32, YearIn;
    var d := DateIn(GroupYear(days), days % 1461);
    SecondsUntil2100(days, clock);
    DateIsGregorian(days);
    MonthOfYear(days, d);
    DayBounds(GroupYear(days), days % 1461);
    LeapDaysUntil2100(d.year);
    LeapDaysAtMost(d.year + 128);
    SecondsParts(d.year + 128, Leap(d.year - 1872), d.mon, d.day, clock);
    EarlyProduct(d.year - 1842);
  }

  lemma MinutesAre(ms: int)
    requires IsU64(ms)
    ensures ToCp56(ms).hour * 3600 + ToCp56(ms).min * 60 == Minutes(ms)
  {
  }

  lemma U64Is(x: int)
    requires -TWO64 < x < TWO64
    ensures U64(x) == if x >= 0 then x else x + TWO64
  {
  }

  lemma EarlyProduct(n: int)
    requires 128 <= n <= 157
    ensures Wrap32(n * 31536000) == n * 31536000 - TWO32
  {
  }

  lemma Cp56AtTheEnd(ms: int)
    requires TWO64 - 2147483648000 <= ms < TWO64
    ensures Cp56Msec(ToCp56(ms)) != ms
  {
    hide LeapDays, MonthStart, DateIn, GroupYear, Leap, YearIn, Seconds, Wrap32, Minutes, U64, U16, Cp56Msec, ToCp56;
    var days := ms / DAY_MSEC;
    var d := DateIn(GroupYear(days), days % 1461);
    var y := (d.year - 2000) % 128;
    MinutesOfDay(ms);
    Cp56Is(ms);
    EndSeconds(ms);
    U64Is(Seconds(y + 2000, Leap(y), d.mon, d.day, Minutes(ms)) * 1000 + ms % 60000);
  }

  /** At the end of the counter the seconds are not negative, or too far from the true ones. */
  lemma EndSeconds(ms: int)
    requires TWO64 - 2147483648000 <= ms < TWO64
    ensures var days := ms / DAY_MSEC; var d := DateIn(GroupYear(days), days % 1461); var y := (d.year - 2000) % 128;
            var back := Seconds(y + 2000, Leap(y), d.mon, d.day, Minutes(ms));
            0 <= back < TWO32 || -TWO32 < back < days * 86400 + Minutes(ms) - TWO64 / 1000 - 1
  {
    hide LeapDays, MonthStart, DateIn, GroupYear, Leap, YearIn, Seconds, Wrap32, Minutes, U16;
    var days := ms / DAY_MSEC;
    var q, r := days / 1461, days % 1461;
    var d := DateIn(GroupYear(days), r);
    var y := (d.year - 2000) % 128;
    MinutesOfDay(ms);
    EndYears(ms);
    InGroup(r);
    DayBounds(GroupYear(days), r);
    LeapDaysAtMost(y + 2000);
    SecondsParts(y + 2000, Leap(y), d.mon, d.day, Minutes(ms));
    CenturyProduct(y + 30);
    CenturyOfTheEnd(d.year);
  }

  lemma CenturyOfTheEnd(year: int)
    requires 224970 <= year <= 225047
    ensures var y := (year - 2000) % 128;
            if year < 224976 then y == year - 224848 >= 122 else y == year - 224976 <= 71
  {
  }

  lemma CenturyProduct(n: int)
    requires 0 <= n <= 157
    ensures Wrap32(n * 31536000) == n * 31536000 - (if n <= 68 then 0 else TWO32)
  {
  }
}
