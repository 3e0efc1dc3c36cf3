/** `timestamp_to_date`: division tricks against the Gregorian calendar. */
module Calendar {
  import opened Arith

  // ------------------------------------------------------------- the calendar

  predicate Leap(y: nat) {
    y % 4 == 0 && (y % 100 != 0 || y % 400 == 0)
  }

  function MonthLength(y: nat, m: nat): nat
    requires 1 <= m <= 12
  {
    if m == 2 then (if Leap(y) then 29 else 28) else if m in {4, 6, 9, 11} then 30 else 31
  }

  function YearLength(y: nat): nat {
    if Leap(y) then 366 else 365
  }

  /** Days from 1 January 1970 to 1 January of year `y`. */
  function DaysBefore(y: nat): nat
    requires y >= 1970
  {
    if y == 1970 then 0 else DaysBefore(y - 1) + YearLength(y - 1)
  }

  /** Days of year `y` before month `m`. */
  function MonthsBefore(y: nat, m: nat): nat
    requires 1 <= m <= 13
  {
    if m == 1 then 0 else MonthsBefore(y, m - 1) + MonthLength(y, m - 1)
  }

  datatype Date = Date(year: int, month: int, day: int)

  predicate ValidDate(d: Date) {
    d.year >= 1970 && 1 <= d.month <= 12 && 1 <= d.day <= MonthLength(d.year, d.month)
  }

  /** Days since 1 January 1970. */
  function DayNumber(d: Date): nat
    requires ValidDate(d)
  {
    DaysBefore(d.year) + MonthsBefore(d.year, d.month) + d.day - 1
  }

  lemma MonthTable(y: nat)
    ensures var l := if Leap(y) then 1 else 0;
            MonthsBefore(y, 1) == 0 && MonthsBefore(y, 2) == 31 && MonthsBefore(y, 3) == 59 + l && MonthsBefore(y, 4) == 90 + l
            && MonthsBefore(y, 5) == 120 + l && MonthsBefore(y, 6) == 151 + l && MonthsBefore(y, 7) == 181 + l
            && MonthsBefore(y, 8) == 212 + l && MonthsBefore(y, 9) == 243 + l && MonthsBefore(y, 10) == 273 + l
            && MonthsBefore(y, 11) == 304 + l && MonthsBefore(y, 12) == 334 + l && MonthsBefore(y, 13) == 365 + l
  {}

  lemma {:induction false} YearsGrow(y: nat, z: nat)
    requires 1970 <= y <= z
    ensures DaysBefore(y) <= DaysBefore(z)
    ensures y < z ==> DaysBefore(y) + YearLength(y) <= DaysBefore(z)
  {
    hide YearLength;
    if y < z { YearsGrow(y, z - 1); }
  }

  /** A day number belongs to one date only. */
  lemma DateUnique(a: Date, b: Date)
    requires ValidDate(a) && ValidDate(b) && DayNumber(a) == DayNumber(b)
    ensures a == b
  {
    MonthTable(a.year);
    MonthTable(b.year);
    InYear(a);
    InYear(b);
    hide Leap, MonthsBefore;
    if a.year < b.year {
      YearsGrow(a.year, b.year);
    } else if b.year < a.year {
      YearsGrow(b.year, a.year);
    } else {
      InMonth(a, b);
    }
  }

  lemma InYear(a: Date)
    requires ValidDate(a)
    ensures MonthsBefore(a.year, a.month) + a.day <= YearLength(a.year)
  {
    MonthTable(a.year);
    hide MonthsBefore;
  }

  lemma InMonth(a: Date, b: Date)
    requires ValidDate(a) && ValidDate(b) && a.year == b.year
    requires MonthsBefore(a.year, a.month) + a.day == MonthsBefore(b.year, b.month) + b.day
    ensures a == b
  {
    MonthTable(a.year);
    hide MonthsBefore;
  }

  /** Every day has a date: the calendar covers the day numbers. */
  lemma {:induction false} DateExists(n: nat)
    ensures exists d: Date :: ValidDate(d) && DayNumber(d) == n
  {
    var y := YearOf(n);
    MonthTable(y);
    hide MonthsBefore, Leap;
    var r := n - DaysBefore(y);
    var m: nat :| 1 <= m <= 12 && MonthsBefore(y, m) <= r < MonthsBefore(y, m + 1);
    var d := Date(y, m, r - MonthsBefore(y, m) + 1);
    assert ValidDate(d) by { LastOfMonth(y, m); }
    assert DayNumber(d) == n;
  }

  lemma LastOfMonth(y: nat, m: nat)
    requires 1 <= m <= 12
    ensures MonthsBefore(y, m + 1) == MonthsBefore(y, m) + MonthLength(y, m)
  {}

  lemma {:induction false} YearOf(n: nat) returns (y: nat)
    ensures y >= 1970 && DaysBefore(y) <= n < DaysBefore(y) + YearLength(y)
  {
    hide YearLength, Leap;
    if n == 0 {
      y := 1970;
      FirstYear();
    } else {
      y := YearOf(n - 1);
      if n == DaysBefore(y) + YearLength(y) {
        y := y + 1;
        LongYear(y);
      }
    }
  }

  lemma FirstYear()
    ensures YearLength(1970) == 365 && DaysBefore(1970) == 0
  {}

  lemma LongYear(y: nat)
    ensures YearLength(y) >= 365
  {}

  // --------------------------------------------------- every fourth year leaps

  /** Days before year `y` if every fourth year were a leap year. */
  function FourthYears(y: nat): nat
    requires y >= 1970
  {
    365 * (y - 1970) + (y - 1969) / 4
  }

  lemma FourthYearsNext(y: nat)
    requires y >= 1970
    ensures FourthYears(y + 1) == FourthYears(y) + if y % 4 == 0 then 366 else 365
  {
    DivMod(y, 4);
    var q, r := y / 4, y % 4;
    assert y - 1969 == 4 * (q - 493) + (r + 3) && y - 1968 == 4 * (q - 492) + r;
    DivModUnique(y - 1969, 4, if r == 0 then q - 493 else q - 492, if r == 0 then 3 else r - 1);
    DivModUnique(y - 1968, 4, q - 492, r);
  }

  /** The two agree up to the year 2100, whose leap day is the first one missing. */
  lemma {:induction false} FourthYearsExact(y: nat)
    requires y >= 1970
    ensures y <= 2100 ==> DaysBefore(y) == FourthYears(y)
    ensures y > 2100 ==> DaysBefore(y) < FourthYears(y)
  {
    if y == 1970 {
    } else {
      FourthYearsExact(y - 1);
      FourthYearsNext(y - 1);
      CommonLeap(y - 1);
      hide Leap, FourthYears;
    }
  }

  lemma CommonLeap(y: nat)
    requires y >= 1970
    ensures Leap(y) ==> y % 4 == 0
    ensures y < 2100 ==> (Leap(y) <==> y % 4 == 0)
    ensures y == 2100 ==> !Leap(y) && y % 4 == 0
  {
    if 1970 <= y < 2100 && y % 100 == 0 {
      assert y == 2000;
    }
  }

  /** The year, every fourth being a leap year, and the day in it. */
  lemma {:induction false} FourthYearOf(n: nat) returns (y: nat, t: nat)
    ensures y >= 1970 && n == FourthYears(y) + t && t < (if y % 4 == 0 then 366 else 365)
  {
    if n == 0 {
      y, t := 1970, 0;
    } else {
      y, t := FourthYearOf(n - 1);
      FourthYearsNext(y);
      hide FourthYears;
      if t + 1 == (if y % 4 == 0 then 366 else 365) {
        y, t := y + 1, 0;
      } else {
        t := t + 1;
      }
    }
  }

  /** What the divisions by 1461, 366 and 365 find. */
  lemma Divisions(n: nat, y: nat, t: nat)
    requires y >= 1970 && n == FourthYears(y) + t && t < (if y % 4 == 0 then 366 else 365)
    ensures (n + 366) % 1461 == 0 <==> t == 365
    ensures t == 365 ==> n / 366 + 1970 <= y
    ensures t == 365 && y <= 2456 ==> n / 366 + 1970 == y
    ensures t < 365 ==> n >= (n + 365) / 1461
    ensures t < 365 ==> (n - (n + 365) / 1461) / 365 + 1970 == y && (n - (n + 365) / 1461) % 365 == t
  {
    var e, s := (y - 1969) / 4, (y - 1969) % 4;
    DivMod(y - 1969, 4);
    FourthLeap(y);
    assert n + 365 == 1461 * e + (365 * s + t);
    DivModUnique(n + 365, 1461, e, 365 * s + t);
    if t == 365 {
      DivModUnique(n + 366, 1461, e + 1, 0);
      assert n == 1461 * e + 1095;
      SixSixDown(e, n);
    } else {
      DivModUnique(n + 366, 1461, e, 365 * s + t + 1);
      DivModUnique(n - e, 365, y - 1970, t);
    }
  }

  lemma FourthLeap(y: nat)
    requires y >= 1970
    ensures (y - 1969) % 4 == 3 <==> y % 4 == 0
  {
    DivMod(y, 4);
    var q, r := y / 4, y % 4;
    assert y - 1969 == 4 * (q - 493) + (r + 3);
    DivModUnique(y - 1969, 4, if r == 0 then q - 493 else q - 492, if r == 0 then 3 else r - 1);
  }

  lemma SixSixDown(e: nat, n: nat)
    requires n == 1461 * e + 1095
    ensures n / 366 <= 4 * e + 2 && (e <= 121 ==> n / 366 == 4 * e + 2)
  {
    DivMod(n, 366);
    if e <= 121 { DivModUnique(n, 366, 4 * e + 2, 363 - 3 * e); }
  }

  // ------------------------------------------------------------------ the code

  const DAY_NUM: seq<nat> := [31, 28, 31, 30, 31, 30, 31, 31, 30, 31, 30, 31]

  lemma DayNum(i: nat)
    requires i < 12
    ensures DAY_NUM[i] == MonthLength(1971, i + 1)
  {}

  /** Division in C rounds toward zero. */
  function CDiv(a: int, b: nat): int
    requires b > 0
  {
    if a >= 0 then a / b else 0 - (0 - a) / b
  }

  function CMod(a: int, b: nat): int
    requires b > 0
  {
    a - CDiv(a, b) * b
  }

  lemma CDivNatural(a: nat, b: nat)
    requires b > 0
    ensures CDiv(a, b) == a / b && CMod(a, b) == a % b
  {
    DivMod(a, b);
  }

  /** The month loop, in a year without leap day; it does nothing to a day before the
      first of January. */
  method MonthOf(dayNum: int) returns (month: nat, day: int)
    requires dayNum <= 365
    ensures if dayNum < 1 then month == 1 && day == dayNum
            else 1 <= month <= 12 && 1 <= day <= MonthLength(1971, month) && MonthsBefore(1971, month) + day == dayNum
  {
    var index := 0;
    day := dayNum;
    MonthTable(1971);
    DayNum(0);
    while DAY_NUM[index] < day
      invariant index < 12 && (dayNum < 1 ==> index == 0) && (dayNum >= 1 ==> day >= 1) && MonthsBefore(1971, index + 1) + day == dayNum
      invariant DAY_NUM[index] == MonthLength(1971, index + 1)
      decreases 12 - index
    {
      day := day - DAY_NUM[index];
      index := index + 1;
      if index < 12 { DayNum(index); }
    }
    month := index + 1;
  }

  /** The date of a day number, as the code computes it. */
  method DateOfDay(n: int) returns (date: Date)
    ensures ValidDate(date) && DayNumber(date) == n <==> 0 <= n < FIRST_WRONG
    ensures if n < 0 then date.year <= 1970 else 1970 <= date.year <= 1970 + n / 365
  {
    hide ValidDate, DayNumber, FourthYears, DaysBefore, CDiv, CMod;
    ghost var y, t := 1970, 0;
    if n >= 0 {
      y, t := FourthYearOf(n);
      Divisions(n, y, t);
      LaterYears(n, y, t);
      CDivNatural(n + 365, 1461);
      CDivNatural(n + 366, 1461);
      CDivNatural(n, 366);
    } else {
      EarlierYears(n);
    }
    var leapNum := CDiv(n + 365, 1461);
    if CMod(n + 366, 1461) == 0 {
      date := Date(CDiv(n, 366) + 1970, 12, 31);
      if n >= 0 { LastDay(n, y, date); }
    } else {
      var rest := n - leapNum;
      if n >= 0 { CDivNatural(rest, 365); } else { EarlierDays(rest); }
      var year := CDiv(rest, 365) + 1970;
      var dayNum := CMod(rest, 365) + 1;
      if year % 4 == 0 && dayNum == 60 {
        date := Date(year, 2, 29);
        LeapDay(n, year, date);
      } else {
        if year % 4 == 0 && dayNum > 60 { dayNum := dayNum - 1; }
        var month, day := MonthOf(dayNum);
        date := Date(year, month, day);
        if n >= 0 { CommonDay(n, year, t, date); }
      }
    }
    if n < 0 { NoNegativeDay(date, n); }
  }

  lemma NoNegativeDay(date: Date, n: int)
    requires n < 0
    ensures !(ValidDate(date) && DayNumber(date) == n)
  {}

  /** A negative day number leads to no later year than 1970. */
  lemma EarlierYears(n: int)
    requires n < 0
    ensures CDiv(n, 366) <= 0 && n - CDiv(n + 365, 1461) < 0
  {}

  lemma EarlierDays(rest: int)
    requires rest < 0
    ensures CDiv(rest, 365) <= 0 && CMod(rest, 365) <= 0
  {
    DivMod(0 - rest, 365);
  }

  lemma LaterYears(n: nat, y: nat, t: nat)
    requires y >= 1970 && n == FourthYears(y) + t
    ensures n / 366 <= n / 365 && y <= 1970 + n / 365
  {
    DivMod(n, 365);
    DivMod(n, 366);
  }

  /** 1 March 2100: the first day the code gets wrong. */
  const FIRST_WRONG: nat := 47541

  lemma FirstWrong()
    ensures FIRST_WRONG == DayNumber(Date(2100, 3, 1)) == FourthYears(2100) + 59
  {
    FourthYearsExact(2100);
    MonthTable(2100);
  }

  lemma YearBounds(n: nat, y: nat, t: nat)
    requires y >= 1970 && n == FourthYears(y) + t && t < 366
    ensures y < 2100 ==> n < FIRST_WRONG
    ensures y == 2100 ==> (n < FIRST_WRONG <==> t < 59)
    ensures y > 2100 ==> n >= FIRST_WRONG
  {}

  lemma LastDay(n: nat, y: nat, date: Date)
    requires y >= 1970 && y % 4 == 0 && n == FourthYears(y) + 365
    requires date.month == 12 && date.day == 31 && 1970 <= date.year <= y && (y <= 2456 ==> date.year == y)
    ensures ValidDate(date) && DayNumber(date) == n <==> n < FIRST_WRONG
  {
    FourthYearsExact(y);
    YearBounds(n, y, 365);
    MonthTable(date.year);
    YearsGrow(date.year, y);
    CommonLeap(y);
    hide FourthYears, MonthsBefore, Leap, DaysBefore;
  }

  lemma LeapDay(n: nat, y: nat, date: Date)
    requires y >= 1970 && y % 4 == 0 && n == FourthYears(y) + 59 && date == Date(y, 2, 29)
    ensures ValidDate(date) && DayNumber(date) == n <==> n < FIRST_WRONG
  {
    FourthYearsExact(y);
    YearBounds(n, y, 59);
    MonthTable(y);
    CommonLeap(y);
    hide FourthYears, MonthsBefore, Leap, DaysBefore;
  }

  /** A day that is not in front of or on a leap day's shadow. */
  lemma CommonDay(n: nat, y: nat, t: nat, date: Date)
    requires y >= 1970 && n == FourthYears(y) + t && t < 365 && date.year == y && 1 <= date.month <= 12
    requires 1 <= date.day <= MonthLength(1971, date.month) && !(y % 4 == 0 && t == 59)
    requires MonthsBefore(1971, date.month) + date.day == if y % 4 == 0 && t > 59 then t else t + 1
    ensures ValidDate(date) && DayNumber(date) == n <==> n < FIRST_WRONG
  {
    FourthYearsExact(y);
    YearBounds(n, y, t);
    MonthTable(y);
    MonthTable(1971);
    CommonLeap(y);
    CommonLeap(1971);
    hide FourthYears, MonthsBefore, Leap, DaysBefore;
  }

  // ------------------------------------------------------------ the time of day

  type SizeModulus = m: nat | m == 0x1_0000_0000 || m == 0x1_0000_0000_0000_0000 witness 0x1_0000_0000

  /** One more than the largest size_t. */
  const SIZE: SizeModulus

  /** `(size_t)time_zone * 60` added to the minutes, modulo the size of a size_t. */
  function ZoneMinutes(minutes: nat, zone: int): nat {
    (minutes + (zone % SIZE) * 60 % SIZE) % SIZE
  }

  /** The wrap-around cancels as long as the local time is not before 1970. */
  lemma ZoneMinutesExact(minutes: nat, zone: int)
    requires 0 <= minutes + 60 * zone < SIZE
    ensures ZoneMinutes(minutes, zone) == minutes + 60 * zone
  {
    var m := SIZE;
    var a, b := zone % m, (zone % m) * 60 % m;
    DivMod(zone, m);
    DivMod(a * 60, m);
    var q, r := zone / m, a * 60 / m;
    assert b == 60 * zone - (60 * q + r) * m by { Distr(60 * q, r, m); MulAssoc(60, q, m); }
    DivModUnique(minutes + b, m, -(60 * q + r), minutes + 60 * zone);
  }

  /** A size_t stored in an int of 32 bits keeps its low bits. */
  function IntOf(u: nat): (i: int)
    ensures -0x8000_0000 <= i < 0x8000_0000
  {
    var low := u % 0x1_0000_0000;
    if low < 0x8000_0000 then low else low - 0x1_0000_0000
  }

  /** The largest day number to which the code can add 366 in an int. */
  const MAX_DAY: nat := 0x7FFF_FE91

  /** The variable `day_num`: the day number of the local time, stored in an int. */
  function DayNum32(timestamp: nat, zone: int): int {
    IntOf(ZoneMinutes(timestamp / 60, zone) / 60 / 24)
  }

  /** RTC_DATE_TIME without its milliseconds, which the code does not touch. */
  class DateTime {
    var year: int
    var month: int
    var day: int
    var hour: nat
    var minute: nat
    var sec: nat

    /** `timestamp_to_date`: for local times from 1970 on the time is the local one, and
        the date is the local one exactly up to February 2100; an earlier local time gets
        a day number behind that. Called where the int additions do not overflow. */
    method TimestampToDate(timestamp: nat, zone: int)
      requires timestamp < SIZE && -128 <= zone < 128 && DayNum32(timestamp, zone) <= MAX_DAY
      modifies this
      ensures hour == ZoneMinutes(timestamp / 60, zone) / 60 % 24 && minute == timestamp / 60 % 60 && sec == timestamp % 60
      ensures ValidDate(Date(year, month, day)) && DayNumber(Date(year, month, day)) == DayNum32(timestamp, zone)
              <==> 0 <= DayNum32(timestamp, zone) < FIRST_WRONG
      ensures var local := timestamp + 3600 * zone;
              local >= 0 ==>
                hour * 3600 + minute * 60 + sec == local % 86400
                && (ValidDate(Date(year, month, day)) && DayNumber(Date(year, month, day)) == local / 86400 <==> local / 86400 < FIRST_WRONG)
      ensures timestamp + 3600 * zone < 0 ==> DayNum32(timestamp, zone) >= FIRST_WRONG && year >= 1970
    {
      hide ValidDate, DayNumber, ZoneMinutes, IntOf;
      if timestamp + 3600 * zone >= 0 { TimeOfDay(timestamp, zone); } else { BeforeEpoch(timestamp, zone); }
      sec := timestamp % 60;
      var minutes := timestamp / 60;
      minute := minutes % 60;
      var hours := ZoneMinutes(minutes, zone) / 60;
      hour := hours % 24;
      var n := IntOf(hours / 24);
      var date := DateOfDay(n);
      DayLost(hours / 24, date);
      year, month, day := date.year, date.month, date.day;
    }
  }

  /** Where the int is not the day number, no date the code can reach is that day's. */
  lemma DayLost(day: nat, date: Date)
    requires IntOf(day) <= MAX_DAY
    requires date.year <= if IntOf(day) < 0 then 1970 else 1970 + IntOf(day) / 365
    ensures IntOf(day) == day || (day >= 0x8000_0000 && !(ValidDate(date) && DayNumber(date) == day))
  {
    DivMod(day, 0x1_0000_0000);
    if ValidDate(date) { DayBound(date); }
    hide DayNumber, ValidDate;
  }

  lemma DayBound(date: Date)
    requires ValidDate(date)
    ensures DayNumber(date) < 366 * (date.year - 1969)
  {
    InYear(date);
    YearBound(date.year);
  }

  lemma {:induction false} YearBound(y: nat)
    requires y >= 1970
    ensures DaysBefore(y) <= 366 * (y - 1970)
  {
    if y > 1970 { YearBound(y - 1); }
  }

  /** A local time before 1970 wraps to a day far ahead: one after the year 10000 where
      size_t has 32 bits, and one after the year two million, the low bits of a longer
      day number, where it has 64. */
  lemma BeforeEpoch(ts: nat, zone: int)
    requires ts < SIZE && ts + 3600 * zone < 0 && -128 <= zone < 128
    ensures FIRST_WRONG <= DayNum32(ts, zone) <= MAX_DAY
  {
    var m := ts / 60;
    DivMod(ts, 60);
    assert -7680 <= m + 60 * zone < 0;
    ZoneMinutesWraps(m, zone);
    var w := SIZE + m + 60 * zone;
    assert DayNum32(ts, zone) == IntOf(w / 60 / 24);
    hide ZoneMinutes, IntOf, DayNum32;
    if SIZE == 0x1_0000_0000 {
      DayBetween(w, 2_982_600, 2_982_617);
      LowDays(w / 60 / 24, 0);
    } else {
      DayBetween(w, 12_810_238_940_076_000, 12_810_238_940_076_078);
      LowDays(w / 60 / 24, 2_982_616);
    }
  }

  lemma DayBetween(w: nat, lo: nat, hi: nat)
    requires 1440 * lo <= w < 1440 * hi
    ensures lo <= w / 60 / 24 < hi
  {
    DivMod(w, 60);
    DivMod(w / 60, 24);
  }

  lemma LowDays(day: nat, k: nat)
    requires k * 0x1_0000_0000 <= day < k * 0x1_0000_0000 + 0x8000_0000
    ensures IntOf(day) == day - k * 0x1_0000_0000
  {
    DivModUnique(day, 0x1_0000_0000, k, day - k * 0x1_0000_0000);
  }

  lemma ZoneMinutesWraps(minutes: nat, zone: int)
    requires -7680 <= minutes + 60 * zone < 0
    ensures ZoneMinutes(minutes, zone) == minutes + 60 * zone + SIZE
  {
    var m := SIZE;
    var a, b := zone % m, (zone % m) * 60 % m;
    DivMod(zone, m);
    DivMod(a * 60, m);
    var q, r := zone / m, a * 60 / m;
    assert b == 60 * zone - (60 * q + r) * m by { Distr(60 * q, r, m); MulAssoc(60, q, m); }
    Distr(-(60 * q + r), 1, m);
    DivModUnique(minutes + b, m, -(60 * q + r) - 1, minutes + 60 * zone + m);
  }

  lemma TimeOfDay(ts: nat, zone: int)
    requires ts < SIZE && ts + 3600 * zone >= 0 && -128 <= zone < 128
    ensures var local := ts + 3600 * zone;
            var hours := ZoneMinutes(ts / 60, zone) / 60;
            hours / 24 == local / 86400 && hours % 24 * 3600 + ts / 60 % 60 * 60 + ts % 60 == local % 86400
  {
    var s, m0 := ts % 60, ts / 60;
    DivMod(ts, 60);
    var m, h0 := m0 % 60, m0 / 60;
    DivMod(m0, 60);
    var h := h0 + zone;
    assert ts + 3600 * zone == 3600 * h + 60 * m + s;
    assert h >= 0;
    assert m0 + 60 * zone == 60 * h + m;
    ZoneMinutesExact(m0, zone);
    DivModUnique(60 * h + m, 60, h, m);
    DivMod(h, 24);
    DivModUnique(3600 * h + 60 * m + s, 86400, h / 24, 3600 * (h % 24) + 60 * m + s);
  }
}
