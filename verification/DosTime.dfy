/**
 * Packed DOS times: unix_to_dos_time and dos_time_to_unix of src/archive/buffer_archive.cpp,
 * over the proleptic Gregorian calendar in UTC.
 */
module DosTime {
  // ----- The calendar that gmtime and timegm follow

  predicate Leap(y: nat) { y % 4 == 0 && (y % 100 != 0 || y % 400 == 0) }

  function YearLength(y: nat): nat { if Leap(y) then 366 else 365 }

  function MonthLength(y: nat, m: nat): nat {
    if m == 2 then (if Leap(y) then 29 else 28)
    else if m == 4 || m == 6 || m == 9 || m == 11 then 30
    else 31
  }

  /** Days from 1 January 1970 to 1 January of year y. */
  function YearStart(y: nat): nat { if y <= 1970 then 0 else YearStart(y - 1) + YearLength(y - 1) }

  /** Days from 1 January to the first of month m. */
  function MonthStart(y: nat, m: nat): nat {
    if m <= 1 then 0 else MonthStart(y, m - 1) + MonthLength(y, m - 1)
  }

  datatype Tm = Tm(year: nat, month: nat, day: nat, hour: nat, minute: nat, second: nat)

  /** The year holding the day that lies `days` after 1 January of year y, and that day's number in it. */
  function YearOf(days: nat, y: nat): (r: (nat, nat))
    requires y >= 1970
    ensures r.0 >= y && r.1 < YearLength(r.0) && YearStart(r.0) + r.1 == YearStart(y) + days
    decreases days
  {
    if days < YearLength(y) then (y, days) else YearOf(days - YearLength(y), y + 1)
  }

  function MonthOf(y: nat, days: nat, m: nat): (r: (nat, nat))
    requires 1 <= m <= 12 && MonthStart(y, m) + days < MonthStart(y, 13)
    ensures m <= r.0 <= 12 && r.1 < MonthLength(y, r.0) && MonthStart(y, r.0) + r.1 == MonthStart(y, m) + days
    decreases 12 - m
  {
    if days < MonthLength(y, m) then (m, days)
    else MonthOf(y, days - MonthLength(y, m), m + 1)
  }

  lemma YearOfMonths(y: nat)
    ensures MonthStart(y, 13) == YearLength(y)
  {
    var feb := MonthLength(y, 2);
    assert MonthStart(y, 2) == 31;
    assert MonthStart(y, 3) == 31 + feb;
    assert MonthStart(y, 5) == 92 + feb;
    assert MonthStart(y, 7) == 153 + feb;
    assert MonthStart(y, 9) == 215 + feb;
    assert MonthStart(y, 11) == 276 + feb;
  }

  function GmTime(t: nat): (tm: Tm)
    ensures tm.year >= 1970 && 1 <= tm.month <= 12 && 1 <= tm.day <= MonthLength(tm.year, tm.month)
    ensures tm.hour < 24 && tm.minute < 60 && tm.second < 60
  {
    var (year, inYear) := YearOf(t / 86400, 1970);
    YearOfMonths(year);
    var (month, inMonth) := MonthOf(year, inYear, 1);
    var s := t % 86400;
    Tm(year, month, inMonth + 1, s / 3600, s / 60 % 60, s % 60)
  }

  /** timegm carries over-long days, hours, minutes and seconds into the larger units. */
  function TimeGm(tm: Tm): nat
    requires tm.day >= 1
  {
    86400 * (YearStart(tm.year) + MonthStart(tm.year,
        tm.month) + tm.day - 1) + 3600 * tm.hour + 60 * tm.minute + tm.second
  }

  lemma TimeGmInvertsGmTime(t: nat)
    ensures TimeGm(GmTime(t)) == t
  {
    var s := t % 86400;
    assert s == 3600 * (s / 3600) + 60 * (s / 60 % 60) + s % 60;
    YearOfMonths(YearOf(t / 86400, 1970).0);
  }

  // ----- The calendar by its formulas

  /** Where months begin: from March on they take 153 days in five months, alternating 31, 30, 31, 30, 31. */
  lemma MonthStartClosed(y: nat, m: nat)
    requires 1 <= m <= 12
    ensures MonthStart(y, m) ==
      if m == 1 then 0 else if m == 2 then 31 else (153 * (m - 3) + 2) / 5 + (if Leap(y) then 60 else 59)
  {
    var feb := MonthLength(y, 2);
    assert MonthStart(y, 2) == 31;
    assert MonthStart(y, 4) == 62 + feb;
    assert MonthStart(y, 6) == 123 + feb;
    assert MonthStart(y, 8) == 184 + feb;
    assert MonthStart(y, 10) == 245 + feb;
    assert MonthStart(y, 12) == 306 + feb;
  }

  /** The number of days from 1 March of year 0 to a date, years counted from March. */
  function DayNumber(y: nat, m: nat, d: nat): int
    requires y >= 1 && 1 <= m <= 12
  {
    var yy, mm := if m <= 2 then y - 1 else y, if m <= 2 then m + 9 else m - 3;
    365 * yy + yy / 4 - yy / 100 + yy / 400 + (153 * mm + 2) / 5 + d - 1
  }

  /** timegm by day numbers: no table of years or months is left in it. */
  lemma TimeGmClosed(tm: Tm)
    requires tm.year >= 1970 && 1 <= tm.month <= 12 && tm.day >= 1
    ensures TimeGm(tm) == 86400 * (DayNumber(tm.year, tm.month, tm.day) - DayNumber(1970, 1, 1))
      + 3600 * tm.hour + 60 * tm.minute + tm.second
  {
    hide YearStart, MonthStart;
    YearStartClosed(tm.year);
    MonthStartClosed(tm.year, tm.month);
    Quotients(tm.year);
  }

  /** gmtime gives the one calendar time with that day number and time of day. */
  lemma GmTimeClosed(t: nat)
    ensures var tm := GmTime(t);
      && DayNumber(tm.year, tm.month, tm.day) - DayNumber(1970, 1, 1) == t / 86400
      && 3600 * tm.hour + 60 * tm.minute + tm.second == t % 86400
      && tm.day <= (if tm.month == 2 then (if Leap(tm.year) then 29 else 28) else 30 + (tm.month + tm.month / 8) % 2)
  {
    hide YearOf, MonthOf, YearStart, MonthStart, DayNumber;
    var tm := GmTime(t);
    TimeGmInvertsGmTime(t);
    TimeGmClosed(tm);
  }

  // ----- Where years begin

  function LeapDays(y: nat): nat
    requires y >= 1970
  {
    (y - 1) / 4 - (y - 1) / 100 + (y - 1) / 400 - 477
  }

  lemma Quotients(y: nat)
    requires y >= 1
    ensures y / 4 == (y - 1) / 4 + (if y % 4 == 0 then 1 else 0)
    ensures y / 100 == (y - 1) / 100 + (if y % 100 == 0 then 1 else 0)
    ensures y / 400 == (y - 1) / 400 + (if y % 400 == 0 then 1 else 0)
    ensures y % 400 == 0 ==> y % 100 == 0
    ensures y % 100 == 0 ==> y % 4 == 0
  {
  }

  lemma {:induction false} YearStartClosed(y: nat)
    requires y >= 1970
    ensures YearStart(y) == 365 * (y - 1970) + LeapDays(y)
  {
    if y > 1970 {
      Quotients(y - 1);
      YearStartClosed(y - 1);
    }
  }

  lemma {:induction false} YearStartMonotone(a: nat, b: nat)
    requires a <= b
    ensures YearStart(a) <= YearStart(b)
    decreases b
  {
    if a < b { YearStartMonotone(a, b - 1); }
  }

  const DOS_START: nat := 315532800 // 1 January 1980
  const DOS_END: nat := 4354819200 // 1 January 2108

  lemma Landmarks()
    ensures 86400 * YearStart(1980) == DOS_START
    ensures 86400 * YearStart(2108) == DOS_END
  {
    YearStartClosed(1980);
    YearStartClosed(2108);
  }

  lemma YearWithin(t: nat, y: nat)
    requires y >= 1970
    ensures t >= 86400 * YearStart(y) <==> GmTime(t).year >= y
  {
    var g := GmTime(t).year;
    if g >= y {
      YearStartMonotone(y, g);
    } else {
      YearStartMonotone(g + 1, y);
    }
  }

  // ----- The packed form

  function Pack(tm: Tm): nat
    requires tm.year >= 1980
  {
    (tm.year - 1980) * 0x200_0000 + tm.month * 0x20_0000 + tm.day * 0x1_0000
    + tm.hour * 0x800 + tm.minute * 0x20 + tm.second / 2
  }

  /** 31 March 2021 at midnight, and its packed form: year 41 of 1980, month 3, day 31. */
  lemma LastOfMarch()
    ensures GmTime(1617148800) == Tm(2021, 3, 31, 0, 0, 0)
    ensures UnixToDos(1617148800) == 0x527F_0000
  {
    hide YearOf, MonthOf, YearStart, MonthStart;
    YearStartClosed(2021);
    YearStartClosed(2022);
    YearWithin(1617148800, 2021);
    YearWithin(1617148800, 2022);
    GmTimeClosed(1617148800);
  }

  function ClampYear(y: nat): (r: nat)
    ensures 1980 <= r <= 2107
  {
    if y < 1980 then 1980 else if y > 2107 then 2107 else y
  }

  function UnixToDos(t: nat): nat {
    if t == 0 then 0
    else
      var tm := GmTime(t);
      Pack(tm.(year := ClampYear(tm.year)))
  }

  function DosToUnix(dos: nat): nat {
    if dos == 0 then 0
    else
      var month, day := dos / 0x20_0000 % 16, dos / 0x1_0000 % 32;
      TimeGm(Tm(1980 + dos / 0x200_0000 % 128,
                if month == 0 || month > 12 then 1 else month,
                if day == 0 then 1 else day,
                dos / 0x800 % 32, dos / 0x20 % 64, dos % 32 * 2))
  }

  predicate Packable(tm: Tm) {
    && 1980 <= tm.year <= 2107 && 1 <= tm.month <= 12 && 1 <= tm.day <= 31
    && tm.hour < 24 && tm.minute < 60 && tm.second < 60
  }

  /** Every field comes back out of its bits. */
  lemma Unpack(tm: Tm)
    requires Packable(tm)
    ensures 0 < Pack(tm) < 0x1_0000_0000
    ensures Pack(tm) % 32 == tm.second / 2
    ensures Pack(tm) / 0x20 % 64 == tm.minute
    ensures Pack(tm) / 0x800 % 32 == tm.hour
    ensures Pack(tm) / 0x1_0000 % 32 == tm.day
    ensures Pack(tm) / 0x20_0000 % 16 == tm.month
    ensures Pack(tm) / 0x200_0000 % 128 == tm.year - 1980
  {
    var a := (tm.year - 1980) * 16 + tm.month;
    var b := a * 32 + tm.day;
    var c := b * 32 + tm.hour;
    var e := c * 64 + tm.minute;
    var p := e * 32 + tm.second / 2;
    assert Pack(tm) == p;
    Chunk32(e, tm.second / 2);
    Chunk64(c, tm.minute);
    Chunk32(b, tm.hour);
    Chunk32(a, tm.day);
    Chunk16(tm.year - 1980, tm.month);
    Nested(p);
  }

  lemma Chunk32(hi: nat, lo: nat)
    requires lo < 32
    ensures (hi * 32 + lo) / 32 == hi && (hi * 32 + lo) % 32 == lo
  {
  }

  lemma Chunk64(hi: nat, lo: nat)
    requires lo < 64
    ensures (hi * 64 + lo) / 64 == hi && (hi * 64 + lo) % 64 == lo
  {
  }

  lemma Chunk16(hi: nat, lo: nat)
    requires lo < 16
    ensures (hi * 16 + lo) / 16 == hi && (hi * 16 + lo) % 16 == lo
  {
  }

  /** Shifting in steps is shifting at once. */
  lemma Nested(p: nat)
    ensures p / 0x800 == p / 0x20 / 64 && p / 0x1_0000 == p / 0x800 / 32
    ensures p / 0x20_0000 == p / 0x1_0000 / 32 && p / 0x200_0000 == p / 0x20_0000 / 16
  {
  }

  lemma Repacked(tm: Tm)
    requires Packable(tm)
    ensures DosToUnix(Pack(tm)) == TimeGm(tm) - tm.second % 2
  {
    hide Pack, YearStart, MonthStart;
    Unpack(tm);
  }

  /** The stored value always fits the 32-bit field, and is 0 only for an unset time. */
  lemma DosRange(t: nat)
    ensures UnixToDos(t) < 0x1_0000_0000
    ensures UnixToDos(t) == 0 <==> t == 0
  {
    if t != 0 { Unpack(GmTime(t).(year := ClampYear(GmTime(t).year))); }
  }

  lemma ClampedInRange(tm: Tm)
    requires Packable(tm)
    ensures TimeGm(tm) >= DOS_START
    ensures tm.day <= MonthLength(tm.year, tm.month) || tm.month < 12 ==> TimeGm(tm) < DOS_END
  {
    Landmarks();
    YearStartMonotone(1980, tm.year);
    YearStartMonotone(tm.year + 1, 2108);
    YearOfMonths(tm.year);
    if tm.month < 12 { MonthStartMonotone(tm.year, tm.month + 2, 13); }
  }

  /** A time survives the codec, to two seconds, exactly when it is unset or lies in the DOS years 1980 to 2107. */
  lemma DosRoundTrip(t: nat)
    ensures DosToUnix(UnixToDos(t)) == t - t % 2 <==> t == 0 || DOS_START <= t < DOS_END
  {
    if t != 0 {
      var tm := GmTime(t);
      var clamped := tm.(year := ClampYear(tm.year));
      Repacked(clamped);
      Landmarks();
      YearWithin(t, 1980);
      YearWithin(t, 2108);
      ClampedInRange(clamped);
      TimeGmInvertsGmTime(t);
      SecondParity(t);
    }
  }

  lemma SecondParity(t: nat)
    ensures GmTime(t).second % 2 == t % 2
  {
    hide YearOf, MonthOf;
    EvenModuli(t);
    EvenModuli(t % 86400);
  }

  lemma EvenModuli(t: nat)
    ensures t % 86400 % 2 == t % 2 && t % 60 % 2 == t % 2
  {
    EvenPlus(43200 * (t / 86400), t % 86400);
    EvenPlus(30 * (t / 60), t % 60);
  }

  lemma EvenPlus(k: nat, r: nat)
    ensures (2 * k + r) % 2 == r % 2
  {
  }

  // ----- Order

  ghost predicate Before(a: Tm, b: Tm) {
    a.year < b.year || (a.year == b.year && (a.month < b.month || (a.month == b.month && (a.day < b.day ||
      (a.day == b.day && 3600 * a.hour + 60 * a.minute + a.second <= 3600 * b.hour + 60 * b.minute + b.second)))))
  }

  lemma YearOrder(s: nat, t: nat)
    requires s <= t
    ensures GmTime(s).year <= GmTime(t).year
  {
    YearWithin(s, GmTime(s).year);
    YearWithin(t, GmTime(s).year);
  }

  lemma {:induction false} MonthStartMonotone(y: nat, a: nat, b: nat)
    requires a <= b
    ensures MonthStart(y, a) <= MonthStart(y, b)
    decreases b
  {
    if a < b { MonthStartMonotone(y, a, b - 1); }
  }

  lemma FieldOrder(s: nat, t: nat)
    requires s <= t
    ensures Before(GmTime(s), GmTime(t))
  {
    hide MonthOf, YearOf;
    YearOrder(s, t);
    TimeGmInvertsGmTime(s);
    TimeGmInvertsGmTime(t);
    var a, b := GmTime(s), GmTime(t);
    if a.year == b.year && b.month < a.month {
      MonthStartMonotone(a.year, b.month + 1, a.month);
    }
  }

  lemma PackOrder(a: Tm, b: Tm)
    requires Packable(a) && Packable(b) && Before(a, b)
    ensures Pack(a) <= Pack(b)
  {
    hide Packable;
    var p, q := ClockPart(a), ClockPart(b);
    ClockRange(a);
    ClockRange(b);
    PackSplit(a);
    PackSplit(b);
    if (a.year, a.month, a.day) == (b.year, b.month, b.day) {
      ClockOrder(a, b);
    } else {
      DateOrder(a, b);
    }
  }

  function ClockPart(tm: Tm): nat { tm.hour * 0x800 + tm.minute * 0x20 + tm.second / 2 }

  function DatePart(tm: Tm): nat
    requires tm.year >= 1980
  {
    (tm.year - 1980) * 512 + tm.month * 32 + tm.day
  }

  lemma PackSplit(tm: Tm)
    requires tm.year >= 1980
    ensures Pack(tm) == DatePart(tm) * 0x1_0000 + ClockPart(tm)
  {
  }

  lemma ClockRange(tm: Tm)
    requires Packable(tm)
    ensures ClockPart(tm) < 0x1_0000 && tm.year >= 1980
  {
  }

  lemma DateOrder(a: Tm, b: Tm)
    requires Packable(a) && Packable(b) && Before(a, b) && (a.year, a.month, a.day) != (b.year, b.month, b.day)
    ensures DatePart(a) < DatePart(b)
  {
  }

  lemma ClockOrder(a: Tm, b: Tm)
    requires Packable(a) && Packable(b) &&
        3600 * a.hour + 60 * a.minute + a.second <= 3600 * b.hour + 60 * b.minute + b.second
    ensures ClockPart(a) <= ClockPart(b)
  {
    if a.hour == b.hour && a.minute == b.minute {
      assert a.second / 2 <= b.second / 2;
    } else if a.hour == b.hour {
      assert a.minute < b.minute;
    } else {
      assert a.hour < b.hour;
    }
  }

  /** Packing keeps order over the DOS years. */
  lemma DosOrder(s: nat, t: nat)
    requires DOS_START <= s <= t < DOS_END
    ensures UnixToDos(s) <= UnixToDos(t)
  {
    hide GmTime, YearStart, Pack;
    Landmarks();
    YearWithin(s, 1980);
    YearWithin(t, 2108);
    FieldOrder(s, t);
    PackOrder(GmTime(s), GmTime(t));
  }
}
