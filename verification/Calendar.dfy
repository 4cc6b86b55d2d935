/**
 * The Gregorian calendar and the C library's timegm: a broken-down UTC time is normalised to
 * seconds since 1970-01-01T00:00:00Z and rewritten as the calendar date of that second.
 */
module Calendar {
  // struct tm: years since 1900, months since January.
  datatype Tm = Tm(year: int, mon: int, mday: int, hour: int, min: int, sec: int)

  const SECONDS_PER_DAY := 86400

  predicate Leap(y: int) {
    y % 4 == 0 && (y % 100 != 0 || y % 400 == 0)
  }

  function DaysInYear(y: int): int {
    if Leap(y) then 366 else 365
  }

  function DaysInMonth(y: int, m: int): (d: int)
    requires 0 <= m < 12
    ensures 28 <= d <= 31
  {
    if m == 1 then if Leap(y) then 29 else 28
    else if m == 3 || m == 5 || m == 8 || m == 10 then 30
    else 31
  }

  // A date and time of day that exists, without leap seconds, in the proleptic Gregorian calendar.
  predicate Real(t: Tm) {
    && 0 <= t.mon < 12
    && 1 <= t.mday <= DaysInMonth(t.year + 1900, t.mon)
    && 0 <= t.hour < 24 && 0 <= t.min < 60 && 0 <= t.sec < 60
  }

  // ---------------------------------------------------------------- counting days

  // Days from the epoch to the first day of year y, one year at a time.
  function YearStart(y: int): (n: int)
    requires y >= 1970
    ensures n >= 0
  {
    if y == 1970 then 0 else YearStart(y - 1) + DaysInYear(y - 1)
  }

  // Days from the first of January to the first of month m, one month at a time.
  function MonthStart(y: int, m: int): (n: int)
    requires 0 <= m <= 12
    ensures 28 * m <= n <= 31 * m
  {
    if m == 0 then 0 else MonthStart(y, m - 1) + DaysInMonth(y, m - 1)
  }

  // Seconds since the epoch, by counting.
  function Counted(t: Tm): int
    requires Real(t) && t.year >= 70
  {
    SECONDS_PER_DAY * (YearStart(t.year + 1900) + MonthStart(t.year + 1900, t.mon) + t.mday - 1)
    + 3600 * t.hour + 60 * t.min + t.sec
  }

  // ---------------------------------------------------------------- timegm

  // Closed form for the days before year y, relative to the epoch; any year.
  function DaysBeforeYear(y: int): int {
    var p := y - 1;
    365 * p + p / 4 - p / 100 + p / 400 - 719162
  }

  // The seconds timegm returns. Every field may be out of its range: months carry into years,
  // and the rest is plain arithmetic.
  function Seconds(t: Tm): int {
    var y := t.year + 1900 + t.mon / 12;
    SECONDS_PER_DAY * (DaysBeforeYear(y) + MonthStart(y, t.mon % 12) + t.mday - 1)
    + 3600 * t.hour + 60 * t.min + t.sec
  }

  // The number of the day a date falls on.
  function Day(t: Tm): int
    requires Real(t)
  {
    DaysBeforeYear(t.year + 1900) + MonthStart(t.year + 1900, t.mon) + t.mday - 1
  }

  lemma SecondsOfReal(t: Tm)
    requires Real(t)
    ensures Seconds(t) == SECONDS_PER_DAY * Day(t) + 3600 * t.hour + 60 * t.min + t.sec
  {
    assert t.mon / 12 == 0 && t.mon % 12 == t.mon;
  }

  // The year that contains day n, searching upwards from y.
  function FindYear(n: int, y: int): (r: int)
    requires DaysBeforeYear(y) <= n
    ensures r >= y && DaysBeforeYear(r) <= n < DaysBeforeYear(r + 1)
    decreases n - DaysBeforeYear(y)
  {
    NextYear(y);
    if n < DaysBeforeYear(y + 1) then y else FindYear(n, y + 1)
  }

  // The month that contains day n of year y, searching upwards from m.
  function FindMonth(y: int, n: int, m: int): (r: int)
    requires 0 <= m < 12 && MonthStart(y, m) <= n < MonthStart(y, 12)
    ensures 0 <= r < 12 && MonthStart(y, r) <= n < MonthStart(y, r + 1)
    decreases 12 - m
  {
    if n < MonthStart(y, m + 1) then m else FindMonth(y, n, m + 1)
  }

  // Year, month and day of the month of a day counted from the epoch.
  function CivilDate(day: nat): (r: (int, int, int))
    ensures r.0 >= 1970 && 0 <= r.1 < 12 && 1 <= r.2 <= DaysInMonth(r.0, r.1)
    ensures DaysBeforeYear(r.0) + MonthStart(r.0, r.1) + r.2 - 1 == day
  {
    var y := FindYear(day, 1970);
    NextYear(y);
    YearLength(y);
    var n := day - DaysBeforeYear(y);
    var m := FindMonth(y, n, 0);
    (y, m, n - MonthStart(y, m) + 1)
  }

  // Hour, minute and second of a second of the day.
  function ClockTime(time: nat): (r: (int, int, int))
    requires time < SECONDS_PER_DAY
    ensures 0 <= r.0 < 24 && 0 <= r.1 < 60 && 0 <= r.2 < 60
    ensures 3600 * r.0 + 60 * r.1 + r.2 == time
  {
    (time / 3600, time % 3600 / 60, time % 60)
  }

  // The broken-down time of a second at or after the epoch, as timegm writes it back.
  function Normalised(s: int): (t: Tm)
    requires s >= 0
    ensures Real(t) && t.year >= 70 && Seconds(t) == s
  {
    hide DaysBeforeYear, MonthStart, CivilDate, ClockTime, Seconds;
    var (y, m, d) := CivilDate(s / SECONDS_PER_DAY);
    var (hour, min, sec) := ClockTime(s % SECONDS_PER_DAY);
    var t := Tm(y - 1900, m, d, hour, min, sec);
    SecondsOfReal(t);
    t
  }

  lemma Quotients(p: int)
    ensures (p + 1) / 4 == p / 4 + if (p + 1) % 4 == 0 then 1 else 0
    ensures (p + 1) / 100 == p / 100 + if (p + 1) % 100 == 0 then 1 else 0
    ensures (p + 1) / 400 == p / 400 + if (p + 1) % 400 == 0 then 1 else 0
  {}

  lemma Multiples(y: int)
    ensures y % 100 == 0 ==> y % 4 == 0
    ensures y % 400 == 0 ==> y % 100 == 0
  {
    if y % 100 == 0 { assert y == 4 * (25 * (y / 100)); }
    if y % 400 == 0 { assert y == 100 * (4 * (y / 400)); }
  }

  lemma NextYear(y: int)
    ensures DaysBeforeYear(y + 1) == DaysBeforeYear(y) + DaysInYear(y)
  {
    Quotients(y - 1);
    Multiples(y);
  }

  lemma YearLength(y: int)
    ensures MonthStart(y, 12) == DaysInYear(y)
  {
    var february := DaysInMonth(y, 1);
    assert MonthStart(y, 2) == 31 + february;
    assert MonthStart(y, 4) == 92 + february;
    assert MonthStart(y, 6) == 153 + february;
    assert MonthStart(y, 8) == 215 + february;
    assert MonthStart(y, 10) == 276 + february;
  }

  // ---------------------------------------------------------------- the theorems

  // The calendar written out.
  lemma MonthLengths(y: int)
    ensures var february := if (y % 4 == 0 && y % 100 != 0) || y % 400 == 0 then 29 else 28;
      forall m | 0 <= m < 12 ::
        DaysInMonth(y, m) == [31, february, 31, 30, 31, 30, 31, 31, 30, 31, 30, 31][m]
  {
    Multiples(y);
  }

  // The closed form counts the years.
  lemma {:induction false} ClosedForm(y: int)
    requires y >= 1970
    ensures DaysBeforeYear(y) == YearStart(y)
  {
    if y > 1970 {
      ClosedForm(y - 1);
      NextYear(y - 1);
    }
  }

  lemma SecondsAreCounted(t: Tm)
    requires Real(t) && t.year >= 70
    ensures Seconds(t) == Counted(t) >= 0
  {
    hide DaysBeforeYear, MonthStart, YearStart, Seconds;
    SecondsOfReal(t);
    ClosedForm(t.year + 1900);
  }

  lemma {:induction false} LaterYear(y: int, z: int)
    requires y < z
    ensures DaysBeforeYear(y) + DaysInYear(y) <= DaysBeforeYear(z)
    decreases z - y
  {
    NextYear(y);
    if y + 1 < z { LaterYear(y + 1, z); }
  }

  // The same day and time, whether or not it exists, is later in later years.
  lemma YearsLater(t: Tm, years: int)
    requires 0 <= t.mon < 12 && years > 0
    ensures Seconds(t) < Seconds(t.(year := t.year + years))
  {
    hide DaysBeforeYear, MonthStart;
    LaterYear(t.year + 1900, t.year + 1900 + years);
    assert t.mon / 12 == 0 && t.mon % 12 == t.mon;
  }

  lemma {:induction false} LaterMonth(y: int, m: int, n: int)
    requires 0 <= m < n <= 12
    ensures MonthStart(y, m) + DaysInMonth(y, m) <= MonthStart(y, n)
  {
    if m + 1 < n { LaterMonth(y, m, n - 1); }
  }

  ghost predicate Before(t: Tm, u: Tm) {
    t.year < u.year || (t.year == u.year && (
    t.mon < u.mon || (t.mon == u.mon && (
    t.mday < u.mday || (t.mday == u.mday && (
    t.hour < u.hour || (t.hour == u.hour && (
    t.min < u.min || (t.min == u.min && t.sec < u.sec)))))))))
  }

  lemma EarlierDay(t: Tm, u: Tm)
    requires Real(t) && Real(u) && Before(t.(hour := 0, min := 0, sec := 0), u.(hour := 0, min := 0, sec := 0))
    ensures Day(t) < Day(u)
  {
    hide DaysBeforeYear, MonthStart, DaysInMonth, DaysInYear;
    var y, z := t.year + 1900, u.year + 1900;
    LaterMonth(y, t.mon, 12);
    YearLength(y);
    if y < z {
      LaterYear(y, z);
    } else if t.mon < u.mon {
      LaterMonth(y, t.mon, u.mon);
    }
  }

  lemma EarlierIsSmaller(t: Tm, u: Tm)
    requires Real(t) && Real(u) && Before(t, u)
    ensures Seconds(t) < Seconds(u)
  {
    hide Seconds, DaysInMonth, DaysBeforeYear, MonthStart;
    SecondsOfReal(t);
    SecondsOfReal(u);
    if Before(t.(hour := 0, min := 0, sec := 0), u.(hour := 0, min := 0, sec := 0)) { EarlierDay(t, u); }
  }

  // Timestamps order real dates as the calendar does; in particular they are injective.
  lemma OrderIsCalendarOrder(t: Tm, u: Tm)
    requires Real(t) && Real(u)
    ensures Before(t, u) <==> Seconds(t) < Seconds(u)
    ensures Seconds(t) == Seconds(u) ==> t == u
  {
    if Before(t, u) {
      EarlierIsSmaller(t, u);
    } else if t != u {
      EarlierIsSmaller(u, t);
    }
  }

  // "timegm changed nothing" holds for exactly the dates that exist at or after the epoch.
  lemma UnchangedIffReal(t: Tm)
    ensures (Seconds(t) >= 0 && Normalised(Seconds(t)) == t) <==> (Real(t) && t.year >= 70)
  {
    hide Seconds, Normalised;
    if Real(t) && t.year >= 70 {
      SecondsAreCounted(t);
      OrderIsCalendarOrder(t, Normalised(Seconds(t)));
    }
  }
}
