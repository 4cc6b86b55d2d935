/** Validity times: UTCTime and GeneralizedTime, and what the source makes of them. */
module Time {
  import opened Bytes
  import opened Der
  import Calendar

  // The decimal fields as written: two year digits in a UTCTime, four in a GeneralizedTime.
  datatype Time = Time(general: bool, year: nat, month: nat, day: nat, hour: nat, minute: nat, second: nat)

  const ZULU: byte := 90

  function YearDigits(general: bool): nat {
    if general then 4 else 2
  }

  // The struct tm the source builds. A UTCTime year below 50 is in the next century. A
  // GeneralizedTime year is stored as it stands, without taking 1900 off.
  function Broken(t: Time): Calendar.Tm {
    var year := if !t.general && t.year < 50 then t.year + 100 else t.year;
    Calendar.Tm(year, t.month - 1, t.day, t.hour, t.minute, t.second)
  }

  // The year that section 4.1.2.5 of RFC 5280 means: two digits stand for 1950 to 2049.
  function MeantYear(t: Time): int {
    if t.general then t.year else if t.year >= 50 then 1900 + t.year else 2000 + t.year
  }

  function Meant(t: Time): Calendar.Tm {
    Calendar.Tm(MeantYear(t) - 1900, t.month - 1, t.day, t.hour, t.minute, t.second)
  }

  function Timestamp(t: Time): int {
    Calendar.Seconds(Broken(t))
  }

  // timegm succeeds and changes no field.
  predicate Unchanged(tm: Calendar.Tm) {
    Calendar.Seconds(tm) >= 0 && Calendar.Normalised(Calendar.Seconds(tm)) == tm
  }

  // ---------------------------------------------------------------- encoder

  function Pow10(k: nat): (p: nat)
    ensures p >= 1
  {
    if k == 0 then 1 else 10 * Pow10(k - 1)
  }

  function Digits(n: nat, k: nat): (s: bytes)
    ensures |s| == k
  {
    if k == 0 then [] else Digits(n / 10, k - 1) + [48 + n % 10]
  }

  function AfterYear(t: Time): (s: bytes)
    ensures |s| == 11
  {
    Digits(t.month, 2) + (Digits(t.day, 2) + TimeOfDay(t))
  }

  function TimeOfDay(t: Time): bytes {
    Digits(t.hour, 2) + (Digits(t.minute, 2) + (Digits(t.second, 2) + [ZULU]))
  }

  function Body(t: Time): (s: bytes)
    ensures |s| == YearDigits(t.general) + 11
  {
    Digits(t.year, YearDigits(t.general)) + AfterYear(t)
  }

  function Encode(t: Time): bytes {
    Tlv(if t.general then GENERALIZEDTIME else UTCTIME, Body(t))
  }

  predicate InRange(t: Time) {
    && t.year < Pow10(YearDigits(t.general))
    && t.month < 100 && t.day < 100 && t.hour < 100 && t.minute < 100 && t.second < 100
  }

  predicate WellFormed(t: Time) {
    InRange(t) && Calendar.Real(Broken(t)) && Broken(t).year >= 70
  }

  // ---------------------------------------------------------------- what the parser does

  function NumberAt(b: bytes, p: nat, k: nat): (r: Result<nat>)
    requires p + k <= |b|
  {
    if k == 0 then Ok(0)
    else
      var n :- NumberAt(b, p, k - 1);
      var c := b[p + k - 1];
      if c < 48 || c > 57 then Err(InvalidValidityTime) else Ok(10 * n + c - 48)
  }

  function BodyAt(b: bytes, p: nat, general: bool): Result<Time>
    requires p + YearDigits(general) + 11 <= |b|
  {
    var year :- NumberAt(b, p, YearDigits(general));
    AfterYearAt(b, p + YearDigits(general), general, year)
  }

  function AfterYearAt(b: bytes, q: nat, general: bool, year: nat): Result<Time>
    requires q + 11 <= |b|
  {
    var month :- NumberAt(b, q, 2);
    var day :- NumberAt(b, q + 2, 2);
    var hour :- NumberAt(b, q + 4, 2);
    var minute :- NumberAt(b, q + 6, 2);
    var second :- NumberAt(b, q + 8, 2);
    var t := Time(general, year, month, day, hour, minute, second);
    if b[q + 10] != ZULU || !Unchanged(Broken(t)) then Err(InvalidValidityTime) else Ok(t)
  }

  // A UTCTime if there is one, else a GeneralizedTime; with the position after it.
  function TimeAt(b: buffer, i: nat, e: nat): (r: Result<(Time, nat)>)
    requires e <= |b|
    ensures r.Ok? ==> i <= r.value.1 <= e
  {
    var o :- OptionalAt(b, UTCTIME, i, e);
    var general := o.None?;
    var h :- if general then ElementAt(b, GENERALIZEDTIME, i, e) else Ok(o.value);
    if h.start + YearDigits(general) + 11 != h.end then Err(InvalidValidityTime)
    else
      var t :- BodyAt(b, h.start, general);
      Ok((t, h.end))
  }

  // ---------------------------------------------------------------- parser and encoder agree

  lemma {:induction false} NumberSound(b: bytes, p: nat, k: nat)
    requires p + k <= |b| && NumberAt(b, p, k).Ok?
    ensures NumberAt(b, p, k).value < Pow10(k) && At(b, p, Digits(NumberAt(b, p, k).value, k))
  {
    if k > 0 {
      NumberSound(b, p, k - 1);
      var n := NumberAt(b, p, k).value;
      assert n / 10 == NumberAt(b, p, k - 1).value && n % 10 == b[p + k - 1] - 48;
      assert b[p..p + k] == b[p..p + k - 1] + [b[p + k - 1]];
    }
  }

  lemma {:induction false} NumberComplete(b: bytes, p: nat, k: nat, n: nat)
    requires n < Pow10(k) && At(b, p, Digits(n, k))
    ensures NumberAt(b, p, k) == Ok(n)
  {
    if k > 0 {
      AtConcat(b, p, Digits(n / 10, k - 1), [48 + n % 10]);
      NumberComplete(b, p, k - 1, n / 10);
      assert b[p + k - 1] == b[p + k - 1..p + k][0];
    }
  }

  lemma AtAfterYear(b: bytes, q: nat, t: Time)
    ensures At(b, q, AfterYear(t)) <==>
      At(b, q, Digits(t.month, 2)) && At(b, q + 2, Digits(t.day, 2)) &&
      At(b, q + 4, Digits(t.hour, 2)) && At(b, q + 6, Digits(t.minute, 2)) &&
      At(b, q + 8, Digits(t.second, 2)) && At(b, q + 10, [ZULU])
  {
    AtConcat(b, q + 8, Digits(t.second, 2), [ZULU]);
    AtConcat(b, q + 6, Digits(t.minute, 2), Digits(t.second, 2) + [ZULU]);
    AtConcat(b, q + 4, Digits(t.hour, 2), Digits(t.minute, 2) + (Digits(t.second, 2) + [ZULU]));
    AtConcat(b, q + 2, Digits(t.day, 2), TimeOfDay(t));
    AtConcat(b, q, Digits(t.month, 2), Digits(t.day, 2) + TimeOfDay(t));
  }

  lemma TwoDigits(b: bytes, p: nat)
    requires p + 2 <= |b| && NumberAt(b, p, 2).Ok?
    ensures NumberAt(b, p, 2).value < 100 && At(b, p, Digits(NumberAt(b, p, 2).value, 2))
  {
    NumberSound(b, p, 2);
    assert Pow10(2) == 100;
  }

  lemma AfterYearSound(b: bytes, q: nat, general: bool, year: nat)
    requires q + 11 <= |b| && AfterYearAt(b, q, general, year).Ok? && year < Pow10(YearDigits(general))
    ensures var t := AfterYearAt(b, q, general, year).value;
      t.general == general && t.year == year && WellFormed(t) && At(b, q, AfterYear(t))
  {
    hide NumberAt, Digits, At, Calendar.Seconds, Calendar.Normalised, Calendar.Real;
    var t := AfterYearAt(b, q, general, year).value;
    TwoDigits(b, q);
    TwoDigits(b, q + 2);
    TwoDigits(b, q + 4);
    TwoDigits(b, q + 6);
    TwoDigits(b, q + 8);
    Calendar.UnchangedIffReal(Broken(t));
    AtOctet(b, q + 10, ZULU);
    AtAfterYear(b, q, t);
  }

  lemma BodySound(b: bytes, p: nat, general: bool)
    requires p + YearDigits(general) + 11 <= |b| && BodyAt(b, p, general).Ok?
    ensures var t := BodyAt(b, p, general).value;
      t.general == general && WellFormed(t) && At(b, p, Body(t))
  {
    hide NumberAt, Digits, At, AfterYearAt, AfterYear, WellFormed;
    var t := BodyAt(b, p, general).value;
    NumberSound(b, p, YearDigits(general));
    AfterYearSound(b, p + YearDigits(general), general, NumberAt(b, p, YearDigits(general)).value);
    AtConcat(b, p, Digits(t.year, YearDigits(general)), AfterYear(t));
  }

  lemma AfterYearComplete(b: bytes, q: nat, t: Time)
    requires WellFormed(t) && q + 11 <= |b| && At(b, q, AfterYear(t))
    ensures AfterYearAt(b, q, t.general, t.year) == Ok(t)
  {
    hide NumberAt, Digits, At, AfterYear, Unchanged, Calendar.Real;
    AtAfterYear(b, q, t);
    assert Pow10(2) == 100;
    NumberComplete(b, q, 2, t.month);
    NumberComplete(b, q + 2, 2, t.day);
    NumberComplete(b, q + 4, 2, t.hour);
    NumberComplete(b, q + 6, 2, t.minute);
    NumberComplete(b, q + 8, 2, t.second);
    AtOctet(b, q + 10, ZULU);
    UnchangedReal(t);
  }

  lemma UnchangedReal(t: Time)
    requires WellFormed(t)
    ensures Unchanged(Broken(t))
  {
    hide Calendar.Seconds, Calendar.Normalised, Calendar.Real;
    Calendar.UnchangedIffReal(Broken(t));
  }

  lemma BodyComplete(b: bytes, p: nat, t: Time)
    requires WellFormed(t) && At(b, p, Body(t))
    ensures p + YearDigits(t.general) + 11 <= |b| && BodyAt(b, p, t.general) == Ok(t)
  {
    hide NumberAt, Digits, AfterYearAt;
    AtConcat(b, p, Digits(t.year, YearDigits(t.general)), AfterYear(t));
    NumberComplete(b, p, YearDigits(t.general), t.year);
    AfterYearComplete(b, p + YearDigits(t.general), t);
  }

  lemma TimeSound(b: buffer, i: nat, e: nat)
    requires e <= |b| && TimeAt(b, i, e).Ok?
    ensures var (t, j) := TimeAt(b, i, e).value;
      WellFormed(t) && At(b, i, Encode(t)) && j == i + |Encode(t)|
  {
    var (t, j) := TimeAt(b, i, e).value;
    hide HeaderAt, BodyAt, WellFormed, Body, Tlv;
    HeaderSound(b, i, e);
    var h := HeaderAt(b, i, e).value;
    BodySound(b, h.start, t.general);
    assert b[h.start..h.end] == Body(t);
  }

  lemma TimeComplete(b: buffer, i: nat, e: nat, t: Time)
    requires e <= |b| && WellFormed(t) && At(b, i, Encode(t)) && i + |Encode(t)| <= e
    ensures TimeAt(b, i, e) == Ok((t, i + |Encode(t)|))
  {
    hide HeaderAt, BodyAt, WellFormed, Body, Tlv, At;
    HeaderComplete(b, i, e, if t.general then GENERALIZEDTIME else UTCTIME, Body(t));
    BodyComplete(b, i + |Encode(t)| - |Body(t)|, t);
  }

  // In octets: a UTCTime is read at i exactly if it stands there as 0x17, 13 and its twelve digits
  // and Z, a GeneralizedTime as 0x18, 15 and its fourteen digits and Z.
  lemma TimeOctets(b: buffer, i: nat, e: nat, t: Time)
    requires e <= |b|
    ensures var s := (if t.general then [0x18, 15] else [0x17, 13]) + Body(t);
      TimeAt(b, i, e) == Ok((t, i + |s|)) <==> WellFormed(t) && i + |s| <= e && At(b, i, s)
  {
    hide WellFormed, TimeAt, Body, At;
    assert Encode(t) == (if t.general then [0x18, 15] else [0x17, 13]) + Body(t);
    if TimeAt(b, i, e).Ok? { TimeSound(b, i, e); }
    if WellFormed(t) && At(b, i, Encode(t)) && i + |Encode(t)| <= e { TimeComplete(b, i, e, t); }
  }

  lemma DigitsWrittenOut(n: nat)
    ensures Digits(n, 2) == [48 + n / 10 % 10, 48 + n % 10]
    ensures Digits(n, 4) == [48 + n / 10 / 10 / 10 % 10, 48 + n / 10 / 10 % 10, 48 + n / 10 % 10, 48 + n % 10]
  {
    var (x, y) := (n / 10, n / 10 / 10);
    assert Digits(x, 1) == [48 + x % 10] && Digits(y, 1) == [48 + y % 10];
    assert Digits(y, 2) == [48 + y / 10 % 10, 48 + y % 10];
    assert Digits(x, 3) == [48 + y / 10 % 10, 48 + y % 10, 48 + x % 10];
  }

  lemma BodyWrittenOut(t: Time)
    ensures Body(t) == Digits(t.year, if t.general then 4 else 2) + Digits(t.month, 2) + Digits(t.day, 2)
      + Digits(t.hour, 2) + Digits(t.minute, 2) + Digits(t.second, 2) + [0x5a]
  {
    hide Digits;
  }

  // ---------------------------------------------------------------- what the timestamps mean

  // A UTCTime is accepted exactly when it names a date that exists in the window 1970-2049, and
  // its timestamp counts the seconds from the epoch to that date.
  lemma UtcTimeExact(t: Time)
    requires InRange(t) && !t.general
    ensures WellFormed(t) <==> Calendar.Real(Meant(t)) && MeantYear(t) >= 1970
    ensures WellFormed(t) ==> 1970 <= MeantYear(t) <= 2049 && Timestamp(t) == Calendar.Counted(Meant(t))
  {
    assert Pow10(2) == 100;
    if WellFormed(t) { Calendar.SecondsAreCounted(Meant(t)); }
  }

  // The promise is that an accepted time gets the timestamp of the date it names. It is kept
  // exactly by UTCTimes: every GeneralizedTime is placed 1900 years late.
  lemma TimestampIsMeantIffUtc(t: Time)
    requires WellFormed(t)
    ensures Timestamp(t) == Calendar.Seconds(Meant(t)) <==> !t.general
    ensures t.general ==> Timestamp(t) > Calendar.Seconds(Meant(t))
    ensures !t.general ==> Calendar.Real(Meant(t))
  {
    hide Calendar.Seconds;
    if t.general { Calendar.YearsLater(Meant(t), 1900); }
  }

  lemma EpochIsZero()
    ensures Timestamp(Time(false, 70, 1, 1, 0, 0, 0)) == 0
  {
    hide Calendar.Seconds;
    Calendar.SecondsAreCounted(Broken(Time(false, 70, 1, 1, 0, 0, 0)));
    assert Calendar.YearStart(1970) == 0 && Calendar.MonthStart(1970, 0) == 0;
  }

  // UTCTimes stand for 1950 to 2049, but those before 1970 are refused: 1969-12-31, for one.
  lemma UtcTimeBeforeEpochRefused()
    ensures var t := Time(false, 69, 12, 31, 23, 59, 59);
      InRange(t) && Calendar.Real(Meant(t)) && MeantYear(t) == 1969 && !WellFormed(t)
  {
    assert Pow10(2) == 100;
  }

  // 2050-01-01T00:00:00Z, the first time RFC 5280 wants as a GeneralizedTime, is read as 3950.
  lemma GeneralizedTimeIsLate()
    ensures var t := Time(true, 2050, 1, 1, 0, 0, 0);
      WellFormed(t) && Calendar.Counted(Meant(t)) == 2524608000 && Timestamp(t) == 62482752000
  {
    hide Calendar.YearStart;
    assert Pow10(4) == 10000;
    Calendar.ClosedForm(2050);
  }

  // Whether a GeneralizedTime is accepted, against whether the date it names exists and is not
  // before the epoch. The two differ for the years 70 to 1969, which are moved past the epoch,
  // and on a 29th of February when the year and the year 1900 later are not both leap years.
  lemma GeneralizedTimeAcceptance(t: Time)
    requires InRange(t) && t.general
    ensures var intended := Calendar.Real(Meant(t)) && t.year >= 1970;
      var plausible := Calendar.Real(Broken(t).(year := 100));
      (WellFormed(t) <==> intended) <==>
        if t.year < 70 || !plausible then true
        else if t.month == 2 && t.day == 29 then
          Calendar.Leap(t.year + 1900) == (t.year >= 1970 && Calendar.Leap(t.year))
        else t.year >= 1970
  {}

  // 2100-02-29 does not exist but is accepted, 2400-02-29 exists but is refused.
  lemma LeapDaysMistaken()
    ensures var (t, u) := (Time(true, 2100, 2, 29, 0, 0, 0), Time(true, 2400, 2, 29, 0, 0, 0));
      && WellFormed(t) && !Calendar.Real(Meant(t))
      && InRange(u) && Calendar.Real(Meant(u)) && !WellFormed(u)
  {
    assert Pow10(2) == 100 && Pow10(4) == 10000;
  }

  // Accepted times are ordered by their timestamps as the source's calendar orders them.
  lemma TimestampsOrdered(t: Time, u: Time)
    requires WellFormed(t) && WellFormed(u)
    ensures Timestamp(t) < Timestamp(u) <==> Calendar.Before(Broken(t), Broken(u))
    ensures Timestamp(t) == Timestamp(u) <==> Broken(t) == Broken(u)
    ensures Timestamp(t) >= 0
  {
    Calendar.OrderIsCalendarOrder(Broken(t), Broken(u));
    Calendar.SecondsAreCounted(Broken(t));
  }

  // The date t names, 1900 years earlier.
  function Back(t: Time): Calendar.Tm {
    Meant(t).(year := Meant(t).year - 1900)
  }

  // The promise is that timestamps are ordered as the dates named. Two times of one form are. A
  // UTCTime and a GeneralizedTime are not exactly when the date the latter names lies in the 1900
  // years before the date the former names.
  lemma TimestampsOrderedAsNamed(t: Time, u: Time)
    requires WellFormed(t) && WellFormed(u)
    ensures (Timestamp(t) < Timestamp(u) <==> Calendar.Before(Meant(t), Meant(u))) <==>
      if t.general == u.general then true
      else if u.general then Calendar.Before(Meant(t), Meant(u)) || !Calendar.Before(Back(t), Meant(u))
      else !Calendar.Before(Meant(t), Meant(u)) || Calendar.Before(Meant(t), Back(u))
  {
    hide Calendar.Real, Timestamp;
    TimestampsOrdered(t, u);
  }

  // The promise is that a certificate is valid between the dates it names. Before the first it is
  // not; a general notBefore holds it back further, which is right only after notAfter; otherwise
  // only a general notAfter is wrong, from its date to its timestamp.
  lemma WindowAsNamed(notBefore: Time, notAfter: Time, now: int)
    requires WellFormed(notBefore) && WellFormed(notAfter)
    ensures var (from, to) := (Calendar.Seconds(Meant(notBefore)), Calendar.Seconds(Meant(notAfter)));
      (Timestamp(notBefore) <= now <= Timestamp(notAfter) <==> from <= now <= to) <==>
        if now < from then true
        else if notBefore.general && now < Timestamp(notBefore) then now > to
        else !(notAfter.general && to < now <= Timestamp(notAfter))
  {
    hide Timestamp, Calendar.Seconds;
    TimestampIsMeantIffUtc(notBefore);
    TimestampIsMeantIffUtc(notAfter);
  }

  // A certificate that names 2050-01-01 to 2060-01-01 is not valid at the start of 2055, which is
  // 1900 years too early for it, but at the start of 3955.
  lemma WindowIsLate()
    ensures var (t, u) := (Time(true, 2050, 1, 1, 0, 0, 0), Time(true, 2060, 1, 1, 0, 0, 0));
      && WellFormed(t) && WellFormed(u)
      && !(Timestamp(t) <= Calendar.Seconds(Calendar.Tm(2055 - 1900, 0, 1, 0, 0, 0)) <= Timestamp(u))
      && Timestamp(t) <= Calendar.Seconds(Calendar.Tm(3955 - 1900, 0, 1, 0, 0, 0)) <= Timestamp(u)
  {
    hide Calendar.Seconds;
    assert Pow10(2) == 100 && Pow10(4) == 10000;
    var (t, u) := (Time(true, 2050, 1, 1, 0, 0, 0), Time(true, 2060, 1, 1, 0, 0, 0));
    Calendar.OrderIsCalendarOrder(Calendar.Tm(2055 - 1900, 0, 1, 0, 0, 0), Broken(t));
    Calendar.OrderIsCalendarOrder(Calendar.Tm(3955 - 1900, 0, 1, 0, 0, 0), Broken(t));
    Calendar.OrderIsCalendarOrder(Calendar.Tm(3955 - 1900, 0, 1, 0, 0, 0), Broken(u));
  }

  // If GeneralizedTimes are only used from 2050 on, as RFC 5280 wants, the order is right.
  lemma TimestampsOrderedFrom2050(t: Time, u: Time)
    requires WellFormed(t) && WellFormed(u) && (t.general ==> t.year >= 2050) && (u.general ==> u.year >= 2050)
    ensures Timestamp(t) < Timestamp(u) <==> Calendar.Before(Meant(t), Meant(u))
  {
    hide Timestamp;
    if !t.general { UtcTimeExact(t); }
    if !u.general { UtcTimeExact(u); }
    TimestampsOrderedAsNamed(t, u);
  }

  // The UTCTime 2049-01-01 and the GeneralizedTime 1970-01-01: the later date gets the smaller
  // timestamp.
  lemma MixedFormsOutOfOrder()
    ensures var (t, u) := (Time(false, 49, 1, 1, 0, 0, 0), Time(true, 1970, 1, 1, 0, 0, 0));
      && WellFormed(t) && WellFormed(u)
      && Calendar.Before(Meant(u), Meant(t)) && Timestamp(t) < Timestamp(u)
  {
    hide Timestamp;
    assert Pow10(2) == 100 && Pow10(4) == 10000;
    TimestampsOrdered(Time(false, 49, 1, 1, 0, 0, 0), Time(true, 1970, 1, 1, 0, 0, 0));
  }

  // A timestamp fits in 64 bits many times over.
  lemma TimestampFits(t: Time)
    requires WellFormed(t)
    ensures 0 <= Timestamp(t) < TWO_TO_THE_63
  {
    hide Calendar.MonthStart, Calendar.YearStart;
    Calendar.SecondsAreCounted(Broken(t));
    Calendar.SecondsOfReal(Broken(t));
    assert Pow10(4) == 10000 && Pow10(2) == 100;
    assert Calendar.Day(Broken(t)) < 400 * 12000;
  }

  // ---------------------------------------------------------------- the parser itself

  // Adds one digit, scaled, to a field of the struct tm.
  method ConvertNum(c: Cursor, n: int, m: int) returns (r: Result<int>)
    requires c.idx < |c.raw|
    modifies c
    ensures match NumberAt(c.raw, old(c.idx), 1)
      case Ok(digit) => r == Ok(n + digit * m) && c.idx == old(c.idx) + 1
      case Err(code) => r == Err(code)
  {
    var ch := c.raw[c.idx];
    assert NumberAt(c.raw, c.idx, 0) == Ok(0);
    if ch < 48 || ch > 57 {
      return Err(InvalidValidityTime);
    }
    c.idx := c.idx + 1;
    return Ok(n + (ch - 48) * m);
  }

  lemma {:induction false} DigitByDigit(b: bytes, p: nat, k: nat)
    requires p + k <= |b| && k > 0
    ensures NumberAt(b, p, k) ==
      match NumberAt(b, p, k - 1)
      case Err(code) => Err(code)
      case Ok(n) => match NumberAt(b, p + k - 1, 1)
        case Err(code) => Err(code)
        case Ok(digit) => Ok(10 * n + digit)
  {
    assert NumberAt(b, p + k - 1, 0) == Ok(0);
  }

  method Convert2Digit(c: Cursor) returns (r: Result<int>)
    requires c.idx + 2 <= |c.raw|
    modifies c
    ensures r == NumberAt(c.raw, old(c.idx), 2)
    ensures r.Ok? ==> c.idx == old(c.idx) + 2
  {
    hide NumberAt;
    DigitByDigit(c.raw, c.idx, 2);
    var n :- ConvertNum(c, 0, 10);
    r := ConvertNum(c, n, 1);
  }

  method ConvertYear(c: Cursor) returns (r: Result<int>)
    requires c.idx + 4 <= |c.raw|
    modifies c
    ensures r == NumberAt(c.raw, old(c.idx), 4)
    ensures r.Ok? ==> c.idx == old(c.idx) + 4
  {
    hide NumberAt;
    DigitByDigit(c.raw, c.idx, 4);
    DigitByDigit(c.raw, c.idx, 3);
    DigitByDigit(c.raw, c.idx, 2);
    var n :- ConvertNum(c, 0, 1000);
    n :- ConvertNum(c, n, 100);
    n :- ConvertNum(c, n, 10);
    r := ConvertNum(c, n, 1);
  }

  // A date passes exactly if it exists and is not before 1970; the result counts its seconds.
  method CheckDate(utc: Calendar.Tm) returns (r: Result<int>)
    ensures r.Ok? <==> Calendar.Real(utc) && utc.year >= 70
    ensures match r
      case Ok(ts) => ts == Calendar.Counted(utc)
      case Err(code) => code == InvalidValidityTime
  {
    hide Calendar.Seconds, Calendar.Normalised;
    Calendar.UnchangedIffReal(utc);
    if Calendar.Real(utc) && utc.year >= 70 { Calendar.SecondsAreCounted(utc); }
    var ts := Calendar.Seconds(utc);
    if ts < 0 || Calendar.Normalised(ts) != utc {
      return Err(InvalidValidityTime);
    }
    return Ok(ts);
  }

  // Everything after the year, up to and including the check of the date.
  method ParseAfterYear(c: Cursor, ghost general: bool, ghost written: nat, year: int) returns (r: Result<int>)
    requires c.idx + 11 <= |c.raw|
    requires year == if !general && written < 50 then written + 100 else written
    modifies c
    ensures match AfterYearAt(c.raw, old(c.idx), general, written)
      case Ok(t) => r == Ok(Timestamp(t))
      case Err(code) => r == Err(code)
  {
    hide NumberAt, Calendar.Seconds, Calendar.Normalised, Calendar.Real;
    var utc := Calendar.Tm(year, 0, 0, 0, 0, 0);
    var mon :- Convert2Digit(c);
    var mday :- Convert2Digit(c);
    var hour :- Convert2Digit(c);
    var min :- Convert2Digit(c);
    var sec :- Convert2Digit(c);
    if c.raw[c.idx] != ZULU {
      return Err(InvalidValidityTime);
    }
    utc := utc.(mon := mon - 1, mday := mday, hour := hour, min := min, sec := sec);
    Calendar.UnchangedIffReal(utc);
    if Calendar.Real(utc) && utc.year >= 70 { Calendar.SecondsAreCounted(utc); }
    r := CheckDate(utc);
  }

  method ParseTime(c: Cursor, parentEnd: uint64) returns (r: Result<int>)
    requires c.idx <= parentEnd <= |c.raw|
    modifies c
    ensures match TimeAt(c.raw, old(c.idx), parentEnd)
      case Ok((t, j)) => r == Ok(Timestamp(t)) && c.idx == j
      case Err(code) => r == Err(code)
  {
    hide HeaderAt, NumberAt, AfterYearAt, Timestamp;
    var tsEnd :- c.ParseOptionalData(UTCTIME, parentEnd, IDX_NONE);
    var ts: int;
    if tsEnd != IDX_NONE {
      var end: uint64 := c.idx + 13;
      if end != tsEnd {
        return Err(InvalidValidityTime);
      }
      var year :- Convert2Digit(c);
      ts :- ParseAfterYear(c, false, year, year + if year < 50 then 100 else 0);
    } else {
      tsEnd :- c.ParseDataElement(GENERALIZEDTIME, parentEnd);
      var end: uint64 := c.idx + 15;
      if end != tsEnd {
        return Err(InvalidValidityTime);
      }
      var year :- ConvertYear(c);
      ts :- ParseAfterYear(c, true, year, year);
    }
    c.idx := tsEnd;
    return Ok(ts);
  }
}
