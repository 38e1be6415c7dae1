/** Seconds since the epoch and broken-down UTC time. */
module EpochTime {
  import opened Calendar
  import opened Flattening

  const SECONDS_PER_DAY := 86400

  datatype DateTime = DateTime(date: Date, hour: int, minute: int, second: int)

  predicate ValidTime(dt: DateTime) {
    ValidDate(dt.date) && InEra(dt.date) && 0 <= dt.hour < 24 && 0 <= dt.minute < 60 && 0 <= dt.second < 60
  }

  const JULIAN_DAY_OF_1970 := 2440588

  lemma EpochDay()
    ensures JulianDayNumber(Date(1970, 1, 1)) == JULIAN_DAY_OF_1970
  {
  }

  /** Hours, minutes and seconds of a second in the day. */
  function FillHMS(seconds: int): (r: (int, int, int)) {
    var minutes := Quot(seconds, 60);
    var hour := Quot(minutes, 60);
    (hour, minutes - hour * 60, seconds - minutes * 60)
  }

  /** Broken-down time. Division rounds towards zero, so a negative rest is put right. */
  function BreakTime(time: int): (r: DateTime) {
    BreakWith(GetYMD, time)
  }

  /** The same over any way to read a date off a day number. */
  function BreakWith(dateOf: int -> Date, time: int): (r: DateTime) {
    var rest := Rem(time, SECONDS_PER_DAY);
    var seconds := if rest < 0 then rest + SECONDS_PER_DAY else rest;
    var days := Quot(time, SECONDS_PER_DAY) - (if rest < 0 then 1 else 0);
    var hms := FillHMS(seconds);
    DateTime(dateOf(days + JULIAN_DAY_OF_1970), hms.0, hms.1, hms.2)
  }

  function SecondsInDay(dt: DateTime): (r: int) {
    dt.hour * 3600 + dt.minute * 60 + dt.second
  }

  function Days(dt: DateTime): (r: int) {
    JulianDayNumber(dt.date) - JULIAN_DAY_OF_1970
  }

  /** The seconds a broken-down time stands for, in unbounded arithmetic. */
  function EpochSeconds(dt: DateTime): (r: int) {
    Days(dt) * SECONDS_PER_DAY + SecondsInDay(dt)
  }

  /** `FromUtcTime`: the day and second arithmetic is done in 32 bits; none on overflow. */
  function FromUtcTime(dt: DateTime): (r: Option<int>) {
    var days := Days(dt) * SECONDS_PER_DAY;
    if Int32(days) && Int32(days + SecondsInDay(dt)) then Some(days + SecondsInDay(dt)) else None
  }

  /** `BreakTime` with its 32-bit days: none on overflow. */
  function BreakTime32(time: int): (r: Option<DateTime>) {
    var rest := Rem(time, SECONDS_PER_DAY);
    var days := Quot(time, SECONDS_PER_DAY) - (if rest < 0 then 1 else 0);
    if Int32(Quot(time, SECONDS_PER_DAY)) && Int32(days) && Int32(days + JULIAN_DAY_OF_1970)
       && GetYMD32(days + JULIAN_DAY_OF_1970).Some? then Some(BreakTime(time))
    else None
  }

  /** The days since the epoch, rounded down, and the second in the day, for any time. */
  lemma Floor(time: int, days: int, seconds: int)
    requires 0 <= seconds < SECONDS_PER_DAY && time == days * SECONDS_PER_DAY + seconds
    ensures var rest := Rem(time, SECONDS_PER_DAY);
            && (if rest < 0 then rest + SECONDS_PER_DAY else rest) == seconds
            && Quot(time, SECONDS_PER_DAY) - (if rest < 0 then 1 else 0) == days
  {
    if time >= 0 {
      assert time / SECONDS_PER_DAY == days;
    } else if seconds == 0 {
      assert -time / SECONDS_PER_DAY == -days;
    } else {
      assert -time == (-days - 1) * SECONDS_PER_DAY + (SECONDS_PER_DAY - seconds);
      assert -time / SECONDS_PER_DAY == -days - 1;
    }
  }

  lemma SecondsBack(date: Date, seconds: int)
    requires 0 <= seconds < SECONDS_PER_DAY
    ensures var hms := FillHMS(seconds);
            && 0 <= hms.0 < 24 && 0 <= hms.1 < 60 && 0 <= hms.2 < 60
            && SecondsInDay(DateTime(date, hms.0, hms.1, hms.2)) == seconds
  {
  }

  lemma HmsBack(hour: int, minute: int, second: int)
    requires 0 <= hour < 24 && 0 <= minute < 60 && 0 <= second < 60
    ensures FillHMS(hour * 3600 + minute * 60 + second) == (hour, minute, second)
  {
    var minutes := hour * 60 + minute;
    assert (minutes * 60 + second) / 60 == minutes;
    assert minutes / 60 == hour;
  }

  lemma BreakParts(dateOf: int -> Date, time: int, days: int, seconds: int)
    requires 0 <= seconds < SECONDS_PER_DAY && time == days * SECONDS_PER_DAY + seconds
    ensures var hms := FillHMS(seconds);
            BreakWith(dateOf, time) == DateTime(dateOf(days + JULIAN_DAY_OF_1970), hms.0, hms.1, hms.2)
  {
    Floor(time, days, seconds);
  }

  lemma TimeBack(dt: DateTime)
    requires 0 <= dt.hour < 24 && 0 <= dt.minute < 60 && 0 <= dt.second < 60
    ensures 0 <= SecondsInDay(dt) < SECONDS_PER_DAY && FillHMS(SecondsInDay(dt)) == (dt.hour, dt.minute, dt.second)
  {
    HmsBack(dt.hour, dt.minute, dt.second);
  }

  const FIRST_TIME := (-32044 - 2440588) * SECONDS_PER_DAY

  /** Every time from the first day of the era on, negative ones included, breaks down to a valid
      time and comes back from it. */
  lemma TimeRoundTrip(time: int)
    requires time >= FIRST_TIME
    ensures ValidTime(BreakTime(time)) && EpochSeconds(BreakTime(time)) == time
  {
    var days, seconds := time / SECONDS_PER_DAY, time % SECONDS_PER_DAY;
    BreakParts(GetYMD, time, days, seconds);
    SecondsBack(GetYMD(days + JULIAN_DAY_OF_1970), seconds);
    DayRoundTrip(days + JULIAN_DAY_OF_1970);
  }

  /** Every valid broken-down time comes back from its seconds. */
  lemma BrokenRoundTrip(dt: DateTime)
    requires ValidTime(dt)
    ensures EpochSeconds(dt) >= FIRST_TIME && BreakTime(EpochSeconds(dt)) == dt
  {
    DateRoundTrip(dt.date);
    TimeBack(dt);
    BreakParts(GetYMD, EpochSeconds(dt), Days(dt), SecondsInDay(dt));
  }

  /** The 32-bit arithmetic holds exactly for results from the start of day -24855 to the last
      second a signed 32-bit number can count. */
  lemma FromUtcTimeRange(dt: DateTime)
    requires ValidTime(dt)
    ensures FromUtcTime(dt).Some? <==> -24855 * SECONDS_PER_DAY <= EpochSeconds(dt) <= 0x7fff_ffff
    ensures FromUtcTime(dt).Some? ==> FromUtcTime(dt).value == EpochSeconds(dt)
  {
    assert 0 <= SecondsInDay(dt) < SECONDS_PER_DAY;
    OverflowBound(Days(dt), SecondsInDay(dt));
  }

  lemma OverflowBound(days: int, seconds: int)
    requires 0 <= seconds < SECONDS_PER_DAY
    ensures Int32(days * SECONDS_PER_DAY) && Int32(days * SECONDS_PER_DAY + seconds)
       <==> -24855 * SECONDS_PER_DAY <= days * SECONDS_PER_DAY + seconds <= 0x7fff_ffff
  {
  }

  /** A time is broken down without overflow if and only if its day is not past `LAST_DAY`. */
  lemma BreakTimeRange(time: int)
    requires time >= FIRST_TIME
    ensures BreakTime32(time) ==
            if time < (LAST_DAY - JULIAN_DAY_OF_1970 + 1) * SECONDS_PER_DAY then Some(BreakTime(time)) else None
  {
    var days, seconds := time / SECONDS_PER_DAY, time % SECONDS_PER_DAY;
    Floor(time, days, seconds);
    DateFits(days + JULIAN_DAY_OF_1970);
  }

  /** One second past that range, early in 2038. */
  lemma FromUtcTimeOverflows()
    ensures var dt := DateTime(Date(2038, 1, 19), 3, 14, 8);
            ValidTime(dt) && EpochSeconds(dt) == 0x8000_0000 && FromUtcTime(dt) == None
  {
  }

  // "Seconds Since the Epoch", section 4.16 of the Base Definitions of POSIX.1-2017.

  function DaysBefore(year: int, month: int): (r: int)
    decreases month
  {
    if month <= 1 then 0 else DaysBefore(year, month - 1) + MonthLength(year, month - 1)
  }

  function PosixSeconds(dt: DateTime): (r: int)
    requires dt.date.year >= 1970
  {
    var year := dt.date.year - 1900;
    var yday := DaysBefore(dt.date.year, dt.date.month) + dt.date.day - 1;
    dt.second + dt.minute * 60 + dt.hour * 3600 + yday * 86400 + (year - 70) * 31536000
    + ((year - 69) / 4) * 86400 - ((year - 1) / 100) * 86400 + ((year + 299) / 400) * 86400
  }

  lemma JanuaryFirst(year: int)
    requires year >= 1970
    ensures JulianDayNumber(Date(year, 1, 1)) - 2440588
         == (year - 1970) * 365 + (year - 1969) / 4 - (year - 1901) / 100 + (year - 1601) / 400
  {
    JdnParts(Date(year, 1, 1), year + 4799, 10);
    assert (year + 4799) / 4 == (year - 1969) / 4 + 1692;
    assert (year + 4799) / 100 == (year - 1901) / 100 + 67;
    assert (year + 4799) / 400 == (year - 1601) / 400 + 16;
  }

  lemma {:induction false} MonthFirst(year: int, month: int)
    requires year >= 1970 && 1 <= month <= 12
    ensures JulianDayNumber(Date(year, month, 1)) == JulianDayNumber(Date(year, 1, 1)) + DaysBefore(year, month)
    decreases month
  {
    if month > 1 {
      MonthFirst(year, month - 1);
      var last := Date(year, month - 1, MonthLength(year, month - 1));
      TomorrowIsNext(last);
      LaterInMonth(last);
    }
  }

  lemma LaterInMonth(date: Date)
    ensures JulianDayNumber(date) == JulianDayNumber(date.(day := 1)) + date.day - 1
  {
  }

  /** From 1970 on the seconds are those of the POSIX formula, as far as 32 bits hold them. */
  lemma FromUtcTimeIsPosix(dt: DateTime)
    requires ValidTime(dt) && dt.date.year >= 1970
    ensures FromUtcTime(dt) == if PosixSeconds(dt) <= 0x7fff_ffff then Some(PosixSeconds(dt)) else None
  {
    SecondsArePosix(dt);
    FromUtcTimeRange(dt);
    PosixFromZero(dt);
  }

  lemma {:induction false} DaysBeforeFromZero(year: int, month: int)
    ensures DaysBefore(year, month) >= 0
    decreases month
  {
    if month > 1 {
      DaysBeforeFromZero(year, month - 1);
    }
  }

  lemma PosixFromZero(dt: DateTime)
    requires ValidTime(dt) && dt.date.year >= 1970
    ensures PosixSeconds(dt) >= 0
  {
    DaysBeforeFromZero(dt.date.year, dt.date.month);
    var y := dt.date.year - 1970;
    assert 0 <= (y + 1) / 4 && (y + 69) / 100 <= y && 0 <= (y + 369) / 400;
  }

  lemma SecondsArePosix(dt: DateTime)
    requires ValidTime(dt) && dt.date.year >= 1970
    ensures EpochSeconds(dt) == PosixSeconds(dt)
  {
    LaterInMonth(dt.date);
    MonthFirst(dt.date.year, dt.date.month);
    JanuaryFirst(dt.date.year);
  }
}
