/** Julian day numbers and Gregorian dates. */
module Calendar {
  import opened Flattening

  /** Division as C++ does it: towards zero. */
  function Quot(a: int, b: int): (r: int)
    requires b > 0
  {
    if a >= 0 then a / b else -(-a / b)
  }

  function Rem(a: int, b: int): (r: int)
    requires b > 0
  {
    a - Quot(a, b) * b
  }

  datatype Date = Date(year: int, month: int, day: int)

  function JulianDayNumber(date: Date): (r: int) {
    var a := Quot(14 - date.month, 12);
    var y := date.year + 4800 - a;
    var m := date.month + 12 * a - 3;
    date.day + Quot(153 * m + 2, 5) + y * 365 + Quot(y, 4) - Quot(y, 100) + Quot(y, 400) - 32045
  }

  function GetYMD(jdn: int): (r: Date) {
    var a := jdn + 32044;
    var b := Quot(4 * a + 3, 146097);
    var c := a - Quot(b * 146097, 4);
    var d := Quot(4 * c + 3, 1461);
    var e := c - Quot(1461 * d, 4);
    var m := Quot(5 * e + 2, 153);
    Date(b * 100 + d - 4800 + Quot(m, 10), m + 3 - 12 * Quot(m, 10), e - Quot(153 * m + 2, 5) + 1)
  }

  // The calendar itself, independent of day numbers.

  predicate Leap(year: int) {
    year % 4 == 0 && (year % 100 != 0 || year % 400 == 0)
  }

  function MonthLength(year: int, month: int): (r: int) {
    if month == 2 then (if Leap(year) then 29 else 28)
    else if month == 4 || month == 6 || month == 9 || month == 11 then 30
    else 31
  }

  predicate ValidDate(date: Date) {
    1 <= date.month <= 12 && 1 <= date.day <= MonthLength(date.year, date.month)
  }

  function Tomorrow(date: Date): (r: Date) {
    if date.day < MonthLength(date.year, date.month) then date.(day := date.day + 1)
    else if date.month < 12 then Date(date.year, date.month + 1, 1)
    else Date(date.year + 1, 1, 1)
  }

  /** From the first of March of the year -4800 on, all the arithmetic stays non-negative. */
  predicate InEra(date: Date) {
    date.year > -4800 || (date.year == -4800 && date.month >= 3)
  }

  // Days counted from the first of March: whole centuries, years in a century, days in a year.

  function CenturyDays(b: int): (r: int) { b * 146097 / 4 }

  function YearDays(d: int): (r: int) { 1461 * d / 4 }

  function MonthDays(m: int): (r: int) { (153 * m + 2) / 5 }

  lemma YearQuotients(b: int, d: int)
    requires 0 <= b && 0 <= d < 100
    ensures var y := 100 * b + d; y / 100 == b && y / 4 == 25 * b + d / 4 && y / 400 == b / 4
  {
  }

  lemma CenturySplit(b: int)
    ensures CenturyDays(b) == 36524 * b + b / 4
  {
  }

  lemma YearsSplit(d: int)
    ensures YearDays(d) == 365 * d + d / 4
  {
  }

  lemma YearSplit(b: int, d: int)
    requires 0 <= b && 0 <= d < 100
    ensures var y := 100 * b + d; y * 365 + y / 4 - y / 100 + y / 400 == CenturyDays(b) + YearDays(d)
  {
    YearQuotients(b, d);
    CenturySplit(b);
    YearsSplit(d);
  }

  /** A March-based date: century, year in it, month from March and day, all counted from 0. */
  datatype Shifted = Shifted(b: int, d: int, m: int, k: int) {
    predicate Ok() {
      0 <= b && 0 <= d < 100 && 0 <= m < 12 && 0 <= k < Length()
    }

    function Length(): (r: int) {
      MonthLength(100 * b + d + (if m >= 10 then 1 else 0), if m >= 10 then m - 9 else m + 3)
    }

    function Number(): (r: int) {
      CenturyDays(b) + YearDays(d) + MonthDays(m) + k - 32044
    }

    function ToDate(): (r: Date) {
      Date(100 * b + d - 4800 + (if m >= 10 then 1 else 0), if m >= 10 then m - 9 else m + 3, k + 1)
    }
  }

  function Shift(date: Date): (r: Shifted) {
    var y := date.year + 4800 - (if date.month <= 2 then 1 else 0);
    Shifted(y / 100, y % 100, if date.month <= 2 then date.month + 9 else date.month - 3, date.day - 1)
  }

  lemma Cycle4(y: int)
    ensures (y - 4800) % 4 == y % 4
  {
  }

  lemma Cycle100(y: int)
    ensures (y - 4800) % 100 == y % 100
  {
  }

  lemma Cycle400(y: int)
    ensures (y - 4800) % 400 == y % 400
  {
  }

  /** 4800 years are whole cycles of the calendar. */
  lemma LeapCycle(y: int)
    ensures Leap(y - 4800) <==> Leap(y)
  {
    Cycle4(y);
    Cycle100(y);
    Cycle400(y);
  }

  lemma InCentury(b: int, d: int)
    requires 0 <= d < 100
    ensures (100 * b + d) / 100 == b && (100 * b + d) % 100 == d
  {
  }

  lemma ShiftBack(date: Date)
    requires ValidDate(date) && InEra(date)
    ensures Shift(date).Ok() && Shift(date).ToDate() == date
  {
    LeapCycle(date.year + 4800);
  }

  lemma ShiftForth(s: Shifted)
    requires s.Ok()
    ensures ValidDate(s.ToDate()) && InEra(s.ToDate()) && Shift(s.ToDate()) == s
  {
    LeapCycle(s.ToDate().year + 4800);
    InCentury(s.b, s.d);
  }

  lemma NumberOf(date: Date)
    requires ValidDate(date) && InEra(date)
    ensures JulianDayNumber(date) == Shift(date).Number()
  {
    var s := Shift(date);
    JdnParts(date, 100 * s.b + s.d, s.m);
    YearSplit(s.b, s.d);
  }

  lemma CenturyIn(a: int, b: int)
    requires a >= 0 && b == (4 * a + 3) / 146097
    ensures b >= 0 && 0 <= a - CenturyDays(b) <= if b % 4 == 3 then 36524 else 36523
  {
  }

  lemma YearIn(c: int, d: int)
    requires 0 <= c <= 36524 && d == (4 * c + 3) / 1461
    ensures 0 <= d < 100 && 0 <= c - YearDays(d) <= if d % 4 == 3 then 365 else 364
    ensures d == 99 && c < 36524 ==> c - YearDays(d) <= 364
  {
  }

  lemma MonthIn(e: int, m: int)
    requires 0 <= e <= 365 && m == (5 * e + 2) / 153
    ensures 0 <= m < 12 && 0 <= e - MonthDays(m)
    ensures m < 11 ==> e - MonthDays(m) < (if m == 1 || m == 3 || m == 6 || m == 8 then 30 else 31)
    ensures m == 11 ==> e - MonthDays(m) < (if e == 365 then 29 else 28)
  {
  }

  /** Century, day in it, year, day in that and month of a day, each within its range. */
  lemma Pieces(a: int) returns (b: int, c: int, d: int, e: int, m: int)
    requires a >= 0
    ensures b == (4 * a + 3) / 146097 && c == a - CenturyDays(b) && b >= 0 && c >= 0
    ensures d == (4 * c + 3) / 1461 && e == c - YearDays(d) && 0 <= d < 100 && 0 <= e <= 365
    ensures m == (5 * e + 2) / 153 && 0 <= m < 12 && 0 <= e - MonthDays(m)
    ensures e - MonthDays(m) < Shifted(b, d, m, 0).Length()
  {
    b := (4 * a + 3) / 146097;
    CenturyIn(a, b);
    c := a - CenturyDays(b);
    d := (4 * c + 3) / 1461;
    YearIn(c, d);
    e := c - YearDays(d);
    m := (5 * e + 2) / 153;
    MonthIn(e, m);
    Lengths(Shifted(b, d, m, 0));
    if e == 365 {
      LeapAfter(b, d);
    }
  }

  lemma Lengths(s: Shifted)
    requires 0 <= s.m < 12
    ensures s.Length() == if s.m == 11 then (if Leap(100 * s.b + s.d + 1) then 29 else 28)
                          else if s.m == 1 || s.m == 3 || s.m == 6 || s.m == 8 then 30 else 31
  {
  }

  lemma MonthQuots(m: int)
    requires 0 <= m < 12
    ensures Quot(m, 10) == (if m >= 10 then 1 else 0) && Quot(153 * m + 2, 5) == MonthDays(m)
  {
  }

  lemma Decoded(jdn: int, b: int, c: int, d: int, e: int, m: int)
    requires jdn >= -32044 && b >= 0 && c >= 0 && d >= 0 && e >= 0 && 0 <= m < 12
    requires b == Quot(4 * (jdn + 32044) + 3, 146097) && c == jdn + 32044 - Quot(b * 146097, 4)
    requires d == Quot(4 * c + 3, 1461) && e == c - Quot(1461 * d, 4) && m == Quot(5 * e + 2, 153)
    ensures GetYMD(jdn) == Shifted(b, d, m, e - MonthDays(m)).ToDate()
  {
    MonthQuots(m);
  }

  /** A March-based year has 366 days when it ends in the February of a leap year. */
  lemma LeapAfter(b: int, d: int)
    requires 0 <= b && 0 <= d < 100
    ensures Leap(100 * b + d + 1) <==> d % 4 == 3 && (d == 99 ==> b % 4 == 3)
  {
    InFourYears(b, d + 1);
    if d == 99 {
      HundredYears(b + 1);
    } else {
      InCentury(b, d + 1);
    }
  }

  lemma Remainder4(x: int, q: int, r: int)
    requires x == 4 * q + r && 0 <= r < 4
    ensures x % 4 == r
  {
  }

  lemma InFourYears(b: int, d: int)
    ensures (100 * b + d) % 4 == d % 4
  {
    Remainder4(100 * b + d, 25 * b + d / 4, d % 4);
  }

  lemma HundredYears(b: int)
    ensures (100 * b) % 100 == 0 && (100 * b) % 400 == 100 * (b % 4)
  {
    var q, r := b / 4, b % 4;
    assert 100 * b == 400 * q + 100 * r;
  }

  /** What a day number decodes to is a valid March-based date with that number. */
  lemma DecodeNumber(jdn: int) returns (s: Shifted)
    requires jdn >= -32044
    ensures s.Ok() && s.Number() == jdn && GetYMD(jdn) == s.ToDate()
  {
    var b, c, d, e, m := Pieces(jdn + 32044);
    s := Shifted(b, d, m, e - MonthDays(m));
    Decoded(jdn, b, c, d, e, m);
  }

  /** A March-based date is what its day number decodes to. */
  lemma DecodeShifted(s: Shifted)
    requires s.Ok()
    ensures s.Number() >= -32044 && GetYMD(s.Number()) == s.ToDate()
  {
    var e := MonthDays(s.m) + s.k;
    var c := YearDays(s.d) + e;
    MonthOf(s);
    YearOf(s.b, s.d, e);
    CenturyOf(s.b, c);
    Decoded(s.Number(), s.b, c, s.d, e, s.m);
  }

  lemma MonthOf(s: Shifted)
    requires s.Ok()
    ensures var e := MonthDays(s.m) + s.k; 0 <= e && (5 * e + 2) / 153 == s.m
    ensures MonthDays(s.m) + s.k <= if Leap(100 * s.b + s.d + 1) then 365 else 364
  {
  }

  lemma YearOf(b: int, d: int, e: int)
    requires 0 <= b && 0 <= d < 100 && 0 <= e <= if Leap(100 * b + d + 1) then 365 else 364
    ensures var c := YearDays(d) + e; (4 * c + 3) / 1461 == d && 0 <= c <= if b % 4 == 3 then 36524 else 36523
  {
    LeapAfter(b, d);
    YearQuot(d, e);
  }

  lemma YearQuot(d: int, e: int)
    requires 0 <= d < 100 && 0 <= e <= if d % 4 == 3 then 365 else 364
    ensures var c := YearDays(d) + e; (4 * c + 3) / 1461 == d && 0 <= c <= 36159 + e && (d < 99 ==> c <= 36159)
  {
    var c := YearDays(d) + e;
    assert 1461 * d - 4 * YearDays(d) == d % 4;
    assert 1461 * d <= 4 * c + 3 < 1461 * (d + 1);
  }

  lemma CenturyOf(b: int, c: int)
    requires 0 <= b && 0 <= c <= if b % 4 == 3 then 36524 else 36523
    ensures (4 * (CenturyDays(b) + c) + 3) / 146097 == b
  {
  }

  lemma FourYears(y: int)
    ensures (y + 1) / 4 == y / 4 + (if (y + 1) % 4 == 0 then 1 else 0)
  {
  }

  lemma Hundred(y: int)
    ensures (y + 1) / 100 == y / 100 + (if (y + 1) % 100 == 0 then 1 else 0)
  {
  }

  lemma FourHundred(y: int)
    ensures (y + 1) / 400 == y / 400 + (if (y + 1) % 400 == 0 then 1 else 0)
  {
  }

  /** A year has 366 days, counted from March, just when it ends in a leap February. */
  lemma YearStep(y: int)
    requires y >= 0
    ensures LeapDays(y + 1) == LeapDays(y) + (if Leap(y + 1) then 1 else 0)
  {
    FourYears(y);
    Hundred(y);
    FourHundred(y);
    Multiples(y + 1);
  }

  lemma Multiples(y: int)
    ensures y % 100 == 0 ==> y % 4 == 0
    ensures y % 400 == 0 ==> y % 100 == 0
  {
  }

  function LeapDays(y: int): (r: int) {
    Quot(y, 4) - Quot(y, 100) + Quot(y, 400)
  }

  // The results.

  /** Every valid date comes back from its day number. */
  lemma DateRoundTrip(date: Date)
    requires ValidDate(date) && InEra(date)
    ensures JulianDayNumber(date) >= -32044 && GetYMD(JulianDayNumber(date)) == date
  {
    ShiftBack(date);
    NumberOf(date);
    DecodeShifted(Shift(date));
  }

  /** Every day number from -32044 up decodes to a valid date, and comes back from it. */
  lemma DayRoundTrip(jdn: int)
    requires jdn >= -32044
    ensures ValidDate(GetYMD(jdn)) && InEra(GetYMD(jdn)) && JulianDayNumber(GetYMD(jdn)) == jdn
  {
    var s := DecodeNumber(jdn);
    ShiftForth(s);
    NumberOf(GetYMD(jdn));
  }

  /** The next day of the calendar has the next number. */
  lemma TomorrowIsNext(date: Date)
    requires ValidDate(date) && InEra(date)
    ensures ValidDate(Tomorrow(date)) && JulianDayNumber(Tomorrow(date)) == JulianDayNumber(date) + 1
  {
    if date.day == MonthLength(date.year, date.month) {
      if date.month == 2 {
        FebruaryEnds(date);
      } else {
        MonthEnds(date);
      }
    }
  }

  /** The month counted from March, and the year with it. */
  function MarchMonth(month: int): (r: int) {
    if month <= 2 then month + 9 else month - 3
  }

  function MarchYear(date: Date): (r: int) {
    date.year + (if date.month <= 2 then 4799 else 4800)
  }

  lemma JdnParts(date: Date, y: int, m: int)
    requires 1 <= date.month <= 12 && y == MarchYear(date) && m == MarchMonth(date.month)
    ensures JulianDayNumber(date) == date.day + MonthDays(m) + y * 365 + LeapDays(y) - 32045
  {
    assert Quot(14 - date.month, 12) == if date.month <= 2 then 1 else 0;
    assert Quot(153 * m + 2, 5) == MonthDays(m);
  }

  lemma MonthStep(m: int)
    requires 0 <= m < 11
    ensures MonthDays(m + 1) - MonthDays(m) == if m == 1 || m == 3 || m == 6 || m == 8 then 30 else 31
  {
  }

  lemma MonthEnds(date: Date)
    requires ValidDate(date) && InEra(date) && date.day == MonthLength(date.year, date.month) && date.month != 2
    ensures ValidDate(Tomorrow(date)) && JulianDayNumber(Tomorrow(date)) == JulianDayNumber(date) + 1
  {
    var y, m := MarchYear(date), MarchMonth(date.month);
    MonthStep(m);
    JdnParts(date, y, m);
    JdnParts(Tomorrow(date), y, m + 1);
  }

  lemma FebruaryEnds(date: Date)
    requires ValidDate(date) && InEra(date) && date.day == MonthLength(date.year, date.month) && date.month == 2
    ensures ValidDate(Tomorrow(date)) && JulianDayNumber(Tomorrow(date)) == JulianDayNumber(date) + 1
  {
    var y := MarchYear(date);
    JdnParts(date, y, 11);
    JdnParts(Tomorrow(date), y + 1, 0);
    YearStep(y);
    LeapCycle(date.year + 4800);
  }

  // The same in 32 bits: none on overflow.

  predicate Int32(x: int) {
    -0x8000_0000 <= x <= 0x7fff_ffff
  }

  /** The last day number whose date 32 bits give. */
  const LAST_DAY := 536838867

  function GetYMD32(jdn: int): (r: Option<Date>) {
    var a := jdn + 32044;
    var b := Quot(4 * a + 3, 146097);
    var c := a - Quot(b * 146097, 4);
    var d := Quot(4 * c + 3, 1461);
    var e := c - Quot(1461 * d, 4);
    if Int32(a) && Int32(4 * a + 3) && Int32(b * 146097) && Int32(4 * c + 3) && Int32(1461 * d) && Int32(5 * e + 2)
       && Int32(b * 100 + d) then Some(GetYMD(jdn))
    else None
  }

  function JulianDayNumber32(date: Date): (r: Option<int>) {
    var a := Quot(14 - date.month, 12);
    var y := date.year + 4800 - a;
    var m := date.month + 12 * a - 3;
    if Int32(14 - date.month) && Int32(date.year + 4800) && Int32(y) && Int32(12 * a) && Int32(153 * m + 2)
    then Summed32(date.day + Quot(153 * m + 2, 5), y) else None
  }

  function Summed32(days: int, y: int): (r: Option<int>) {
    var whole := days + y * 365 + Quot(y, 4);
    var less := whole - Quot(y, 100);
    var sum := less + Quot(y, 400);
    if Int32(days) && Int32(y * 365) && Int32(days + y * 365) && Int32(whole) && Int32(less) && Int32(sum)
       && Int32(sum - 32045) then Some(sum - 32045)
    else None
  }

  /** Up to that day, and no further, the date is found without overflow. */
  lemma DateFits(jdn: int)
    requires jdn >= -32044
    ensures GetYMD32(jdn) == if jdn <= LAST_DAY then Some(GetYMD(jdn)) else None
  {
    if jdn <= LAST_DAY {
      var b, c, d, e, m := Pieces(jdn + 32044);
    }
  }

  /** The sums fit exactly if the largest does, the one before the centuries are taken off. */
  lemma SumsFit(days: int, y: int)
    requires 0 <= days <= 400 && y >= 0
    ensures Summed32(days, y) ==
            if days + y * 365 + y / 4 <= 0x7fff_ffff then Some(days + y * 365 + LeapDays(y) - 32045) else None
  {
    assert 0 <= Quot(y, 400) <= Quot(y, 100) <= Quot(y, 4) == y / 4;
  }

  lemma MarchParts(month: int)
    requires 1 <= month <= 12
    ensures var a := Quot(14 - month, 12);
            && a == (if month <= 2 then 1 else 0) && month + 12 * a - 3 == MarchMonth(month)
            && 0 <= MarchMonth(month) < 12 && 0 <= MonthDays(MarchMonth(month)) <= 337
            && Quot(153 * MarchMonth(month) + 2, 5) == MonthDays(MarchMonth(month))
  {
  }

  lemma Parts32(date: Date, y: int, m: int)
    requires 1 <= date.month <= 12 && y == MarchYear(date) && m == MarchMonth(date.month)
    ensures JulianDayNumber32(date) ==
            if Int32(date.year + 4800) && Int32(y) then Summed32(date.day + MonthDays(m), y) else None
  {
    MarchParts(date.month);
  }

  /** The number is found in 32 bits, and is the right one, exactly as long as that sum fits. */
  lemma NumberFitsExactly(date: Date)
    requires ValidDate(date) && InEra(date)
    ensures var y, m := MarchYear(date), MarchMonth(date.month);
            JulianDayNumber32(date) ==
            if date.day + MonthDays(m) + y * 365 + y / 4 <= 0x7fff_ffff then Some(JulianDayNumber(date)) else None
  {
    var y, m := MarchYear(date), MarchMonth(date.month);
    Parts32(date, y, m);
    JdnParts(date, y, m);
    MarchParts(date.month);
    SumsFit(date.day + MonthDays(m), y);
  }

  /** So up to that day. */
  lemma NumberFits(date: Date)
    requires ValidDate(date) && InEra(date) && JulianDayNumber(date) <= LAST_DAY
    ensures JulianDayNumber32(date) == Some(JulianDayNumber(date))
  {
    var y, m := MarchYear(date), MarchMonth(date.month);
    NumberFitsExactly(date);
    JdnParts(date, y, m);
    MarchParts(date.month);
    YearBound(y, JulianDayNumber(date));
  }

  lemma YearBound(y: int, jdn: int)
    requires y >= 0 && y * 365 + LeapDays(y) - 32045 <= jdn <= LAST_DAY
    ensures y * 365 <= 540000000 && 0 <= y / 4 <= 500000
  {
  }

  /** So in 32 bits the round trips hold from -32044 up to that day. */
  lemma DayRoundTrip32(jdn: int)
    requires -32044 <= jdn <= LAST_DAY
    ensures GetYMD32(jdn).Some? && JulianDayNumber32(GetYMD32(jdn).value) == Some(jdn)
  {
    DateFits(jdn);
    DayRoundTrip(jdn);
    NumberFits(GetYMD(jdn));
  }
}
