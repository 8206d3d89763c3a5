/** Julian day numbers and UTC times: Date.cc and TimeZone.cc against the Gregorian calendar. */
module Calendar {
  import opened Arith

  const SECONDS_PER_DAY := 86400
  const EPOCH_DAY := 2440588

  // ----- the calendar

  datatype Date = Date(year: int, month: int, day: int)

  predicate Leap(year: int) {
    year % 4 == 0 && (year % 100 != 0 || year % 400 == 0)
  }

  function DaysIn(year: int, month: int): int {
    if month == 2 then if Leap(year) then 29 else 28
    else if month == 4 || month == 6 || month == 9 || month == 11 then 30
    else 31
  }

  predicate ValidDate(d: Date) {
    1 <= d.month <= 12 && 1 <= d.day <= DaysIn(d.year, d.month)
  }

  function NextDay(d: Date): Date {
    if d.day < DaysIn(d.year, d.month) then Date(d.year, d.month, d.day + 1)
    else if d.month < 12 then Date(d.year, d.month + 1, 1)
    else Date(d.year + 1, 1, 1)
  }

  /** The year that begins on 1 March, counted from the one that begins on 1 March -4800. */
  function MarchYear(d: Date): int {
    if d.month <= 2 then d.year + 4799 else d.year + 4800
  }

  // ----- the two conversions

  /** C's division. */
  function Div(a: int, b: int): int
    requires b > 0
  {
    if a >= 0 then a / b else -((-a) / b)
  }

  function JulianDay(d: Date): int {
    var a := Div(14 - d.month, 12);
    var y := d.year + 4800 - a;
    var m := d.month + 12 * a - 3;
    d.day + Div(153 * m + 2, 5) + y * 365 + Div(y, 4) - Div(y, 100) + Div(y, 400) - 32045
  }

  function YearMonthDay(n: int): Date {
    var a := n + 32044;
    var b := Div(4 * a + 3, 146097);
    InCentury(b, a - Div(b * 146097, 4))
  }

  /** Day c of century b. */
  function InCentury(b: int, c: int): Date {
    var d := Div(4 * c + 3, 1461);
    InYear(b * 100 + d - 4800, c - Div(1461 * d, 4))
  }

  /** Day e of the year that begins in March of year y. */
  function InYear(y: int, e: int): Date {
    var m := Div(5 * e + 2, 153);
    Date(y + Div(m, 10), m + 3 - 12 * Div(m, 10), e - Div(153 * m + 2, 5) + 1)
  }

  // ----- days since 1 March -4800, by century, year of the century and month of the year

  function CenturyStart(b: nat): nat {
    146097 * b / 4
  }

  function YearStart(d: nat): nat {
    1461 * d / 4
  }

  function MonthStart(m: nat): nat {
    (153 * m + 2) / 5
  }

  function YearLength(b: nat, d: nat): int {
    if d == 99 then CenturyStart(b + 1) - CenturyStart(b) - YearStart(99) else YearStart(d + 1) - YearStart(d)
  }

  /** March-based: month 0 is March, day 0 the first. */
  datatype March = March(century: nat, year: nat, month: nat, day: nat)

  function MonthLength(v: March): int {
    if v.month == 11 then YearLength(v.century, v.year) - MonthStart(11)
    else MonthStart(v.month + 1) - MonthStart(v.month)
  }

  predicate ValidMarch(v: March) {
    v.year < 100 && v.month < 12 && v.day < MonthLength(v)
  }

  function DayCount(v: March): nat {
    CenturyStart(v.century) + YearStart(v.year) + MonthStart(v.month) + v.day
  }

  lemma YearLengths(b: nat, d: nat)
    requires d < 100
    ensures YearLength(b, d) == if Leap(100 * b + d + 1) then 366 else 365
  {
    if d == 99 {
      CenturyLength(b);
      CenturyLeap(b + 1);
    } else {
      YearStep(d);
      YearLeap(b, d + 1);
    }
  }

  lemma CenturyLength(b: nat)
    ensures CenturyStart(b + 1) - CenturyStart(b) == if (b + 1) % 4 == 0 then 36525 else 36524
  {
    CenturyStarts(b);
    CenturyStarts(b + 1);
  }

  lemma CenturyStarts(b: nat)
    ensures CenturyStart(b) == 36524 * b + b / 4
  {
    ModUnique(146097 * b, 36524 * b + b / 4, b % 4, 4);
  }

  lemma YearStarts(d: nat)
    ensures YearStart(d) == 365 * d + d / 4
  {
    ModUnique(1461 * d, 365 * d + d / 4, d % 4, 4);
  }

  lemma YearStep(d: nat)
    ensures YearStart(d + 1) - YearStart(d) == if (d + 1) % 4 == 0 then 366 else 365
  {
    YearStarts(d);
    YearStarts(d + 1);
  }

  lemma CenturyLeap(b: nat)
    ensures Leap(100 * b) <==> b % 4 == 0
  {
    ModUnique(100 * b, 25 * b, 0, 4);
    ModUnique(100 * b, b, 0, 100);
    ModUnique(100 * b, b / 4, 100 * (b % 4), 400);
  }

  lemma YearLeap(b: nat, r: nat)
    requires 1 <= r < 100
    ensures Leap(100 * b + r) <==> r % 4 == 0
  {
    ModUnique(100 * b + r, b, r, 100);
    ModUnique(100 * b + r, 25 * b + r / 4, r % 4, 4);
  }

  lemma CenturyOf(b: nat, c: nat)
    requires c < CenturyStart(b + 1) - CenturyStart(b)
    ensures (4 * (CenturyStart(b) + c) + 3) / 146097 == b
  {
  }

  lemma YearOf(b: nat, d: nat, e: nat)
    requires d < 100 && e < YearLength(b, d)
    ensures (4 * (YearStart(d) + e) + 3) / 1461 == d
    ensures YearStart(d) + e < CenturyStart(b + 1) - CenturyStart(b)
  {
  }

  lemma MonthOf(m: nat, k: nat)
    requires m < 12 && k < MonthStart(m + 1) - MonthStart(m)
    ensures (5 * (MonthStart(m) + k) + 2) / 153 == m
  {
  }

  function MarchOf(a: nat): March {
    var b := (4 * a + 3) / 146097;
    var c := a - CenturyStart(b);
    var d := (4 * c + 3) / 1461;
    var e := c - YearStart(d);
    var m := (5 * e + 2) / 153;
    March(b, d, m, e - MonthStart(m))
  }

  lemma MarchInverse(v: March)
    requires ValidMarch(v)
    ensures MarchOf(DayCount(v)) == v
  {
    var e := MonthStart(v.month) + v.day;
    var c := YearStart(v.year) + e;
    WithinYear(v);
    YearOf(v.century, v.year, e);
    CenturyOf(v.century, c);
    MonthOf(v.month, v.day);
    MarchParts(DayCount(v), v.century, c, v.year, e, v.month);
  }

  lemma WithinYear(v: March)
    requires ValidMarch(v)
    ensures MonthStart(v.month) + v.day < YearLength(v.century, v.year)
    ensures v.day < MonthStart(v.month + 1) - MonthStart(v.month)
  {
    YearLengths(v.century, v.year);
  }

  /** Every day count has a March date. */
  lemma MarchTotal(a: nat)
    ensures ValidMarch(MarchOf(a)) && DayCount(MarchOf(a)) == a
  {
    var v := MarchOf(a);
    var b := v.century;
    var c := a - CenturyStart(b);
    CenturySplit(a);
    YearSplit(b, c);
    var e := c - YearStart(v.year);
    YearLengths(b, v.year);
    MonthSplit(e);
  }

  lemma CenturySplit(a: nat)
    ensures var b := (4 * a + 3) / 146097; CenturyStart(b) <= a < CenturyStart(b + 1)
  {
  }

  lemma YearSplit(b: nat, c: nat)
    requires c < CenturyStart(b + 1) - CenturyStart(b)
    ensures var d := (4 * c + 3) / 1461; d < 100 && YearStart(d) <= c < YearStart(d) + YearLength(b, d)
  {
  }

  lemma MonthSplit(e: nat)
    requires e < 366
    ensures var m := (5 * e + 2) / 153; m < 12 && MonthStart(m) <= e < MonthStart(m + 1)
  {
  }

  // ----- March dates and civil dates

  function Civil(v: March): Date {
    var y := 100 * v.century + v.year;
    if v.month < 10 then Date(y - 4800, v.month + 3, v.day + 1) else Date(y - 4799, v.month - 9, v.day + 1)
  }

  function MarchDate(d: Date): March
    requires ValidDate(d) && MarchYear(d) >= 0
  {
    var y := MarchYear(d);
    March(y / 100, y % 100, if d.month <= 2 then d.month + 9 else d.month - 3, d.day - 1)
  }

  lemma MonthLengths(v: March)
    requires v.year < 100 && v.month < 12
    ensures ValidMarch(v) <==> v.day < DaysIn(Civil(v).year, Civil(v).month)
  {
    YearLengths(v.century, v.year);
    LeapShift(100 * v.century + v.year + 1);
  }

  lemma LeapShift(y: int)
    ensures Leap(y - 4800) == Leap(y)
  {
    ModUnique(y - 4800, y / 4 - 1200, y % 4, 4);
    ModUnique(y - 4800, y / 100 - 48, y % 100, 100);
    ModUnique(y - 4800, y / 400 - 12, y % 400, 400);
  }

  lemma CivilValid(v: March)
    requires ValidMarch(v)
    ensures ValidDate(Civil(v)) && MarchYear(Civil(v)) >= 0 && MarchDate(Civil(v)) == v
  {
    MonthLengths(v);
  }

  lemma MarchValid(d: Date)
    requires ValidDate(d) && MarchYear(d) >= 0
    ensures ValidMarch(MarchDate(d)) && Civil(MarchDate(d)) == d
  {
    MonthLengths(MarchDate(d));
  }

  /** The formula with the month counted from March. */
  lemma JulianDayShifted(d: Date)
    requires 1 <= d.month <= 12 && MarchYear(d) >= 0
    ensures var y, m := MarchYear(d), if d.month <= 2 then d.month + 9 else d.month - 3;
            JulianDay(d) == d.day + MonthStart(m) + 365 * y + y / 4 - y / 100 + y / 400 - 32045
  {
    assert Div(14 - d.month, 12) == if d.month <= 2 then 1 else 0;
  }

  lemma LeapDays(b: nat, r: nat)
    requires r < 100
    ensures (100 * b + r) / 4 == 25 * b + r / 4 && (100 * b + r) / 400 == b / 4
  {
    ModUnique(100 * b + r, 25 * b + r / 4, r % 4, 4);
    ModUnique(100 * b + r, b / 4, 100 * (b % 4) + r, 400);
  }

  /** The closed formula counts the days since 1 March -4800. */
  lemma JulianDayCounts(d: Date)
    requires ValidDate(d) && MarchYear(d) >= 0
    ensures JulianDay(d) == DayCount(MarchDate(d)) - 32044
  {
    var y := MarchYear(d);
    DivBounds(y, 100);
    JulianDayShifted(d);
    LeapDays(y / 100, y % 100);
    CenturyStarts(y / 100);
    YearStarts(y % 100);
  }

  lemma YearMonthDayReads(n: int)
    requires n >= -32044
    ensures YearMonthDay(n) == Civil(MarchOf(n + 32044))
  {
    var a := n + 32044;
    var b, c, d, e, m := Parts(a);
    Reading(n, a, b, c, d, e, m);
    MarchParts(a, b, c, d, e, m);
  }

  /** The intermediate values of the conversion from a day count on. */
  ghost predicate Chain(a: nat, b: nat, c: nat, d: nat, e: nat, m: nat) {
    && b == (4 * a + 3) / 146097 && c == a - CenturyStart(b) && d == (4 * c + 3) / 1461
    && e == c - YearStart(d) && m == (5 * e + 2) / 153 && m < 12 && MonthStart(m) <= e
  }

  lemma Parts(a: nat) returns (b: nat, c: nat, d: nat, e: nat, m: nat)
    ensures Chain(a, b, c, d, e, m)
  {
    CenturySplit(a);
    b := (4 * a + 3) / 146097;
    c := a - CenturyStart(b);
    YearSplit(b, c);
    d := (4 * c + 3) / 1461;
    e := c - YearStart(d);
    YearLengths(b, d);
    MonthSplit(e);
    m := (5 * e + 2) / 153;
  }

  lemma MarchParts(a: nat, b: nat, c: nat, d: nat, e: nat, m: nat)
    requires Chain(a, b, c, d, e, m)
    ensures MarchOf(a) == March(b, d, m, e - MonthStart(m))
  {
  }

  lemma Reading(n: int, a: nat, b: nat, c: nat, d: nat, e: nat, m: nat)
    requires a == n + 32044 && Chain(a, b, c, d, e, m)
    ensures YearMonthDay(n) == Civil(March(b, d, m, e - MonthStart(m)))
  {
    CenturyReading(n, a, b, c);
    YearReading(b, c, d, e);
    MonthReading(b * 100 + d - 4800, e, m);
  }

  lemma CenturyReading(n: int, a: nat, b: nat, c: nat)
    requires a == n + 32044 && b == (4 * a + 3) / 146097 && c == a - CenturyStart(b)
    ensures YearMonthDay(n) == InCentury(b, c)
  {
    assert Div(4 * a + 3, 146097) == b && Div(b * 146097, 4) == CenturyStart(b);
  }

  lemma YearReading(b: nat, c: nat, d: nat, e: nat)
    requires d == (4 * c + 3) / 1461 && e == c - YearStart(d)
    ensures InCentury(b, c) == InYear(b * 100 + d - 4800, e)
  {
  }

  lemma MonthReading(y: int, e: nat, m: nat)
    requires m == (5 * e + 2) / 153 && m < 12
    ensures InYear(y, e) == if m < 10 then Date(y, m + 3, e - MonthStart(m) + 1)
                            else Date(y + 1, m - 9, e - MonthStart(m) + 1)
  {
  }

  // ----- the calendar theorems

  /** A valid date survives the round trip exactly from 1 March -4800 on. */
  lemma DateRoundTrip(d: Date)
    requires ValidDate(d)
    ensures YearMonthDay(JulianDay(d)) == d <==> MarchYear(d) >= 0
  {
    if MarchYear(d) >= 0 {
      LaterDate(d);
    } else {
      EarlierDate(d);
    }
  }

  lemma LaterDate(d: Date)
    requires ValidDate(d) && MarchYear(d) >= 0
    ensures YearMonthDay(JulianDay(d)) == d
  {
    var v := MarchDate(d);
    MarchValid(d);
    JulianDayCounts(d);
    YearMonthDayReads(DayCount(v) - 32044);
    MarchInverse(v);
  }

  lemma EarlierDate(d: Date)
    requires ValidDate(d) && MarchYear(d) < 0
    ensures YearMonthDay(JulianDay(d)) != d
  {
    BeforeTheEpoch(d);
    var n := JulianDay(d);
    if n < -32044 {
      NoDateBefore(n);
    } else {
      MarchTotal(n + 32044);
      CivilValid(MarchOf(n + 32044));
      YearMonthDayReads(n);
    }
  }

  /** The last day that collides: 29 February -4800 gets the number of the next day. */
  lemma CollidingDay()
    ensures ValidDate(Date(-4800, 2, 29)) && JulianDay(Date(-4800, 2, 29)) == JulianDay(Date(-4800, 3, 1))
  {
  }

  lemma BeforeTheEpoch(d: Date)
    requires ValidDate(d) && MarchYear(d) < 0
    ensures JulianDay(d) <= -32044
  {
    var y := MarchYear(d);
    assert Div(y, 4) <= Div(y, 100) && Div(y, 400) <= 0;
  }

  /** Below day -32044 truncation yields a day of the month that does not exist. */
  lemma NoDateBefore(n: int)
    requires n < -32044
    ensures YearMonthDay(n).day <= 0
  {
    var a := n + 32044;
    var b := Div(4 * a + 3, 146097);
    StaysNegative(a, b, 146097);
    var c := a - Div(b * 146097, 4);
    var d := Div(4 * c + 3, 1461);
    StaysNegative(c, d, 1461);
    DayBefore(c - Div(1461 * d, 4));
  }

  /** Truncated division leaves a negative rest negative. */
  lemma StaysNegative(a: int, q: int, w: int)
    requires a < 0 && w >= 4 && q == Div(4 * a + 3, w)
    ensures a - Div(q * w, 4) < 0
  {
    DivBounds(-4 * a - 3, w);
    NegMul(-q, w);
    assert 0 <= (-q) * w <= -4 * a - 3;
  }

  lemma DayBefore(e: int)
    requires e < 0
    ensures e - Div(153 * Div(5 * e + 2, 153) + 2, 5) + 1 <= 0
  {
    var q := (-5 * e - 2) / 153;
    assert Div(5 * e + 2, 153) == -q;
    assert q == 0 || Div(2 - 153 * q, 5) >= e + 1;
  }

  /** A number is read as a valid date, and as the date it came from, exactly from -32044 on. */
  lemma NumberRoundTrip(n: int)
    ensures ValidDate(YearMonthDay(n)) && JulianDay(YearMonthDay(n)) == n <==> n >= -32044
  {
    if n >= -32044 {
      var a := n + 32044;
      MarchTotal(a);
      CivilValid(MarchOf(a));
      YearMonthDayReads(n);
      JulianDayCounts(YearMonthDay(n));
    } else {
      NoDateBefore(n);
    }
  }

  function NextMarch(v: March): March {
    if v.day + 1 < MonthLength(v) then v.(day := v.day + 1)
    else if v.month < 11 then v.(month := v.month + 1, day := 0)
    else if v.year < 99 then March(v.century, v.year + 1, 0, 0)
    else March(v.century + 1, 0, 0, 0)
  }

  lemma NextMarchCount(v: March)
    requires ValidMarch(v)
    ensures DayCount(NextMarch(v)) == DayCount(v) + 1
  {
  }

  /** The March calendar and the civil calendar move on together. */
  lemma NextDayMarch(d: Date)
    requires ValidDate(d) && MarchYear(d) >= 0
    ensures ValidDate(NextDay(d)) && MarchYear(NextDay(d)) >= 0 && MarchDate(NextDay(d)) == NextMarch(MarchDate(d))
  {
    var v := MarchDate(d);
    MarchValid(d);
    LengthsAgree(v);
    var y := MarchYear(d);
    assert y % 100 < 99 ==> (y + 1) / 100 == y / 100 && (y + 1) % 100 == y % 100 + 1;
    assert y % 100 == 99 ==> (y + 1) / 100 == y / 100 + 1 && (y + 1) % 100 == 0;
  }

  lemma LengthsAgree(v: March)
    requires ValidMarch(v)
    ensures MonthLength(v) == DaysIn(Civil(v).year, Civil(v).month)
  {
    YearLengths(v.century, v.year);
    LeapShift(100 * v.century + v.year + 1);
  }

  /** Successive days get successive numbers. */
  lemma NextDayNumber(d: Date)
    requires ValidDate(d) && MarchYear(d) >= 0
    ensures ValidDate(NextDay(d)) && JulianDay(NextDay(d)) == JulianDay(d) + 1
  {
    NextDayMarch(d);
    MarchValid(d);
    NextMarchCount(MarchDate(d));
    JulianDayCounts(d);
    JulianDayCounts(NextDay(d));
  }

  // ----- the day of the year

  /** The days of the year's months before the given one. */
  function DaysBefore(year: int, month: int): int
    requires 1 <= month <= 13
    decreases month
  {
    if month == 1 then 0 else DaysBefore(year, month - 1) + DaysIn(year, month - 1)
  }

  /** 0 for the first of January. */
  function DayOfYear(d: Date): int
    requires ValidDate(d)
  {
    DaysBefore(d.year, d.month) + d.day - 1
  }

  lemma {:induction false} DaysBeforeGrows(year: int, month: int)
    requires 1 <= month <= 12
    ensures 0 <= DaysBefore(year, month) && DaysBefore(year, month) + DaysIn(year, month) <= DaysBefore(year, 13)
    decreases month
  {
    YearTable(year, if Leap(year) then 1 else 0);
  }

  lemma YearTable(year: int, f: int)
    requires f == if Leap(year) then 1 else 0
    ensures DaysBefore(year, 2) == 31 && DaysBefore(year, 3) == 59 + f && DaysBefore(year, 4) == 90 + f
    ensures DaysBefore(year, 5) == 120 + f && DaysBefore(year, 6) == 151 + f && DaysBefore(year, 7) == 181 + f
    ensures DaysBefore(year, 8) == 212 + f && DaysBefore(year, 9) == 243 + f && DaysBefore(year, 10) == 273 + f
    ensures DaysBefore(year, 11) == 304 + f && DaysBefore(year, 12) == 334 + f && DaysBefore(year, 13) == 365 + f
  {
    assert DaysBefore(year, 2) == 31;
    assert DaysBefore(year, 4) == 90 + f;
    assert DaysBefore(year, 6) == 151 + f;
    assert DaysBefore(year, 8) == 212 + f;
    assert DaysBefore(year, 10) == 273 + f;
    assert DaysBefore(year, 12) == 334 + f;
  }

  lemma DayOfYearRange(d: Date)
    requires ValidDate(d)
    ensures 0 <= DayOfYear(d) < if Leap(d.year) then 366 else 365
  {
    DaysBeforeGrows(d.year, d.month);
    YearTable(d.year, if Leap(d.year) then 1 else 0);
  }

  lemma DayOfMonth(year: int, month: int, day: int)
    ensures JulianDay(Date(year, month, day)) == JulianDay(Date(year, month, 1)) + day - 1
  {
  }

  /** A month's first day, counted from the first of the year. */
  lemma {:induction false} FirstOfMonth(year: int, month: int)
    requires year > -4800 && 1 <= month <= 12
    ensures JulianDay(Date(year, month, 1)) == JulianDay(Date(year, 1, 1)) + DaysBefore(year, month)
    decreases month
  {
    if month > 1 {
      var last := DaysIn(year, month - 1);
      FirstOfMonth(year, month - 1);
      DayOfMonth(year, month - 1, last);
      NextDayNumber(Date(year, month - 1, last));
    }
  }

  /** The same in the year of the first March, whose January and February are numbered one day late. */
  lemma {:induction false} FirstOfMonthThen(month: int)
    requires 3 <= month <= 12
    ensures JulianDay(Date(-4800, month, 1)) == JulianDay(Date(-4800, 1, 1)) + DaysBefore(-4800, month) - 1
    decreases month
  {
    if month > 3 {
      var last := DaysIn(-4800, month - 1);
      FirstOfMonthThen(month - 1);
      DayOfMonth(-4800, month - 1, last);
      NextDayNumber(Date(-4800, month - 1, last));
    } else {
      assert DaysBefore(-4800, 3) == 60;
    }
  }

  /** Days since the first of January: the day of the year, in every year but -4800. */
  lemma YearDay(d: Date)
    requires ValidDate(d) && MarchYear(d) >= 0
    ensures JulianDay(d) - JulianDay(Date(d.year, 1, 1)) == DayOfYear(d) - if d.year == -4800 then 1 else 0
  {
    DayOfMonth(d.year, d.month, d.day);
    if d.year == -4800 {
      FirstOfMonthThen(d.month);
    } else {
      FirstOfMonth(d.year, d.month);
    }
  }

  // ----- the day of the week

  /** C's remainder. */
  function Rem(a: int, b: int): int
    requires b > 0
  {
    a - Div(a, b) * b
  }

  /** 0 for Sunday. */
  function WeekDay(n: int): int {
    Rem(n + 1, 7)
  }

  /** From day -1 on the days of the week follow one another, 1 January 1970 being a Thursday. */
  lemma WeekDays(n: int)
    ensures n >= -1 ==> WeekDay(n) == (n - EPOCH_DAY + 4) % 7 && WeekDay(n + 1) == (WeekDay(n) + 1) % 7
  {
    if n >= -1 {
      var q, r := (n + 1) / 7, (n + 1) % 7;
      ModUnique(n - EPOCH_DAY + 4, q - 348655, r, 7);
      if r == 6 {
        ModUnique(n + 2, q + 1, 0, 7);
      } else {
        ModUnique(n + 2, q, r + 1, 7);
      }
    }
  }

  /** Before that the remainder is negative, except on Sundays. */
  lemma WeekDayRange(n: int)
    ensures 0 <= WeekDay(n) < 7 <==> n >= -1 || (n + 1) % 7 == 0
  {
    if n < -1 {
      var q, r := (-n - 1) / 7, (-n - 1) % 7;
      assert WeekDay(n) == -r;
      if r == 0 {
        ModUnique(n + 1, -q, 0, 7);
      } else {
        ModUnique(n + 1, -q - 1, 7 - r, 7);
      }
    }
  }

  // ----- UTC times

  lemma EpochIs1970()
    ensures JulianDay(Date(1970, 1, 1)) == EPOCH_DAY
  {
  }

  /** The fields of struct tm that the conversions fill and read; the year and month are stored shifted. */
  datatype Tm = Tm(year: int, mon: int, mday: int, wday: int, hour: int, min: int, sec: int, yday: int)

  /** fillHMS and the calendar fields of toUtcTime. */
  method ToUtcTime(t: int, yday: bool) returns (utc: Tm)
    ensures utc == UtcFields(t, yday)
    ensures 0 <= utc.hour < 24 && 0 <= utc.min < 60 && 0 <= utc.sec < 60
    ensures utc.hour * 3600 + utc.min * 60 + utc.sec == t % SECONDS_PER_DAY
  {
    var days, seconds := SplitTime(t);
    FieldsRange(days + EPOCH_DAY, seconds, yday);
    utc := FieldsAt(days + EPOCH_DAY, seconds, yday);
  }

  method SplitTime(t: int) returns (days: int, seconds: int)
    ensures days == t / SECONDS_PER_DAY && seconds == t % SECONDS_PER_DAY
  {
    seconds := Rem(t, SECONDS_PER_DAY);
    days := Div(t, SECONDS_PER_DAY);
    SplitDay(t);
    if seconds < 0 {
      seconds := seconds + SECONDS_PER_DAY;
      days := days - 1;
    }
    FloorDay(t, days, seconds);
  }

  lemma SplitDay(t: int)
    ensures var s := Rem(t, SECONDS_PER_DAY);
            -SECONDS_PER_DAY < s < SECONDS_PER_DAY && t == Div(t, SECONDS_PER_DAY) * SECONDS_PER_DAY + s
  {
  }

  /** Remainder and quotient corrected for negative times are the floor division. */
  lemma FloorDay(t: int, days: int, seconds: int)
    requires 0 <= seconds < SECONDS_PER_DAY && t == days * SECONDS_PER_DAY + seconds
    ensures days == t / SECONDS_PER_DAY && seconds == t % SECONDS_PER_DAY
  {
    ModUnique(t, days, seconds, SECONDS_PER_DAY);
  }

  lemma Clock(s: int)
    requires 0 <= s < SECONDS_PER_DAY
    ensures 0 <= s / 60 / 60 < 24 && s / 60 / 60 * 3600 + s / 60 % 60 * 60 + s % 60 == s
  {
  }

  /** What toUtcTime promises, by floor division. */
  function UtcFields(t: int, yday: bool): Tm {
    FieldsAt(t / SECONDS_PER_DAY + EPOCH_DAY, t % SECONDS_PER_DAY, yday)
  }

  lemma FieldsRange(day: int, s: int, yday: bool)
    requires 0 <= s < SECONDS_PER_DAY
    ensures var utc := FieldsAt(day, s, yday);
            && 0 <= utc.hour < 24 && 0 <= utc.min < 60 && 0 <= utc.sec < 60
            && utc.hour * 3600 + utc.min * 60 + utc.sec == s
  {
    Clock(s);
  }

  /** The fields for second s of a day, the clock as fillHMS takes it apart. */
  function FieldsAt(day: int, s: int, yday: bool): Tm {
    var ymd, minutes := YearMonthDay(day), s / 60;
    Tm(ymd.year - 1900, ymd.month - 1, ymd.day, WeekDay(day), minutes / 60, minutes % 60, s % 60,
       if yday then day - JulianDay(Date(ymd.year, 1, 1)) else 0)
  }

  /** The day of the year of a time from 1 March -4800 on; it is right exactly outside the year -4800. */
  lemma UtcYearDay(t: int)
    requires t / SECONDS_PER_DAY + EPOCH_DAY >= -32044
    ensures var utc := UtcFields(t, true); var d := DateOf(utc);
            && ValidDate(d) && 0 <= DayOfYear(d) < (if Leap(d.year) then 366 else 365)
            && utc.yday == DayOfYear(d) - (if d.year == -4800 then 1 else 0)
  {
    var n := t / SECONDS_PER_DAY + EPOCH_DAY;
    var d := YearMonthDay(n);
    MarchTotal(n + 32044);
    CivilValid(MarchOf(n + 32044));
    YearMonthDayReads(n);
    NumberRoundTrip(n);
    YearDay(d);
    DayOfYearRange(d);
    assert DateOf(UtcFields(t, true)) == d;
  }

  /** Time 0 is midnight, Thursday 1 January 1970. */
  lemma TimeZero(t: int)
    requires t == 0
    ensures UtcFields(t, true) == Tm(70, 0, 1, 4, 0, 0, 0, 0)
  {
    var epoch := Date(1970, 1, 1);
    EpochIs1970();
    LaterDate(epoch);
    var n := JulianDay(epoch);
    ZeroFields(n, 0);
    FieldsFrom(t, n, 0, true);
  }

  lemma FieldsFrom(t: int, n: int, s: int, yday: bool)
    requires 0 <= s < SECONDS_PER_DAY && t == (n - EPOCH_DAY) * SECONDS_PER_DAY + s
    ensures UtcFields(t, yday) == FieldsAt(n, s, yday)
  {
    FloorDay(t, n - EPOCH_DAY, s);
  }

  lemma ZeroFields(n: int, s: int)
    requires n == EPOCH_DAY && s == 0 && YearMonthDay(n) == Date(1970, 1, 1) && JulianDay(Date(1970, 1, 1)) == n
    ensures FieldsAt(n, s, true) == Tm(70, 0, 1, 4, 0, 0, 0, 0)
  {
    assert WeekDay(n) == 4;
  }

  function DateOf(utc: Tm): Date {
    Date(utc.year + 1900, utc.mon + 1, utc.mday)
  }

  function FromUtcTime(utc: Tm): int {
    var secondsInDay := utc.hour * 3600 + utc.min * 60 + utc.sec;
    (JulianDay(DateOf(utc)) - EPOCH_DAY) * SECONDS_PER_DAY + secondsInDay
  }

  /** A time, negative or not, becomes a calendar time that leads back to it exactly from 1 March -4800 on. */
  lemma UtcRoundTrip(t: int, yday: bool)
    ensures ValidDate(DateOf(UtcFields(t, yday))) && FromUtcTime(UtcFields(t, yday)) == t
            <==> t / SECONDS_PER_DAY + EPOCH_DAY >= -32044
  {
    var n, s := t / SECONDS_PER_DAY + EPOCH_DAY, t % SECONDS_PER_DAY;
    NumberRoundTrip(n);
    var utc := UtcFields(t, yday);
    assert DateOf(utc) == YearMonthDay(n);
    FieldsRange(n, s, yday);
  }

  /** And a valid calendar time is what the time it stands for becomes. */
  lemma UtcInverse(utc: Tm)
    requires ValidDate(DateOf(utc)) && MarchYear(DateOf(utc)) >= 0
    requires 0 <= utc.hour < 24 && 0 <= utc.min < 60 && 0 <= utc.sec < 60
    ensures UtcFields(FromUtcTime(utc), false) == utc.(wday := WeekDay(JulianDay(DateOf(utc))), yday := 0)
  {
    var d := DateOf(utc);
    LaterDate(d);
    FieldsOf(JulianDay(d), d, utc.hour, utc.min, utc.sec, FromUtcTime(utc));
  }

  lemma FieldsOf(n: int, d: Date, h: nat, m: nat, s: nat, t: int)
    requires h < 24 && m < 60 && s < 60 && YearMonthDay(n) == d
    requires t == (n - EPOCH_DAY) * SECONDS_PER_DAY + (h * 3600 + m * 60 + s)
    ensures UtcFields(t, false) == Tm(d.year - 1900, d.month - 1, d.day, WeekDay(n), h, m, s, 0)
  {
    FloorDay(t, n - EPOCH_DAY, h * 3600 + m * 60 + s);
    ClockOf(h, m, s);
    assert UtcFields(t, false) == FieldsAt(n, h * 3600 + m * 60 + s, false);
  }

  lemma ClockOf(h: nat, m: nat, s: nat)
    requires h < 24 && m < 60 && s < 60
    ensures var t := h * 3600 + m * 60 + s; t / 60 / 60 == h && t / 60 % 60 == m && t % 60 == s
  {
    var t := h * 3600 + m * 60 + s;
    ModUnique(t, h * 60 + m, s, 60);
    ModUnique(h * 60 + m, h, m, 60);
  }
}
