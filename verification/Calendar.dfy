/**
  Seconds since the Epoch (section 4.16 of POSIX.1-2017 Base Definitions) to the local Gregorian date, by
  integer division only. The reference is the calendar itself: the day after 1970-01-01, and the day after that.
 */
module Calendar {
  import opened Bytes

  datatype Date = Date(year: int, month: int, day: int)

  predicate IsLeap(y: int) {
    y % 4 == 0 && (y % 100 != 0 || y % 400 == 0)
  }

  function DaysInMonth(y: int, m: int): int {
    if m == 2 then (if IsLeap(y) then 29 else 28)
    else if m == 4 || m == 6 || m == 9 || m == 11 then 30 else 31
  }

  predicate IsDate(d: Date) {
    1 <= d.month <= 12 && 1 <= d.day <= DaysInMonth(d.year, d.month)
  }

  function NextDay(d: Date): Date {
    if d.day < DaysInMonth(d.year, d.month) then Date(d.year, d.month, d.day + 1)
    else if d.month < 12 then Date(d.year, d.month + 1, 1)
    else Date(d.year + 1, 1, 1)
  }

  const EPOCH := Date(1970, 1, 1)

  /** The calendar date n days after the Epoch, counted one day at a time. */
  function DateAfter(n: nat): Date {
    if n == 0 then EPOCH else NextDay(DateAfter(n - 1))
  }

  // ---------- The conversion ----------

  /** A day inside a 400-year era, counted from 1 March of its first year: year of era and day of year. */
  datatype EraDay = EraDay(yoe: int, doy: int)

  function YearOfEra(doe: int): int {
    (doe - doe / 1460 + doe / 36524 - doe / 146096) / 365
  }

  /** The first day of year `yoe` of an era. */
  function YearStart(yoe: int): int {
    365 * yoe + yoe / 4 - yoe / 100
  }

  /** Length of a year that runs from 1 March; the last one of an era has the leap day of the next era's year 0. */
  function YearLen(yoe: int): int {
    if yoe % 4 == 3 && (yoe % 100 != 99 || yoe == 399) then 366 else 365
  }

  function MonthOf(doy: int): int {
    (5 * doy + 2) / 153
  }

  function MonthStart(mp: int): int {
    (153 * mp + 2) / 5
  }

  function CivilOf(era: int, yoe: int, doy: int): Date {
    var mp := MonthOf(doy);
    var d := doy - MonthStart(mp) + 1;
    var y := yoe + era * 400;
    if mp < 10 then Date(y, mp + 3, d) else Date(y + 1, mp - 9, d)
  }

  /** The straight-line computation of the source. */
  function Civil(days: nat): Date {
    var z := days + 719468;
    var era := z / 146097;
    var doe := z - era * 146097;
    var yoe := YearOfEra(doe);
    CivilOf(era, yoe, doe - YearStart(yoe))
  }

  lemma YearStarts(yoe: int)
    requires 0 <= yoe < 400
    ensures YearStart(yoe) + YearLen(yoe) == if yoe == 399 then 146097 else YearStart(yoe + 1)
  {
  }

  lemma YearStartByParts(c: int, q: int, r: int)
    requires 0 <= c < 4 && 0 <= q < 25 && 0 <= r < 4
    ensures YearStart(100 * c + 4 * q + r) == 36524 * c + 1461 * q + 365 * r
  {
    assert (100 * c + 4 * q + r) / 4 == 25 * c + q;
    assert (100 * c + 4 * q + r) / 100 == c;
  }

  lemma DivBy1460(x: int, q: int)
    requires 1460 * q <= x < 1460 * q + 1460
    ensures x / 1460 == q
  {
  }

  lemma CenturyDays(c: int, rest: int, doe: int)
    requires 0 <= c < 4 && 0 <= rest <= 36524 && (rest == 36524 ==> c == 3) && doe == 36524 * c + rest
    ensures doe / 36524 - doe / 146096 == c
  {
  }

  /** Inside an era the division finds the year whose days contain the given one. */
  lemma YearOfEraByParts(c: int, q: int, r: int, doy: int)
    requires 0 <= c < 4 && 0 <= q < 25 && 0 <= r < 4
    requires 0 <= doy < 365 || (doy == 365 && r == 3 && (q == 24 ==> c == 3))
    ensures YearOfEra(36524 * c + 1461 * q + 365 * r + doy) == 100 * c + 4 * q + r
  {
    var doe := 36524 * c + 1461 * q + 365 * r + doy;
    CenturyDays(c, 1461 * q + 365 * r + doy, doe);
    var over := if 24 * c + q + 365 * r + doy >= 1460 then 1 else 0;
    DivBy1460(doe, 25 * c + q + over);
  }

  lemma YearOfEraCorrect(yoe: int, doy: int)
    requires 0 <= yoe < 400 && 0 <= doy < YearLen(yoe)
    ensures YearOfEra(YearStart(yoe) + doy) == yoe
  {
    hide YearOfEra, YearStart;
    var c, q, r := yoe / 100, yoe % 100 / 4, yoe % 4;
    assert yoe == 100 * c + 4 * q + r;
    YearStartByParts(c, q, r);
    YearOfEraByParts(c, q, r, doy);
  }

  // ---------- From one day to the next ----------

  ghost predicate InEra(yoe: int, doy: int) {
    0 <= yoe < 400 && 0 <= doy < YearLen(yoe)
  }

  /** The day number, counted from 1 March of year 0, of a place in an era. */
  function Place(era: int, yoe: int, doy: int): int {
    146097 * era + YearStart(yoe) + doy
  }

  lemma {:induction false} FindYear(doe: int, from: int) returns (yoe: int)
    requires 0 <= from < 400 && YearStart(from) <= doe < 146097
    ensures InEra(yoe, doe - YearStart(yoe))
    decreases 400 - from
  {
    YearStarts(from);
    if doe < YearStart(from) + YearLen(from) {
      yoe := from;
    } else {
      yoe := FindYear(doe, from + 1);
    }
  }

  lemma InEraBounds(yoe: int, doy: int)
    requires InEra(yoe, doy)
    ensures 0 <= YearStart(yoe) + doy < 146097
  {
  }

  lemma Locate(z: nat) returns (era: int, yoe: int, doy: int)
    ensures InEra(yoe, doy) && Place(era, yoe, doy) == z
  {
    era := z / 146097;
    yoe := FindYear(z % 146097, 0);
    doy := z % 146097 - YearStart(yoe);
  }

  /** The division in the source finds the place, whichever way it is described. */
  lemma CivilAt(days: nat, era: int, yoe: int, doy: int)
    requires InEra(yoe, doy) && Place(era, yoe, doy) == days + 719468
    ensures Civil(days) == CivilOf(era, yoe, doy)
  {
    hide CivilOf, YearOfEra;
    InEraBounds(yoe, doy);
    YearOfEraCorrect(yoe, doy);
    assert (days + 719468) / 146097 == era;
  }

  lemma MonthBounds(doy: int)
    requires 0 <= doy < 366
    ensures var mp := MonthOf(doy);
            0 <= mp <= 11 && MonthStart(mp) <= doy && (mp < 11 ==> doy < MonthStart(mp + 1))
  {
  }

  /** Lengths of the months from March to January. */
  lemma MonthLengths(mp: int, y: int)
    requires 0 <= mp < 11
    ensures MonthStart(mp + 1) - MonthStart(mp) == DaysInMonth(y, if mp < 10 then mp + 3 else mp - 9)
  {
    if
    case mp == 0 => case mp == 1 => case mp == 2 => case mp == 3 => case mp == 4 => case mp == 5 =>
    case mp == 6 => case mp == 7 => case mp == 8 => case mp == 9 => case mp == 10 =>
  }

  lemma NextMonthOf(doy: int)
    requires 0 <= doy < 365
    ensures MonthOf(doy + 1) ==
            if MonthOf(doy) < 11 && doy + 1 == MonthStart(MonthOf(doy) + 1) then MonthOf(doy) + 1 else MonthOf(doy)
  {
  }

  lemma FebruaryLength(era: int, yoe: int)
    requires 0 <= yoe < 400
    ensures DaysInMonth(yoe + 400 * era + 1, 2) == YearLen(yoe) - 337
  {
    hide IsLeap, YearLen;
    ErasRepeat(yoe + 1, era);
    LeapYearIsLong(yoe);
  }

  lemma LeapYearIsLong(yoe: int)
    requires 0 <= yoe < 400
    ensures YearLen(yoe) == if IsLeap(yoe + 1) then 366 else 365
  {
  }

  lemma Shift400(y: int, era: int)
    ensures (y + 400 * era) % 400 == y % 400
  {
  }

  lemma Shift100(y: int, k: int)
    ensures (y + 100 * k) % 100 == y % 100
  {
  }

  lemma Shift4(y: int, k: int)
    ensures (y + 4 * k) % 4 == y % 4
  {
  }

  /** The leap rule repeats every 400 years. */
  lemma ErasRepeat(y: int, era: int)
    ensures IsLeap(y + 400 * era) == IsLeap(y)
  {
    Shift400(y, era);
    Shift100(y, 4 * era);
    Shift4(y, 100 * era);
  }

  lemma NextWithinYear(era: int, yoe: int, doy: int)
    requires InEra(yoe, doy) && doy + 1 < YearLen(yoe)
    ensures NextDay(CivilOf(era, yoe, doy)) == CivilOf(era, yoe, doy + 1)
  {
    hide MonthOf, YearLen, IsLeap;
    assert YearLen(yoe) <= 366 by { YearLenBound(yoe); }
    var mp := MonthOf(doy);
    MonthBounds(doy);
    NextMonthOf(doy);
    if mp < 11 {
      MonthLengths(mp, CivilOf(era, yoe, doy).year);
    } else {
      FebruaryLength(era, yoe);
    }
  }

  lemma YearLenBound(yoe: int)
    ensures 365 <= YearLen(yoe) <= 366
  {
  }

  lemma LastOfYear(era: int, yoe: int)
    requires 0 <= yoe < 400
    ensures NextDay(CivilOf(era, yoe, YearLen(yoe) - 1)) == Date(yoe + 400 * era + 1, 3, 1)
  {
    hide YearLen, IsLeap;
    YearLenBound(yoe);
    FebruaryLength(era, yoe);
    assert MonthOf(YearLen(yoe) - 1) == 11 && MonthStart(11) == 337;
  }

  /** Consecutive day numbers give consecutive calendar dates. */
  lemma CivilNext(days: nat)
    ensures Civil(days + 1) == NextDay(Civil(days))
  {
    hide Civil, CivilOf, YearLen, NextDay;
    var era, yoe, doy := Locate(days + 719468);
    CivilAt(days, era, yoe, doy);
    YearStarts(yoe);
    YearLenBound(yoe);
    if doy + 1 < YearLen(yoe) {
      NextWithinYear(era, yoe, doy);
      CivilAt(days + 1, era, yoe, doy + 1);
    } else {
      LastOfYear(era, yoe);
      if yoe < 399 {
        YearLenBound(yoe + 1);
        CivilAt(days + 1, era, yoe + 1, 0);
        FirstOfMarch(era, yoe + 1);
      } else {
        YearLenBound(0);
        CivilAt(days + 1, era + 1, 0, 0);
        FirstOfMarch(era + 1, 0);
      }
    }
  }

  lemma FirstOfMarch(era: int, yoe: int)
    ensures CivilOf(era, yoe, 0) == Date(yoe + 400 * era, 3, 1)
  {
  }

  /** The conversion is the calendar: it yields the date reached by counting days from the Epoch. */
  lemma {:induction false} CivilIsTheCalendar(days: nat)
    ensures Civil(days) == DateAfter(days)
  {
    hide Civil;
    if days == 0 {
      CivilOfEpoch();
    } else {
      CivilIsTheCalendar(days - 1);
      CivilNext(days - 1);
    }
  }

  lemma CivilOfEpoch()
    ensures Civil(0) == EPOCH
  {
    hide Civil;
    CivilAt(0, 4, 369, 306);
  }

  lemma {:induction false} DateAfterIsDate(n: nat)
    ensures IsDate(DateAfter(n))
  {
    if n > 0 {
      DateAfterIsDate(n - 1);
    }
  }

  // ---------- Day numbers ----------

  function Leaps(y: int): int {
    y / 4 - y / 100 + y / 400
  }

  /** Days from the Epoch to 1 January of a year. */
  function YearBase(y: int): int {
    365 * (y - 1970) + Leaps(y - 1) - Leaps(1969)
  }

  /** Days from 1 January to the first of a month. */
  function MonthBase(y: int, m: int): int
    decreases m
  {
    if m <= 1 then 0 else MonthBase(y, m - 1) + DaysInMonth(y, m - 1)
  }

  function DayNumber(d: Date): int {
    YearBase(d.year) + MonthBase(d.year, d.month) + d.day - 1
  }

  lemma Multiples(y: int)
    ensures y / 4 - (y - 1) / 4 == if y % 4 == 0 then 1 else 0
    ensures y / 100 - (y - 1) / 100 == if y % 100 == 0 then 1 else 0
  {
  }

  lemma Multiples400(y: int)
    ensures y / 400 - (y - 1) / 400 == if y % 400 == 0 then 1 else 0
    ensures y % 400 == 0 ==> y % 100 == 0
    ensures y % 100 == 0 ==> y % 4 == 0
  {
  }

  lemma LeapCount(y: int)
    ensures Leaps(y) - Leaps(y - 1) == if IsLeap(y) then 1 else 0
  {
    Multiples(y);
    Multiples400(y);
  }

  lemma YearDays(y: int)
    ensures MonthBase(y, 13) == YearBase(y + 1) - YearBase(y)
  {
    LeapCount(y);
    assert MonthBase(y, 4) == MonthBase(y, 3) + 31;
    assert MonthBase(y, 7) == MonthBase(y, 6) + 30 == MonthBase(y, 5) + 61 == MonthBase(y, 4) + 91;
    assert MonthBase(y, 10) == MonthBase(y, 9) + 30 == MonthBase(y, 8) + 61 == MonthBase(y, 7) + 92;
    assert MonthBase(y, 13) == MonthBase(y, 12) + 31 == MonthBase(y, 11) + 61 == MonthBase(y, 10) + 92;
  }

  lemma NextDayNumber(d: Date)
    requires IsDate(d)
    ensures DayNumber(NextDay(d)) == DayNumber(d) + 1
  {
    hide YearBase;
    if d.month == 12 && d.day == 31 {
      YearDays(d.year);
    }
  }

  lemma {:induction false} MonthBaseGrows(y: int, m: int, m': int)
    requires 1 <= m <= m' <= 13
    ensures MonthBase(y, m) <= MonthBase(y, m')
    decreases m'
  {
    if m < m' {
      MonthBaseGrows(y, m, m' - 1);
    }
  }

  lemma {:induction false} YearBaseGrows(y: int, y': int)
    requires y <= y'
    ensures YearBase(y) <= YearBase(y')
    decreases y' - y
  {
    hide YearBase;
    if y < y' {
      YearDays(y);
      MonthBaseGrows(y, 1, 13);
      YearBaseGrows(y + 1, y');
    }
  }

  /** A valid date lies inside its month and its year. */
  lemma DayNumberBounds(d: Date)
    requires IsDate(d)
    ensures DayNumber(d) < YearBase(d.year) + MonthBase(d.year, d.month + 1)
    ensures YearBase(d.year) <= DayNumber(d) < YearBase(d.year + 1)
  {
    hide YearBase;
    YearDays(d.year);
    MonthBaseGrows(d.year, 1, d.month);
    MonthBaseGrows(d.year, d.month + 1, 13);
  }

  /** Different valid dates have different day numbers. */
  lemma DayNumberUnique(d: Date, e: Date)
    requires IsDate(d) && IsDate(e) && DayNumber(d) == DayNumber(e)
    ensures d == e
  {
    hide YearBase, DaysInMonth, MonthBase;
    DayNumberBounds(d);
    DayNumberBounds(e);
    if d.year < e.year {
      YearBaseGrows(d.year + 1, e.year);
    } else if e.year < d.year {
      YearBaseGrows(e.year + 1, d.year);
    } else if d.month < e.month {
      MonthBaseGrows(d.year, d.month + 1, e.month);
    } else if e.month < d.month {
      MonthBaseGrows(d.year, e.month + 1, d.month);
    }
  }

  /** For every day number the conversion yields the one valid date with that number. */
  lemma {:induction false} CivilIsUnique(days: nat)
    ensures IsDate(Civil(days)) && DayNumber(Civil(days)) == days
    ensures forall d :: IsDate(d) && DayNumber(d) == days ==> d == Civil(days)
  {
    hide Civil, DayNumber, IsDate, NextDay;
    CivilIsTheCalendar(days);
    DateAfterIsDate(days);
    NumberOfDateAfter(days);
    forall d | IsDate(d) && DayNumber(d) == days
      ensures d == Civil(days)
    {
      DayNumberUnique(d, Civil(days));
    }
  }

  lemma {:induction false} NumberOfDateAfter(n: nat)
    ensures DayNumber(DateAfter(n)) == n
  {
    hide NextDay;
    if n > 0 {
      NumberOfDateAfter(n - 1);
      DateAfterIsDate(n - 1);
      NextDayNumber(DateAfter(n - 1));
    }
  }

  // ---------- Local time ----------

  const OFFSET := 28800
  const DAY := 86400

  /** The date that the local day of a moment really has. */
  function LocalDate(timestamp: nat): Date {
    DateAfter((timestamp + OFFSET) / DAY)
  }

  method DateOfDay(days: nat) returns (y: int, m: int, d: int)
    ensures Date(y, m, d) == Civil(days)
  {
    var z := days + 719468;
    var era := z / 146097;
    var doe := z - era * 146097;
    var yoe := (doe - doe / 1460 + doe / 36524 - doe / 146096) / 365;
    y := yoe + era * 400;
    var doy := doe - (365 * yoe + yoe / 4 - yoe / 100);
    var mp := (5 * doy + 2) / 153;
    d := doy - (153 * mp + 2) / 5 + 1;
    if mp < 10 {
      m := mp + 3;
    } else {
      m := mp - 9;
      y := y + 1;
    }
  }

  /** The eight hours are added in 32-bit arithmetic; the results are narrowed to 16 and 8 bits. */
  method TimestampToLocal(timestamp: nat) returns (year: int, month: int, day: int, hour: int, minute: int)
    requires timestamp < TWO_32
    ensures var local := (timestamp + OFFSET) % TWO_32;
            && Date(year, month, day) == DateAfter(local / DAY)
            && 0 <= hour < 24 && 0 <= minute < 60
            && 0 <= local % DAY - 3600 * hour - 60 * minute < 60
    ensures timestamp + OFFSET < TWO_32 ==> Date(year, month, day) == LocalDate(timestamp)
  {
    hide Civil, DateAfter;
    var local := (timestamp + OFFSET) % TWO_32;
    var days := local / DAY;
    var secs := local % DAY;
    var y, m, d := DateOfDay(days);
    CivilIsTheCalendar(days);
    CivilFitsOutputs(days);
    year, month, day := y % 0x1_0000, m % 256, d % 256;
    hour := (secs / 3600) % 256;
    minute := (secs % 3600 / 60) % 256;
  }

  /** Years up to 2106 and the other fields survive the narrowing casts. */
  lemma CivilFitsOutputs(days: nat)
    requires days <= (TWO_32 - 1) / DAY
    ensures var d := Civil(days); 0 <= d.year < 0x1_0000 && 1 <= d.month <= 12 && 1 <= d.day <= 31
  {
    hide Civil, YearBase;
    CivilIsUnique(days);
    var d := Civil(days);
    DayNumberBounds(d);
    if d.year < 1970 {
      YearBaseGrows(d.year + 1, 1970);
    } else if d.year > 2200 {
      YearBaseGrows(2200, d.year);
    }
    assert YearBase(1970) == 0 && YearBase(2200) == 84006 by { YearBases(); }
  }

  lemma YearBases()
    ensures YearBase(1970) == 0 && YearBase(2200) == 84006
  {
  }

  /** Near the end of the 32-bit range the added eight hours wrap, and exactly then the date is wrong. */
  lemma DateWrongOnlyOnOverflow(timestamp: nat)
    requires timestamp < TWO_32
    ensures DateAfter((timestamp + OFFSET) % TWO_32 / DAY) == LocalDate(timestamp) <==> timestamp + OFFSET < TWO_32
  {
    hide DateAfter;
    var shown, actual := (timestamp + OFFSET) % TWO_32 / DAY, (timestamp + OFFSET) / DAY;
    NumberOfDateAfter(shown);
    NumberOfDateAfter(actual);
  }
}
