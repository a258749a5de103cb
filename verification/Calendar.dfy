/** Dates from Unix time: the era arithmetic of the formatter against the Gregorian calendar itself. */
module Calendar {
  import opened Machine
  import opened Division

  datatype Date = Date(year: int, month: int, day: int)

  // --- The Gregorian calendar ---

  predicate IsLeap(y: int) {
    y % 4 == 0 && (y % 100 != 0 || y % 400 == 0)
  }

  function YearLength(y: int): int {
    if IsLeap(y) then 366 else 365
  }

  function DaysInMonth(y: int, m: int): int {
    if m == 2 then if IsLeap(y) then 29 else 28
    else if m == 4 || m == 6 || m == 9 || m == 11 then 30 else 31
  }

  predicate IsDate(t: Date) {
    1 <= t.month <= 12 && 1 <= t.day <= DaysInMonth(t.year, t.month)
  }

  function NextDay(t: Date): Date {
    if t.day < DaysInMonth(t.year, t.month) then t.(day := t.day + 1)
    else if t.month < 12 then Date(t.year, t.month + 1, 1)
    else Date(t.year + 1, 1, 1)
  }

  /** Leap years up to and including `y`, counted from the year 0. */
  function Leaps(y: int): int {
    y / 4 - y / 100 + y / 400
  }

  /** The day number of the first of January, from that of 1970. */
  function YearStart(y: int): int {
    365 * (y - 1970) + Leaps(y - 1) - Leaps(1969)
  }

  /** Days of a common year before a month. */
  function CommonBefore(m: int): int {
    if m <= 1 then 0 else if m == 2 then 31 else if m == 3 then 59 else if m == 4 then 90
    else if m == 5 then 120 else if m == 6 then 151 else if m == 7 then 181 else if m == 8 then 212
    else if m == 9 then 243 else if m == 10 then 273 else if m == 11 then 304 else 334
  }

  function MonthStart(y: int, m: int): int {
    CommonBefore(m) + if m > 2 && IsLeap(y) then 1 else 0
  }

  function DaysFromCivil(t: Date): int {
    YearStart(t.year) + MonthStart(t.year, t.month) + t.day - 1
  }

  lemma QuotientStep(y: int, d: int)
    requires d > 1
    ensures y / d == (y - 1) / d + if y % d == 0 then 1 else 0
  {
    var q, r := y / d, y % d;
    assert y == q * d + r;
    if r == 0 {
      assert (q - 1) * d == q * d - d;
      DivUnique(y - 1, d, q - 1, d - 1);
    } else {
      DivUnique(y - 1, d, q, r - 1);
    }
  }

  lemma YearStartStep(y: int)
    ensures YearStart(y + 1) == YearStart(y) + YearLength(y)
  {
    QuotientStep(y, 4);
    QuotientStep(y, 100);
    QuotientStep(y, 400);
    assert (y % 100 == 0 ==> y % 4 == 0) && (y % 400 == 0 ==> y % 100 == 0);
  }

  lemma MonthStartStep(y: int, m: int)
    requires 1 <= m <= 12
    ensures MonthStart(y, m) + DaysInMonth(y, m) == if m < 12 then MonthStart(y, m + 1) else YearLength(y)
  {
  }

  lemma {:induction false} MonthsApart(y: int, m: int, n: int)
    requires 1 <= m <= n <= 12
    ensures m < n ==> MonthStart(y, m) + DaysInMonth(y, m) <= MonthStart(y, n)
    ensures MonthStart(y, m) + DaysInMonth(y, m) <= YearLength(y)
    decreases 12 - m
  {
    MonthStartStep(y, m);
    hide MonthStart;
    if m < n {
      MonthsApart(y, m + 1, n);
    } else if m < 12 {
      MonthsApart(y, m + 1, 12);
    }
  }

  lemma {:induction false} YearsApart(y: int, z: int)
    requires y <= z
    ensures YearStart(y) <= YearStart(z)
    ensures y < z ==> YearStart(y) + YearLength(y) <= YearStart(z)
    decreases z - y
  {
    hide YearStart;
    if y < z {
      YearStartStep(y);
      YearsApart(y + 1, z);
    }
  }

  lemma WithinYear(t: Date)
    requires IsDate(t)
    ensures 0 <= DaysFromCivil(t) - YearStart(t.year) < YearLength(t.year)
  {
    MonthsApart(t.year, t.month, 12);
    hide YearStart;
  }

  /** Different dates have different day numbers. */
  lemma DatesDiffer(a: Date, b: Date)
    requires IsDate(a) && IsDate(b) && DaysFromCivil(a) == DaysFromCivil(b)
    ensures a == b
  {
    WithinYear(a);
    WithinYear(b);
    hide YearStart;
    if a.year < b.year {
      YearsApart(a.year, b.year);
    } else if b.year < a.year {
      YearsApart(b.year, a.year);
    }
    assert a.year == b.year;
    if a.month < b.month {
      MonthsApart(a.year, a.month, b.month);
    } else if b.month < a.month {
      MonthsApart(a.year, b.month, a.month);
    }
  }

  lemma NextDayCounts(t: Date)
    requires IsDate(t)
    ensures IsDate(NextDay(t)) && DaysFromCivil(NextDay(t)) == DaysFromCivil(t) + 1
  {
    MonthStartStep(t.year, t.month);
    YearStartStep(t.year);
    hide YearStart;
  }

  // --- The era arithmetic ---

  /** Division that rounds toward zero. */
  function Quot(a: int, b: int): int
    requires b > 0
  {
    if a >= 0 then a / b else -((-a) / b)
  }

  function Era(z: int): int {
    Quot(if z >= 0 then z else z - 146_096, 146_097)
  }

  function YearOfEra(doe: int): int {
    (doe - doe / 1460 + doe / 36524 - doe / 146_096) / 365
  }

  /** Days of an era before one of its years, a year running from March to February. */
  function EraYearStart(yoe: int): int {
    365 * yoe + yoe / 4 - yoe / 100
  }

  function MonthOfYear(doy: int): int {
    (5 * doy + 2) / 153
  }

  /** The date of a day of the year that starts in March of `y`. */
  function FromMarch(y: int, doy: int): Date {
    var mp := MonthOfYear(doy);
    var m := if mp < 10 then mp + 3 else mp - 9;
    Date(y + (if m <= 2 then 1 else 0), m, doy - (153 * mp + 2) / 5 + 1)
  }

  /** `civil_from_days`, before the year is narrowed. */
  function CivilDate(day: int): Date {
    var z := day + 719_468;
    var doe := z - Era(z) * 146_097;
    var yoe := YearOfEra(doe);
    FromMarch(yoe + Era(z) * 400, doe - EraYearStart(yoe))
  }

  /** Although the division truncates, the era is the floor, on both sides of zero. */
  lemma EraIsFloor(z: int)
    ensures Era(z) == z / 146_097
    ensures 0 <= z - Era(z) * 146_097 < 146_097
  {
  }

  /** The year of the era, from the century, the four-year cycle and the day in the cycle. */
  function YearIn(c: int, q: int, s: int): int {
    100 * c + 4 * q + if s < 1095 then s / 365 else 3
  }

  lemma YearOfEraByParts(c: int, q: int, s: int)
    requires 0 <= c < 4 && 0 <= q < 25 && 0 <= s < 1461 && 1461 * q + s < 36524
    ensures YearOfEra(36524 * c + 1461 * q + s) == YearIn(c, q, s)
  {
    var doe := 36524 * c + 1461 * q + s;
    var late := if 24 * c + q + s >= 1460 then 1 else 0;
    DivUnique(doe, 36524, c, 1461 * q + s);
    DivUnique(doe, 1460, 25 * c + q + late, 24 * c + q + s - 1460 * late);
    DivUnique(doe, 146_096, 0, doe);
    assert doe - doe / 1460 + doe / 36524 - doe / 146_096 == 365 * (100 * c + 4 * q) + s - late;
    var t := YearIn(c, q, s) - 100 * c - 4 * q;
    DivUnique(365 * (100 * c + 4 * q) + s - late, 365, 100 * c + 4 * q + t, s - late - 365 * t);
  }

  lemma EraYearStartByParts(c: int, q: int, t: int)
    requires 0 <= q < 25 && 0 <= t < 4
    ensures EraYearStart(100 * c + 4 * q + t) == 36524 * c + 1461 * q + 365 * t
  {
    DivUnique(100 * c + 4 * q + t, 4, 25 * c + q, t);
    DivUnique(100 * c + 4 * q + t, 100, c, 4 * q + t);
  }

  /** The year of the era is the one the day falls in, leap days and all. */
  lemma YearOfEraIs(doe: int)
    requires 0 <= doe < 146_097
    ensures 0 <= YearOfEra(doe) < 400
    ensures EraYearStart(YearOfEra(doe)) <= doe
    ensures doe < (if YearOfEra(doe) == 399 then 146_097 else EraYearStart(YearOfEra(doe) + 1))
  {
    if doe == 146_096 {
      assert YearOfEra(doe) == 399 && EraYearStart(399) == 145_731;
    } else {
      var c := doe / 36524;
      var r := doe % 36524;
      var q, d := r / 1461, r % 1461;
      assert doe == 36524 * c + 1461 * q + d;
      YearOfEraByParts(c, q, d);
      var t := if d < 1095 then d / 365 else 3;
      EraYearStartByParts(c, q, t);
      if t < 3 {
        EraYearStartByParts(c, q, t + 1);
      } else if q < 24 {
        EraYearStartByParts(c, q + 1, 0);
      } else {
        EraYearStartByParts(c + 1, 0, 0);
      }
      hide YearOfEra, EraYearStart;
    }
  }

  /** The month and day of a day of the year, the year starting in March. */
  lemma MonthOfYearIs(doy: int, y: int)
    requires 0 <= doy < 365 || (doy == 365 && IsLeap(y + 1))
    ensures var mp := MonthOfYear(doy);
            var m, d := if mp < 10 then mp + 3 else mp - 9, doy - (153 * mp + 2) / 5 + 1;
            && 0 <= mp < 12
            && 1 <= d <= DaysInMonth(if m <= 2 then y + 1 else y, m)
            && (153 * mp + 2) / 5 == if m <= 2 then 306 + CommonBefore(m) else CommonBefore(m) - 59
  {
    var mp := MonthOfYear(doy);
    assert 153 * mp <= 5 * doy + 2 < 153 * mp + 153;
  }

  /** The day number of the first of March. */
  lemma MarchFirst(y: int)
    ensures YearStart(y) + MonthStart(y, 3) == 365 * y + Leaps(y) - 719_468
  {
    YearStartStep(y);
  }

  lemma EraYears(era: int, yoe: int)
    requires 0 <= yoe < 400
    ensures 365 * (400 * era + yoe) + Leaps(400 * era + yoe) == 146_097 * era + EraYearStart(yoe)
  {
    var y := 400 * era + yoe;
    DivUnique(y, 400, era, yoe);
    DivUnique(y, 100, 4 * era + yoe / 100, yoe % 100);
    DivUnique(y, 4, 100 * era + yoe / 4, yoe % 4);
  }

  /** The last day of a March year past 365 is a leap day. */
  lemma LeapYearOfEra(era: int, yoe: int)
    requires 0 <= yoe < 400
    requires (if yoe == 399 then 146_097 else EraYearStart(yoe + 1)) - EraYearStart(yoe) > 365
    ensures IsLeap(400 * era + yoe + 1)
  {
    var y := yoe + 1;
    if yoe < 399 {
      QuotientStep(y, 4);
      QuotientStep(y, 100);
    }
    LeapInEra(era, y);
  }

  lemma LeapInEra(era: int, y: int)
    ensures IsLeap(400 * era + y) <==> IsLeap(y)
  {
    ModAdd(100 * era, 4, y);
    ModAdd(4 * era, 100, y);
    ModAdd(era, 400, y);
  }

  lemma EraYearLength(yoe: int)
    requires 0 <= yoe < 400
    ensures (if yoe == 399 then 146_097 else EraYearStart(yoe + 1)) - EraYearStart(yoe) <= 366
  {
  }

  lemma FromMarchIs(y: int, doy: int)
    requires 0 <= doy < 365 || (doy == 365 && IsLeap(y + 1))
    ensures IsDate(FromMarch(y, doy))
    ensures DaysFromCivil(FromMarch(y, doy)) == YearStart(y) + MonthStart(y, 3) + doy
  {
    MonthOfYearIs(doy, y);
    MarchToJanuary(y);
    hide MonthOfYear, YearStart, IsLeap, CommonBefore, DaysInMonth;
  }

  /** Where a day lies in its era. */
  lemma DayOfEra(z: int, era: int, yoe: int, doy: int)
    requires era == Era(z) && yoe == YearOfEra(z - era * 146_097) && doy == z - era * 146_097 - EraYearStart(yoe)
    ensures 0 <= doy < 365 || (doy == 365 && IsLeap(400 * era + yoe + 1))
    ensures YearStart(400 * era + yoe) + MonthStart(400 * era + yoe, 3) + doy == z - 719_468
  {
    EraIsFloor(z);
    YearOfEraIs(z - era * 146_097);
    EraYearLength(yoe);
    MarchFirst(400 * era + yoe);
    EraYears(era, yoe);
    hide Era, YearOfEra, EraYearStart, YearStart, Leaps, IsLeap, MonthStart;
    if doy == 365 {
      LeapYearOfEra(era, yoe);
    }
  }

  /** Every day number gives a date of the calendar, and that date's day number. */
  lemma CivilIsDate(day: int)
    ensures IsDate(CivilDate(day)) && DaysFromCivil(CivilDate(day)) == day
  {
    hide Era, YearOfEra, EraYearStart, YearStart, IsLeap, MonthStart, FromMarch, IsDate, DaysFromCivil;
    var z := day + 719_468;
    var era := Era(z);
    var yoe := YearOfEra(z - era * 146_097);
    var doy := z - era * 146_097 - EraYearStart(yoe);
    DayOfEra(z, era, yoe, doy);
    FromMarchIs(400 * era + yoe, doy);
  }

  lemma MarchToJanuary(y: int)
    ensures YearStart(y + 1) == YearStart(y) + MonthStart(y, 3) + 306
    ensures CommonBefore(1) == 0 && CommonBefore(2) == 31 && CommonBefore(3) == 59
  {
    YearStartStep(y);
    hide YearStart;
  }

  /** Conversely, every date is the one of its day number. */
  lemma DateIsCivil(t: Date)
    requires IsDate(t)
    ensures CivilDate(DaysFromCivil(t)) == t
  {
    hide CivilDate, DaysFromCivil, IsDate;
    CivilIsDate(DaysFromCivil(t));
    DatesDiffer(CivilDate(DaysFromCivil(t)), t);
  }

  /** Consecutive day numbers give consecutive dates. */
  lemma NextDayIsCivil(day: int)
    ensures CivilDate(day + 1) == NextDay(CivilDate(day))
  {
    hide CivilDate, DaysFromCivil, IsDate, NextDay;
    CivilIsDate(day);
    CivilIsDate(day + 1);
    NextDayCounts(CivilDate(day));
    DatesDiffer(CivilDate(day + 1), NextDay(CivilDate(day)));
  }

  lemma Epoch()
    ensures CivilDate(0) == Date(1970, 1, 1)
  {
    hide CivilDate;
    assert DaysFromCivil(Date(1970, 1, 1)) == 0;
    DateIsCivil(Date(1970, 1, 1));
  }

  // --- Narrowing and time of day ---

  const I32_MIN := -0x8000_0000
  const I32_MAX := 0x7FFF_FFFF

  function ToI32(y: int): int {
    (y + 0x8000_0000) % 0x1_0000_0000 - 0x8000_0000
  }

  /** `civil_from_days`. */
  function CivilFromDays(day: int): Date {
    var t := CivilDate(day);
    t.(year := ToI32(t.year))
  }

  lemma ToI32Keeps(y: int)
    ensures ToI32(y) == y <==> I32_MIN <= y <= I32_MAX
  {
  }

  /** The order of days is the order of years. */
  lemma YearByDay(day: int, y: int)
    ensures CivilDate(day).year >= y <==> day >= YearStart(y)
  {
    CivilIsDate(day);
    var t := CivilDate(day);
    WithinYear(t);
    hide CivilDate, YearStart, DaysFromCivil, IsDate;
    if t.year >= y {
      YearsApart(y, t.year);
    } else {
      YearsApart(t.year, y);
    }
  }

  /** The narrowed date is the date of the day exactly from the first to the last day of the 32-bit years. */
  lemma NarrowedExactly(day: int)
    ensures CivilFromDays(day) == CivilDate(day) <==> YearStart(I32_MIN) <= day < YearStart(I32_MAX + 1)
  {
    hide CivilDate, YearStart, ToI32;
    YearByDay(day, I32_MIN);
    YearByDay(day, I32_MAX + 1);
    ToI32Keeps(CivilDate(day).year);
  }

  /** The first second of the year 2^31, well within 64 bits, is dated to the year -2^31. */
  lemma YearWraps()
    ensures var day := YearStart(I32_MAX + 1);
            && 86_400 * day < 0x8000_0000_0000_0000
            && CivilDate(day) == Date(0x8000_0000, 1, 1)
            && CivilFromDays(day) == Date(-0x8000_0000, 1, 1)
  {
    hide CivilDate;
    assert DaysFromCivil(Date(I32_MAX + 1, 1, 1)) == YearStart(I32_MAX + 1);
    DateIsCivil(Date(I32_MAX + 1, 1, 1));
  }

  datatype Moment = Moment(date: Date, hour: int, minute: int, second: int)

  /** `unix_to_utc`: Euclidean steps, so that instants before 1970 come out right. */
  method UnixToUtc(secs: int) returns (t: Moment)
    ensures 0 <= t.second < 60 && 0 <= t.minute < 60 && 0 <= t.hour < 24
    ensures t.date == CivilFromDays(secs / 86_400)
    ensures YearStart(I32_MIN) <= secs / 86_400 < YearStart(I32_MAX + 1) ==>
              IsDate(t.date) && 86_400 * DaysFromCivil(t.date) + 3600 * t.hour + 60 * t.minute + t.second == secs
  {
    hide CivilFromDays, CivilDate, YearStart, IsDate, DaysFromCivil;
    var rest := secs;
    var second := rest % 60;
    rest := rest / 60;
    var minute := rest % 60;
    rest := rest / 60;
    var hour := rest % 24;
    var days := rest / 24;
    DivUnique(secs, 86_400, days, 3600 * hour + 60 * minute + second);
    NarrowedExactly(days);
    CivilIsDate(days);
    t := Moment(CivilFromDays(days), hour, minute, second);
  }
}
