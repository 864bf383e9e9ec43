/** The three branch-free day-number functions of C++/types/time.h, over unbounded integers, and
    the calendar they compute.

    C++ division truncates toward zero and `unsigned` arithmetic wraps at 2^32; both are written
    out here. */
module CivilCalendar {

  // ---------- The proleptic Gregorian calendar, independent of the code ----------

  datatype Date = Date(y: int, m: int, d: int)

  predicate IsLeap(y: int) {
    y % 4 == 0 && (y % 100 != 0 || y % 400 == 0)
  }

  function YearLength(y: int): int {
    if IsLeap(y) then 366 else 365
  }

  function DaysInMonth(y: int, m: int): int {
    if m == 2 then (if IsLeap(y) then 29 else 28)
    else if m == 4 || m == 6 || m == 9 || m == 11 then 30
    else 31
  }

  predicate ValidDate(t: Date) {
    1 <= t.m <= 12 && 1 <= t.d <= DaysInMonth(t.y, t.m)
  }

  /** The next day of the calendar: day, month and year roll over in turn. */
  function NextDay(t: Date): Date {
    if t.d < DaysInMonth(t.y, t.m) then Date(t.y, t.m, t.d + 1)
    else if t.m < 12 then Date(t.y, t.m + 1, 1)
    else Date(t.y + 1, 1, 1)
  }

  /** Days from 1970-01-01 to the first of January of `y`, counted year by year. */
  function DaysToYear(y: int): int
    decreases if y >= 1970 then y - 1970 else 1970 - y
  {
    if y == 1970 then 0
    else if y > 1970 then DaysToYear(y - 1) + YearLength(y - 1)
    else DaysToYear(y + 1) - YearLength(y)
  }

  /** Days of the year `y` before its month `m`, counted month by month. */
  function DaysToMonth(y: int, m: int): int
    requires 1 <= m <= 12
    decreases m
  {
    if m == 1 then 0 else DaysToMonth(y, m - 1) + DaysInMonth(y, m - 1)
  }

  function DayNumber(t: Date): int
    requires ValidDate(t)
  {
    DaysToYear(t.y) + DaysToMonth(t.y, t.m) + t.d - 1
  }

  // ---------- The code ----------

  const UNSIGNED_RANGE: int := 0x1_0000_0000

  /** C++ integer division. */
  function TruncDiv(a: int, b: int): int
    requires b > 0
  {
    if a >= 0 then a / b else -((-a) / b)
  }

  /** C++ integer remainder. */
  function TruncMod(a: int, b: int): int
    requires b > 0
  {
    a - b * TruncDiv(a, b)
  }

  /** A value converted to `unsigned`. */
  function Unsigned(x: int): int {
    x % UNSIGNED_RANGE
  }

  function DaysFromCivil(t: Date): int
    requires ValidDate(t)
  {
    var y := if t.m <= 2 then t.y - 1 else t.y;
    var era := TruncDiv(if y >= 0 then y else y - 399, 400);
    var yoe := Unsigned(y - era * 400);
    var doe := YearOfEraStart(yoe) + DayOfYear(t.m, t.d);
    era * 146097 + doe - 719468
  }

  /** The first day of the year `yoe` of an era. */
  function YearOfEraStart(yoe: int): int {
    yoe * 365 + yoe / 4 - yoe / 100
  }

  /** The day of the year, counted from March. */
  function DayOfYear(m: int, d: int): int {
    (153 * Unsigned(m + (if m > 2 then -3 else 9)) + 2) / 5 + d - 1
  }

  function CivilFromDays(z0: int): Date {
    var z := z0 + 719468;
    var era := TruncDiv(if z >= 0 then z else z - 146096, 146097);
    var t := DateOfEra(Unsigned(z - era * 146097));
    t.(y := t.y + era * 400)
  }

  /** The unsigned part of civil_from_days: the date of a day of an era, in that era's own
      years. */
  function DateOfEra(doe: int): Date {
    var yoe := YearOfEra(doe);
    var (m, d) := MonthAndDay(Unsigned(doe - YearOfEraStart(yoe)));
    Date(if m <= 2 then yoe + 1 else yoe, m, d)
  }

  function YearOfEra(doe: int): int {
    (doe - doe / 1460 + doe / 36524 - doe / 146096) / 365
  }

  function MonthAndDay(doy: int): (int, int) {
    var mp := (5 * doy + 2) / 153;
    (Unsigned(mp + (if mp < 10 then 3 else -9)), Unsigned(doy - (153 * mp + 2) / 5 + 1))
  }

  function WeekdayFromDays(z: int): int {
    Unsigned(if z >= -4 then TruncMod(z + 4, 7) else TruncMod(z + 5, 7) + 6)
  }

  // ---------- The era: 400 years counted from the first of March ----------

  /** Whether the year `yoe`, counted from March, ends with a 29th of February. */
  predicate EndsLeap(yoe: int) {
    (yoe + 1) % 4 == 0 && ((yoe + 1) % 100 != 0 || (yoe + 1) % 400 == 0)
  }

  predicate InYearOfEra(yoe: int, doy: int) {
    0 <= yoe < 400 && 0 <= doy < (if EndsLeap(yoe) then 366 else 365)
  }

  /** A year of the era in centuries, leap cycles and years. */
  lemma YearSplit(yoe: int) returns (c: int, q: int, r: int)
    requires 0 <= yoe < 400
    ensures 0 <= c <= 3 && 0 <= q <= 24 && 0 <= r <= 3 && yoe == 100 * c + 4 * q + r
    ensures YearOfEraStart(yoe) == 36524 * c + 1461 * q + 365 * r
    ensures EndsLeap(yoe) ==> r == 3 && (q < 24 || c == 3)
  {
    c, q, r := yoe / 100, yoe % 100 / 4, yoe % 4;
    assert yoe / 4 == 25 * c + q;
  }

  /** The corrections take away the leap days of the years passed, and no more. */
  lemma Corrections(c: int, q: int, r: int, doy: int) returns (e: int)
    requires 0 <= c <= 3 && 0 <= q <= 24 && 0 <= r <= 3 && 0 <= doy <= 365
    requires doy == 365 ==> r == 3 && (q < 24 || c == 3)
    ensures var doe := 36524 * c + 1461 * q + 365 * r + doy;
            0 <= doe <= 146096 && 0 <= doy - e <= 364
            && doe - doe / 1460 + doe / 36524 - doe / 146096
               == 365 * (100 * c + 4 * q + r) + (doy - e)
  {
    var doe := 36524 * c + 1461 * q + 365 * r + doy;
    e := if 24 * c + q + 365 * r + doy >= 1460 then 1 else 0;
    assert doe == 1460 * (25 * c + q) + (24 * c + q + 365 * r + doy);
    assert doe / 1460 == 25 * c + q + e;
    var s := if doe == 146096 then 1 else 0;
    assert doe / 146096 == s;
    assert 1461 * q + 365 * r + doy <= 36524;
    assert doe / 36524 == c + s;
    assert 0 <= doy - e <= 364;
  }

  /** The nested divisions of civil_from_days find the year. */
  lemma YearOfEraFound(yoe: int, doy: int)
    requires InYearOfEra(yoe, doy)
    ensures var doe := YearOfEraStart(yoe) + doy;
            0 <= doe <= 146096 && YearOfEra(doe) == yoe
  {
    var c, q, r := YearSplit(yoe);
    var e := Corrections(c, q, r, doy);
  }

  /** Every day of an era lies in exactly one of its years. */
  lemma YearOfEraExists(doe: int) returns (yoe: int, doy: int)
    requires 0 <= doe <= 146096
    ensures InYearOfEra(yoe, doy) && doe == YearOfEraStart(yoe) + doy
  {
    var c := if doe == 146096 then 3 else doe / 36524;
    var r1 := doe - 36524 * c;
    var q := r1 / 1461;
    var r2 := r1 - 1461 * q;
    var r := if r2 == 1460 then 3 else r2 / 365;
    assert 0 <= c <= 3 && 0 <= q <= 24 && 0 <= r <= 3;
    yoe, doy := 100 * c + 4 * q + r, r2 - 365 * r;
    assert yoe / 4 == 25 * c + q && yoe / 100 == c;
  }

  /** Whether the month `mp`, counted from March, has a day `d`; February is the last month
      and takes what the year leaves. */
  predicate InMonthFromMarch(mp: int, d: int) {
    0 <= mp <= 11 && 1 <= d <=
    (if mp == 11 then 29 else if mp == 1 || mp == 3 || mp == 6 || mp == 8 then 30 else 31)
  }

  /** The month formula and its inverse. */
  lemma MonthFromMarchFound(mp: int, d: int)
    requires InMonthFromMarch(mp, d)
    ensures var doy := (153 * mp + 2) / 5 + d - 1;
            0 <= doy <= 365 && (5 * doy + 2) / 153 == mp && (mp == 11 ==> doy == 336 + d)
            && (mp < 11 ==> doy <= 336)
  {
  }

  lemma MonthFromMarchExists(doy: int) returns (mp: int, d: int)
    requires 0 <= doy <= 365
    ensures InMonthFromMarch(mp, d) && doy == (153 * mp + 2) / 5 + d - 1
  {
    mp := (5 * doy + 2) / 153;
    d := doy - (153 * mp + 2) / 5 + 1;
  }

  /** The date at a place in the March-based count. */
  function DateAt(era: int, yoe: int, mp: int, d: int): Date {
    Date(era * 400 + yoe + (if mp < 10 then 0 else 1), if mp < 10 then mp + 3 else mp - 9, d)
  }

  predicate IsPlace(yoe: int, mp: int, d: int) {
    InMonthFromMarch(mp, d) && InYearOfEra(yoe, (153 * mp + 2) / 5 + d - 1)
  }

  function PlaceDay(era: int, yoe: int, mp: int, d: int): int {
    era * 146097 + YearOfEraStart(yoe) + ((153 * mp + 2) / 5 + d - 1) - 719468
  }

  lemma EraLeap(era: int, yoe: int)
    requires 0 <= yoe < 400
    ensures IsLeap(era * 400 + yoe + 1) <==> EndsLeap(yoe)
  {
    RemainderShift(yoe + 1, 4, 100 * era);
    RemainderShift(yoe + 1, 100, 4 * era);
    RemainderShift(yoe + 1, 400, era);
  }

  lemma RemainderShift(b: int, n: int, k: int)
    requires n > 0
    ensures (k * n + b) % n == b % n
  {
    var q, r := b / n, b % n;
    assert b == n * q + r;
    assert k * n + b == (k + q) * n + r;
    QuotientUnique(k * n + b, n, k + q, r);
  }

  /** Places and valid dates are the same thing. */
  lemma PlaceIsValid(era: int, yoe: int, mp: int, d: int)
    requires IsPlace(yoe, mp, d)
    ensures ValidDate(DateAt(era, yoe, mp, d))
  {
    EraLeap(era, yoe);
    MonthFromMarchFound(mp, d);
  }

  lemma ValidHasPlace(t: Date) returns (era: int, yoe: int, mp: int)
    requires ValidDate(t)
    ensures IsPlace(yoe, mp, t.d) && t == DateAt(era, yoe, mp, t.d)
  {
    mp := if t.m > 2 then t.m - 3 else t.m + 9;
    var y := if t.m <= 2 then t.y - 1 else t.y;
    era, yoe := y / 400, y % 400;
    EraLeap(era, yoe);
    MonthFromMarchFound(mp, t.d);
  }

  /** The era expression rounds down, for any length `n` of an era. */
  lemma EraRoundsDown(era: int, x: int, n: int)
    requires 0 <= x < n
    ensures var y := era * n + x;
            TruncDiv(if y >= 0 then y else y - (n - 1), n) == era
  {
    var y := era * n + x;
    if y >= 0 {
      QuotientUnique(y, n, era, x);
    } else {
      assert -(y - (n - 1)) == (-era) * n + (n - 1 - x);
      QuotientUnique(-(y - (n - 1)), n, -era, n - 1 - x);
    }
  }

  lemma MultipleOrder(k: int, n: int)
    requires n > 0
    ensures k >= 1 ==> n * k >= n
    ensures k <= -1 ==> n * k <= -n
  {
    if k >= 1 {
      assert n * (k - 1) >= 0;
    } else if k <= -1 {
      assert n * (-1 - k) >= 0;
    }
  }

  lemma QuotientUnique(a: int, n: int, q: int, r: int)
    requires 0 <= r < n && a == q * n + r
    ensures a / n == q && a % n == r
  {
    var q', r' := a / n, a % n;
    assert a == n * q' + r';
    assert n * (q' - q) == r - r';
    MultipleOrder(q' - q, n);
  }

  lemma UnsignedSmall(x: int)
    requires 0 <= x < UNSIGNED_RANGE
    ensures Unsigned(x) == x
  {
  }

  lemma DaysFromCivilAt(era: int, yoe: int, mp: int, d: int)
    requires IsPlace(yoe, mp, d)
    ensures ValidDate(DateAt(era, yoe, mp, d))
    ensures DaysFromCivil(DateAt(era, yoe, mp, d)) == PlaceDay(era, yoe, mp, d)
  {
    PlaceIsValid(era, yoe, mp, d);
    EraRoundsDown(era, yoe, 400);
    UnsignedSmall(yoe);
    UnsignedSmall(mp);
  }

  lemma MonthAndDayAt(mp: int, d: int)
    requires InMonthFromMarch(mp, d)
    ensures 0 <= (153 * mp + 2) / 5 + d - 1 <= 365
    ensures MonthAndDay((153 * mp + 2) / 5 + d - 1) == (if mp < 10 then mp + 3 else mp - 9, d)
  {
    MonthFromMarchFound(mp, d);
    UnsignedSmall(d);
    UnsignedSmall(if mp < 10 then mp + 3 else mp - 9);
  }

  lemma DateOfEraAt(yoe: int, mp: int, d: int)
    requires IsPlace(yoe, mp, d)
    ensures var doe := YearOfEraStart(yoe) + ((153 * mp + 2) / 5 + d - 1);
            0 <= doe <= 146096 && DateOfEra(doe) == DateAt(0, yoe, mp, d)
  {
    var doy := (153 * mp + 2) / 5 + d - 1;
    YearOfEraFound(yoe, doy);
    MonthAndDayAt(mp, d);
    UnsignedSmall(doy);
  }

  lemma EraSplit(era: int, doe: int, t: Date)
    requires 0 <= doe <= 146096 && DateOfEra(doe) == t
    ensures CivilFromDays(era * 146097 + doe - 719468) == t.(y := t.y + era * 400)
  {
    EraRoundsDown(era, doe, 146097);
    UnsignedSmall(doe);
  }

  lemma CivilFromDaysAt(era: int, yoe: int, mp: int, d: int)
    requires IsPlace(yoe, mp, d)
    ensures CivilFromDays(PlaceDay(era, yoe, mp, d)) == DateAt(era, yoe, mp, d)
  {
    var doe := YearOfEraStart(yoe) + ((153 * mp + 2) / 5 + d - 1);
    DateOfEraAt(yoe, mp, d);
    EraSplit(era, doe, DateAt(0, yoe, mp, d));
    EraShift(era, yoe, mp, d);
  }

  lemma EraShift(era: int, yoe: int, mp: int, d: int)
    requires IsPlace(yoe, mp, d)
    ensures var t := DateAt(0, yoe, mp, d);
            DateAt(era, yoe, mp, d) == t.(y := t.y + era * 400)
    ensures PlaceDay(era, yoe, mp, d)
         == era * 146097 + (YearOfEraStart(yoe) + ((153 * mp + 2) / 5 + d - 1)) - 719468
  {
  }

  lemma DayHasPlace(z: int) returns (era: int, yoe: int, mp: int, d: int)
    ensures IsPlace(yoe, mp, d) && z == PlaceDay(era, yoe, mp, d)
  {
    era := (z + 719468) / 146097;
    var doy;
    yoe, doy := YearOfEraExists((z + 719468) % 146097);
    mp, d := MonthFromMarchExists(doy);
  }

  // ---------- Main results ----------

  /** From a date to its day number and back, for every valid date. */
  lemma DateRoundTrip(t: Date)
    requires ValidDate(t)
    ensures CivilFromDays(DaysFromCivil(t)) == t
  {
    var era, yoe, mp := ValidHasPlace(t);
    DaysFromCivilAt(era, yoe, mp, t.d);
    CivilFromDaysAt(era, yoe, mp, t.d);
  }

  /** From a day number to its date and back, for every day number. */
  lemma DayRoundTrip(z: int)
    ensures ValidDate(CivilFromDays(z))
    ensures DaysFromCivil(CivilFromDays(z)) == z
  {
    var era, yoe, mp, d := DayHasPlace(z);
    DaysFromCivilAt(era, yoe, mp, d);
    CivilFromDaysAt(era, yoe, mp, d);
  }

  lemma MonthSum(t: Date)
    requires ValidDate(t)
    ensures DaysToMonth(t.y, t.m) + t.d - 1 == DaysFromCivil(t) - DaysFromCivil(Date(t.y, 1, 1))
  {
    var era, yoe, mp := ValidHasPlace(t);
    var era1, yoe1, mp1 := ValidHasPlace(Date(t.y, 1, 1));
    assert mp1 == 10 && era1 * 400 + yoe1 == t.y - 1;
    MonthTable(t.y, t.m);
    if t.m <= 2 {
      assert era1 == era && yoe1 == yoe;
    } else {
      YearStep(era1, yoe1, era, yoe);
    }
    DaysFromCivilAt(era1, yoe1, mp1, 1);
    DaysFromCivilAt(era, yoe, mp, t.d);
  }

  lemma MonthTable(y: int, m: int)
    requires 1 <= m <= 12
    ensures var mp := if m > 2 then m - 3 else m + 9;
            DaysToMonth(y, m) == (153 * mp + 2) / 5 + (if m > 2 then YearLength(y) - 306 else -306)
    decreases m
  {
    if m > 1 {
      MonthTable(y, m - 1);
    }
  }

  /** Consecutive March-based years are a year apart, also from one era to the next. */
  lemma YearStep(era1: int, yoe1: int, era2: int, yoe2: int)
    requires 0 <= yoe1 < 400 && 0 <= yoe2 < 400
    requires era1 * 400 + yoe1 + 1 == era2 * 400 + yoe2
    ensures era2 * 146097 + YearOfEraStart(yoe2)
         == era1 * 146097 + YearOfEraStart(yoe1) + YearLength(era2 * 400 + yoe2)
  {
    EraLeap(era1, yoe1);
    if yoe1 == 399 {
      assert era2 == era1 + 1 && yoe2 == 0;
    } else {
      assert era2 == era1 && yoe2 == yoe1 + 1;
      YearOfEraStep(yoe1);
    }
  }

  lemma YearOfEraStep(yoe: int)
    requires 0 <= yoe < 399
    ensures YearOfEraStart(yoe + 1) == YearOfEraStart(yoe) + (if EndsLeap(yoe) then 366 else 365)
  {
  }

  lemma {:induction false} YearSum(y: int)
    ensures DaysFromCivil(Date(y, 1, 1)) == DaysToYear(y)
    decreases if y >= 1970 then y - 1970 else 1970 - y
  {
    if y > 1970 {
      YearSum(y - 1);
      NewYears(y - 1);
    } else if y < 1970 {
      YearSum(y + 1);
      NewYears(y);
    }
  }

  lemma NewYears(y: int)
    ensures DaysFromCivil(Date(y + 1, 1, 1)) == DaysFromCivil(Date(y, 1, 1)) + YearLength(y)
  {
    var era1, yoe1, mp1 := ValidHasPlace(Date(y, 1, 1));
    DaysFromCivilAt(era1, yoe1, mp1, 1);
    var era2, yoe2, mp2 := ValidHasPlace(Date(y + 1, 1, 1));
    DaysFromCivilAt(era2, yoe2, mp2, 1);
    YearStep(era1, yoe1, era2, yoe2);
  }

  /** days_from_civil counts days by the Gregorian rules, before and after 1970. */
  lemma DaysFromCivilIsDayNumber(t: Date)
    requires ValidDate(t)
    ensures DaysFromCivil(t) == DayNumber(t)
  {
    MonthSum(t);
    YearSum(t.y);
  }

  lemma NextDayIsOneLater(t: Date)
    requires ValidDate(t)
    ensures ValidDate(NextDay(t)) && DayNumber(NextDay(t)) == DayNumber(t) + 1
  {
    YearLengthIsMonthSum(t.y);
  }

  /** civil_from_days walks through the calendar one day at a time. */
  lemma CivilSuccessor(z: int)
    ensures CivilFromDays(z + 1) == NextDay(CivilFromDays(z))
  {
    DayRoundTrip(z);
    NextDayOneLater(CivilFromDays(z));
  }

  lemma NextDayOneLater(t: Date)
    requires ValidDate(t)
    ensures CivilFromDays(DaysFromCivil(t) + 1) == NextDay(t)
  {
    NextDayIsOneLater(t);
    DaysFromCivilIsDayNumber(t);
    DaysFromCivilIsDayNumber(NextDay(t));
    DateRoundTrip(NextDay(t));
  }

  lemma YearLengthIsMonthSum(y: int)
    ensures DaysToMonth(y, 12) + DaysInMonth(y, 12) == YearLength(y)
    ensures DaysToYear(y + 1) == DaysToYear(y) + YearLength(y)
  {
    MonthTable(y, 12);
  }

  lemma WeekdayIsRemainder(z: int)
    ensures WeekdayFromDays(z) == (z + 4) % 7
  {
    var q, r := (z + 4) / 7, (z + 4) % 7;
    if z < -4 {
      QuotientUnique(-(z + 5), 7, -q - 1, 6 - r);
    }
  }

  /** 1970-01-01 was a Thursday, and the weekdays follow each other, also before 1970. */
  lemma WeekdayCycle(z: int)
    ensures WeekdayFromDays(z) == (z + 4) % 7
    ensures WeekdayFromDays(z + 1) == (WeekdayFromDays(z) + 1) % 7
    ensures WeekdayFromDays(0) == 4
  {
    WeekdayIsRemainder(z);
    WeekdayIsRemainder(z + 1);
    var q, r := (z + 4) / 7, (z + 4) % 7;
    QuotientUnique(z + 5, 7, if r == 6 then q + 1 else q, if r == 6 then 0 else r + 1);
    WeekdayIsRemainder(0);
  }
}
