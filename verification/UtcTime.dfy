/** The 32-bit instance of the calendar functions and make_utc_tm (C++/types/time.h).

    A `Duration` is a count of ticks. make_utc_tm subtracts whole minutes from it, so it
    only compiles when a minute is a whole number of ticks: `tpm` ticks per minute, any
    positive number, covers every integral duration it accepts (60 for seconds, 1 for
    minutes, 60 000 000 000 for nanoseconds). */
module UtcTime {
  import opened CivilCalendar

  newtype int32 = x: int | -0x8000_0000 <= x < 0x8000_0000
  newtype uint32 = x: int | 0 <= x < 0x1_0000_0000

  const MAX_DAY: int := 0x7fff_ffff - 719468
  const MIN_DAY: int := -0x8000_0000
  /** -5877640-01-01, the first of January of the first year wholly in range. */
  const FIRST_TM_DAY: int := MIN_DAY + 192

  function Div32(a: int32, b: int32): (q: int32)
    requires b > 0
    ensures q as int == TruncDiv(a as int, b as int)
  {
    DivStays(a as int, b as int);
    TruncDiv(a as int, b as int) as int32
  }

  lemma DivStays(a: int, b: int)
    requires b > 0
    ensures if a >= 0 then 0 <= TruncDiv(a, b) <= a else a <= TruncDiv(a, b) <= 0
  {
    var n := if a >= 0 then a else -a;
    var q := n / b;
    assert n == b * q + n % b;
    MultipleOrder(q, b);
    if q > 0 {
      MultipleOrder(b, q);
    }
  }

  /** `unsigned` plus a signed constant. */
  function AddSigned(u: uint32, i: int32): uint32 {
    Unsigned(u as int + i as int) as uint32
  }

  /** The 32-bit civil_from_days: no intermediate value overflows over the documented range,
      and the result is the one of unbounded arithmetic. */
  function CivilFromDays32(z0: int32): (r: (int32, uint32, uint32))
    requires z0 as int <= MAX_DAY
    ensures Date(r.0 as int, r.1 as int, r.2 as int) == CivilFromDays(z0 as int)
  {
    EraOfDay(z0 as int);
    var (era, doe) := EraAndDay32(z0 + 719468);
    var (yoe, m, d) := DateOfEra32(doe);
    (yoe as int32 + era * 400, m, d)
  }

  function EraAndDay32(z: int32): (r: (int32, uint32))
    requires MIN_DAY + 719468 <= z as int
    ensures var era := TruncDiv(if z >= 0 then z as int else z as int - 146096, 146097);
            r.0 as int == era && r.1 as int == z as int - era * 146097 <= 146096
            && -14_701 <= era <= 14_701
  {
    EraRoundsDown(z as int / 146097, z as int % 146097, 146097);
    var era: int32 := Div32(if z >= 0 then z else z - 146096, 146097);
    (era, (z - era * 146097) as uint32)
  }

  function DateOfEra32(doe: uint32): (r: (uint32, uint32, uint32))
    requires doe <= 146096
    ensures Date(r.0 as int, r.1 as int, r.2 as int) == DateOfEra(doe as int) && r.0 <= 400
  {
    EraDayBounds(doe as int);
    var yoe: uint32 := YearOfEra32(doe);
    var (m, d) := MonthAndDay32(doe - YearOfEraStart32(yoe));
    (if m <= 2 then yoe + 1 else yoe, m, d)
  }

  function YearOfEra32(doe: uint32): (yoe: uint32)
    requires doe <= 146096
    ensures yoe as int == YearOfEra(doe as int)
  {
    (doe - doe / 1460 + doe / 36524 - doe / 146096) / 365
  }

  function YearOfEraStart32(yoe: uint32): (doe: uint32)
    requires yoe < 400
    ensures doe as int == YearOfEraStart(yoe as int) <= 146096
  {
    yoe * 365 + yoe / 4 - yoe / 100
  }

  function MonthAndDay32(doy: uint32): (r: (uint32, uint32))
    requires doy <= 365
    ensures (r.0 as int, r.1 as int) == MonthAndDay(doy as int)
  {
    var mp: uint32 := (5 * doy + 2) / 153;
    (AddSigned(mp, if mp < 10 then 3 else -9), doy - (153 * mp + 2) / 5 + 1)
  }

  lemma EraOfDay(z0: int)
    ensures var z := z0 + 719468;
            var era := TruncDiv(if z >= 0 then z else z - 146096, 146097);
            var t := DateOfEra(z - era * 146097);
            0 <= z - era * 146097 <= 146096 && CivilFromDays(z0) == t.(y := t.y + era * 400)
  {
    var z := z0 + 719468;
    EraRoundsDown(z / 146097, z % 146097, 146097);
    UnsignedSmall(z % 146097);
  }

  lemma EraDayBounds(doe: int)
    requires 0 <= doe <= 146096
    ensures var doy := doe - YearOfEraStart(YearOfEra(doe));
            0 <= YearOfEra(doe) < 400 && 0 <= doy <= 365 && Unsigned(doy) == doy
  {
    var yoe, doy := YearOfEraExists(doe);
    YearOfEraFound(yoe, doy);
    UnsignedSmall(doy);
  }

  /** The 32-bit days_from_civil, over the dates of the documented range. */
  function DaysFromCivil32(y0: int32, m: uint32, d: uint32): (z: int32)
    requires ValidDate(Date(y0 as int, m as int, d as int))
    requires MIN_DAY <= DaysFromCivil(Date(y0 as int, m as int, d as int)) <= MAX_DAY
    ensures z as int == DaysFromCivil(Date(y0 as int, m as int, d as int))
  {
    DayFits(Date(y0 as int, m as int, d as int));
    DayOfPlace32(if m <= 2 then y0 - 1 else y0, m, d)
  }

  /** The rest of days_from_civil, for a year that begins in March. */
  function DayOfPlace32(y: int32, m: uint32, d: uint32): (z: int32)
    requires 1 <= m <= 12 && 1 <= d <= 31 && FitsDay(y as int, m as int, d as int)
    ensures z as int == MarchDay(y as int, m as int, d as int)
  {
    var (era, yoe) := EraAndYear32(y);
    DayOfEra32(era, YearOfEraStart32(yoe) + DayOfYear32(m, d))
  }

  function MarchDay(y: int, m: int, d: int): int {
    y / 400 * 146097 + (YearOfEraStart(y % 400) + DayOfYear(m, d)) - 719468
  }

  ghost predicate FitsDay(y: int, m: int, d: int) {
    && -5_880_400 <= y <= 5_880_400 && -14_701 <= y / 400 <= 14_701 && MIN_DAY <= y / 400 * 146097
    && 0 <= YearOfEraStart(y % 400) + DayOfYear(m, d) <= 147_000
    && MIN_DAY <= MarchDay(y, m, d) <= MAX_DAY
  }

  lemma DayFits(t: Date)
    requires ValidDate(t) && MIN_DAY <= DaysFromCivil(t) <= MAX_DAY
    ensures var y := if t.m <= 2 then t.y - 1 else t.y;
            FitsDay(y, t.m, t.d) && MarchDay(y, t.m, t.d) == DaysFromCivil(t)
    ensures 1 <= t.m <= 12 && 1 <= t.d <= 31
  {
    YearInRange(t);
    DaysFromCivilUnwrapped(t);
    DayOfEraBounds((if t.m <= 2 then t.y - 1 else t.y) % 400, t.m, t.d);
  }

  function DayOfEra32(era: int32, doe: uint32): (z: int32)
    requires -14_701 <= era <= 14_701 && doe <= 147_000 && MIN_DAY <= era as int * 146097
    requires MIN_DAY <= era as int * 146097 + doe as int - 719468 <= MAX_DAY
    ensures z as int == era as int * 146097 + doe as int - 719468
  {
    era * 146097 + doe as int32 - 719468
  }

  function EraAndYear32(y: int32): (r: (int32, uint32))
    requires -5_880_400 <= y <= 5_880_400
    ensures r.0 as int == y as int / 400 && r.1 as int == y as int % 400
  {
    EraRoundsDown(y as int / 400, y as int % 400, 400);
    var era: int32 := Div32(if y >= 0 then y else y - 399, 400);
    (era, (y - era * 400) as uint32)
  }

  function DayOfYear32(m: uint32, d: uint32): (doy: uint32)
    requires 1 <= m <= 12 && 1 <= d <= 31
    ensures doy as int == DayOfYear(m as int, d as int) <= 400
  {
    (153 * AddSigned(m, if m > 2 then -3 else 9) + 2) / 5 + d - 1
  }

  /** days_from_civil without its wrap-around, which never happens. */
  lemma DaysFromCivilUnwrapped(t: Date)
    requires ValidDate(t)
    ensures var y := if t.m <= 2 then t.y - 1 else t.y;
            var era := TruncDiv(if y >= 0 then y else y - 399, 400);
            era == y / 400
            && DaysFromCivil(t)
               == era * 146097 + (YearOfEraStart(y % 400) + DayOfYear(t.m, t.d)) - 719468
  {
    var y := if t.m <= 2 then t.y - 1 else t.y;
    EraRoundsDown(y / 400, y % 400, 400);
    UnsignedSmall(y % 400);
  }

  lemma DayOfEraBounds(yoe: int, m: int, d: int)
    requires 0 <= yoe < 400 && 1 <= m <= 12 && 1 <= d <= 31
    ensures 0 <= YearOfEraStart(yoe) + DayOfYear(m, d) <= 147000
  {
    UnsignedSmall(m + (if m > 2 then -3 else 9));
  }

  lemma YearInRange(t: Date)
    requires ValidDate(t) && MIN_DAY <= DaysFromCivil(t) <= MAX_DAY
    ensures var y := if t.m <= 2 then t.y - 1 else t.y;
            var era := y / 400;
            -5_880_400 <= y <= 5_880_400 && -14_701 <= era <= 14_701
            && MIN_DAY <= era * 146097
  {
    var y := if t.m <= 2 then t.y - 1 else t.y;
    DaysFromCivilUnwrapped(t);
    DayOfEraBounds(y % 400, t.m, t.d);
    EraInRange(y / 400, DaysFromCivil(t));
  }

  lemma EraInRange(era: int, z: int)
    requires MIN_DAY <= z <= MAX_DAY && 0 <= z + 719468 - era * 146097 <= 147000
    ensures -14_701 <= era <= 14_701 && MIN_DAY <= era * 146097
  {
  }

  function WeekdayFromDays32(z: int32): (r: uint32)
    requires z as int <= 0x7fff_ffff - 4
    ensures r as int == (z as int + 4) % 7
  {
    WeekdayIsRemainder(z as int);
    if z >= -4 then Mod32(z + 4, 7) as uint32 else (Mod32(z + 5, 7) + 6) as uint32
  }

  function Mod32(a: int32, b: int32): (r: int32)
    requires 0 < b <= 0x1_0000
    ensures r as int == TruncMod(a as int, b as int) && -(b as int) < r as int < b as int
  {
    assert a as int == b as int * TruncDiv(a as int, b as int) + TruncMod(a as int, b as int);
    a - b * Div32(a, b)
  }

  // ---------- round_down and make_utc_tm ----------

  /** duration_cast truncates; the result is then moved down if it is past the instant. */
  function RoundDown(t: int, unit: int): int
    requires unit >= 1
  {
    var q := TruncDiv(t, unit);
    if q * unit > t then q - 1 else q
  }

  lemma RoundDownIsFloor(t: int, unit: int)
    requires unit >= 1
    ensures RoundDown(t, unit) == t / unit
  {
    if t < 0 {
      var q, r := (-t) / unit, (-t) % unit;
      assert -t == unit * q + r;
      if r == 0 {
        QuotientUnique(t, unit, -q, 0);
      } else {
        QuotientUnique(t, unit, -q - 1, unit - r);
      }
    } else {
      assert t == unit * (t / unit) + t % unit;
    }
  }

  datatype Tm = Tm(sec: int, min: int, hour: int, mday: int, mon: int, year: int,
                   wday: int, yday: int)

  /** make_utc_tm conserves time: its fields are in range and name the second the instant
      falls in, before and after 1970. */
  method MakeUtcTm(sinceEpoch: int, tpm: int) returns (tm: Tm)
    requires tpm >= 1
    requires FIRST_TM_DAY <= sinceEpoch / (1440 * tpm) <= MAX_DAY
    ensures 0 <= tm.hour < 24 && 0 <= tm.min < 60 && 0 <= tm.sec < 60
    ensures ValidDate(Date(tm.year + 1900, tm.mon + 1, tm.mday))
    ensures IsCalendarPart(tm, DayNumber(Date(tm.year + 1900, tm.mon + 1, tm.mday)))
    ensures DayNumber(Date(tm.year + 1900, tm.mon + 1, tm.mday)) * 86400
            + tm.hour * 3600 + tm.min * 60 + tm.sec == sinceEpoch * 60 / tpm
  {
    var t := sinceEpoch;
    RoundDownIsFloor(t, 1440 * tpm);
    var d := RoundDown(t, 1440 * tpm) as int32;
    t := t - d as int * (1440 * tpm);
    DigitStart(sinceEpoch, 1440 * tpm);
    tm := CalendarPart(d);
    tm := tm.(hour := TruncDiv(t, 60 * tpm));
    DigitStep(t, 60 * tpm, 24);
    t := t - tm.hour * (60 * tpm);
    tm := tm.(min := TruncDiv(t, tpm));
    DigitStep(t, tpm, 60);
    t := t - tm.min * tpm;
    tm := tm.(sec := TruncDiv(t * 60, tpm));
    SecondStep(t, tpm);
    SecondsSum(sinceEpoch, tpm, d as int, tm.hour, tm.min, t);
  }

  /** The calendar fields name the day `z`. */
  ghost predicate IsCalendarPart(tm: Tm, z: int) {
    var date := Date(tm.year + 1900, tm.mon + 1, tm.mday);
    ValidDate(date) && DayNumber(date) == z
    && tm.wday == (z + 4) % 7
    && tm.yday == DaysToMonth(date.y, date.m) + date.d - 1
    && 0 <= tm.yday < YearLength(date.y)
  }

  /** The half of make_utc_tm that fills in the calendar info (lines 157 to 169). */
  method CalendarPart(d: int32) returns (tm: Tm)
    requires FIRST_TM_DAY <= d as int <= MAX_DAY
    ensures IsCalendarPart(tm, d as int)
  {
    var (year, month, day) := CivilFromDays32(d);
    YearStartUsable(d as int, Date(year as int, month as int, day as int));
    tm := Tm(0, 0, 0, 0, 0, 0, 0, 0);
    tm := tm.(year := year as int - 1900);
    tm := tm.(mon := month as int - 1);
    tm := tm.(mday := day as int);
    tm := tm.(wday := WeekdayFromDays32(d) as int);
    tm := tm.(yday := d as int - DaysFromCivil32(year, 1, 1) as int);
    FieldsNameTheDay(d as int, tm);
  }

  lemma YearStartUsable(z: int, t: Date)
    requires FIRST_TM_DAY <= z <= MAX_DAY && t == CivilFromDays(z)
    ensures MIN_DAY <= DaysFromCivil(Date(t.y, 1, 1)) <= MAX_DAY
  {
    YearStartFits(z);
  }

  lemma FieldsNameTheDay(z: int, tm: Tm)
    requires FIRST_TM_DAY <= z <= MAX_DAY
    requires Date(tm.year + 1900, tm.mon + 1, tm.mday) == CivilFromDays(z)
    requires tm.wday == (z + 4) % 7
    requires tm.yday == z - DaysFromCivil(Date(tm.year + 1900, 1, 1))
    ensures IsCalendarPart(tm, z)
  {
    DateOfDay(z, Date(tm.year + 1900, tm.mon + 1, tm.mday));
  }

  lemma DateOfDay(z: int, t: Date)
    requires FIRST_TM_DAY <= z <= MAX_DAY && t == CivilFromDays(z)
    ensures ValidDate(t) && DayNumber(t) == z
    ensures MIN_DAY <= DaysFromCivil(Date(t.y, 1, 1)) <= z
    ensures z - DaysFromCivil(Date(t.y, 1, 1)) == DaysToMonth(t.y, t.m) + t.d - 1 < YearLength(t.y)
  {
    DayRoundTrip(z);
    DaysFromCivilIsDayNumber(t);
    MonthSum(t);
    DayOfYearBounds(t);
    YearStartFits(z);
  }

  lemma DayOfYearBounds(t: Date)
    requires ValidDate(t)
    ensures 0 <= DaysToMonth(t.y, t.m) + t.d - 1 < YearLength(t.y)
  {
    MonthTable(t.y, t.m);
  }

  lemma {:induction false} YearsInOrder(y1: int, y2: int)
    requires y1 <= y2
    ensures DaysToYear(y1) <= DaysToYear(y2)
    decreases y2 - y1
  {
    if y1 < y2 {
      YearsInOrder(y1, y2 - 1);
      YearLengthIsMonthSum(y2 - 1);
    }
  }

  /** make_utc_tm also asks for the day number of the first of January, which leaves the
      32-bit range in the incomplete year at its beginning, and only there. */
  lemma YearStartFits(z: int)
    requires MIN_DAY <= z <= MAX_DAY
    ensures MIN_DAY <= DaysFromCivil(Date(CivilFromDays(z).y, 1, 1)) <==> z >= FIRST_TM_DAY
    ensures DaysFromCivil(Date(CivilFromDays(z).y, 1, 1)) <= z
  {
    var t := CivilFromDays(z);
    DayRoundTrip(z);
    MonthSum(t);
    DayOfYearBounds(t);
    YearSum(t.y);
    FirstWholeYear();
    YearLengthIsMonthSum(t.y);
    if t.y >= -5877640 {
      YearsInOrder(-5877640, t.y);
    } else {
      YearsInOrder(t.y + 1, -5877640);
      YearsInOrder(t.y, -5877641);
    }
  }

  lemma FirstWholeYear()
    ensures DaysToYear(-5877640) == FIRST_TM_DAY && DaysToYear(-5877641) < MIN_DAY
  {
    YearSum(-5877640);
    YearSum(-5877641);
    DaysFromCivilAt(-14695, 359, 10, 1);
    DaysFromCivilAt(-14695, 358, 10, 1);
  }

  lemma DigitStart(t: int, unit: int)
    requires unit >= 1
    ensures 0 <= t - t / unit * unit < unit
  {
    assert t == unit * (t / unit) + t % unit;
  }

  lemma DigitStep(t: int, unit: int, n: int)
    requires unit >= 1 && n >= 1 && 0 <= t < n * unit
    ensures 0 <= t / unit < n && 0 <= t - t / unit * unit < unit
  {
    assert t == unit * (t / unit) + t % unit;
    var k := t / unit - n + 1;
    assert unit * k == t - t % unit - n * unit + unit;
    MultipleOrder(k, unit);
  }

  lemma SecondStep(t: int, tpm: int)
    requires tpm >= 1 && 0 <= t < tpm
    ensures 0 <= t * 60 / tpm < 60
  {
    DigitStep(t * 60, tpm, 60);
  }

  lemma SecondsSum(all: int, tpm: int, d: int, h: int, m: int, t: int)
    requires tpm >= 1 && 0 <= t < tpm
    requires all == d * (1440 * tpm) + h * (60 * tpm) + m * tpm + t
    ensures d * 86400 + h * 3600 + m * 60 + t * 60 / tpm == all * 60 / tpm
  {
    var s, r := t * 60 / tpm, t * 60 % tpm;
    assert t * 60 == tpm * s + r;
    var k := d * 86400 + h * 3600 + m * 60;
    assert k * tpm == 60 * (d * (1440 * tpm) + h * (60 * tpm) + m * tpm);
    assert all * 60 == (k + s) * tpm + r;
    QuotientUnique(all * 60, tpm, k + s, r);
  }
}
