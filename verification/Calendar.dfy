/** Calendar dates of the minute-based date fields (`SaDate` in `row_decoder.rs`). */
module Calendar {

  datatype Date = Date(year: int, month: int, day: int)

  // ---------------------------------------------------------------- an independent calendar

  predicate IsLeap(y: int) {
    y % 4 == 0 && (y % 100 != 0 || y % 400 == 0)
  }

  function YearLength(y: int): int {
    if IsLeap(y) then 366 else 365
  }

  function MonthLength(y: int, m: int): int {
    if m == 2 then (if IsLeap(y) then 29 else 28)
    else if m == 4 || m == 6 || m == 9 || m == 11 then 30
    else 31
  }

  predicate ValidDate(d: Date) {
    1 <= d.month <= 12 && 1 <= d.day <= MonthLength(d.year, d.month)
  }

  /** The next calendar day. */
  function NextDate(d: Date): Date {
    if d.day < MonthLength(d.year, d.month) then Date(d.year, d.month, d.day + 1)
    else if d.month < 12 then Date(d.year, d.month + 1, 1)
    else Date(d.year + 1, 1, 1)
  }

  /** Days from 1 January of year 0 to 1 January of year `y`, one year at a time. */
  function DaysBeforeYear(y: int): int
    decreases if y < 0 then -y else y
  {
    if y == 0 then 0
    else if y > 0 then DaysBeforeYear(y - 1) + YearLength(y - 1)
    else DaysBeforeYear(y + 1) - YearLength(y)
  }

  /** Days of year `y` before month `m`, one month at a time. */
  function DaysBeforeMonth(y: int, m: int): int
    requires 1 <= m <= 12
    decreases m
  {
    if m == 1 then 0 else DaysBeforeMonth(y, m - 1) + MonthLength(y, m - 1)
  }

  /** Days from 1 January of year 0 to a date. */
  function DayNumber(d: Date): int
    requires ValidDate(d)
  {
    DaysBeforeYear(d.year) + DaysBeforeMonth(d.year, d.month) + d.day - 1
  }

  /** How many leap days lie before 1 January of year `y`; negative before year 0. */
  function LeapDays(y: int): int {
    (y + 3) / 4 - (y + 99) / 100 + (y + 399) / 400
  }

  /** The simple count of leap years agrees with adding up the years. */
  lemma {:induction false} DaysBeforeYearClosedForm(y: int)
    ensures DaysBeforeYear(y) == 365 * y + LeapDays(y)
    decreases if y < 0 then -y else y
  {
    assert DaysBeforeYear(0) == 0 && LeapDays(0) == 0;
    hide DaysBeforeYear, IsLeap, LeapDays;
    if y > 0 {
      DaysBeforeYearClosedForm(y - 1);
      DaysBeforeYearStep(y - 1);
      LeapStep(y - 1);
    } else if y < 0 {
      DaysBeforeYearClosedForm(y + 1);
      DaysBeforeYearStep(y);
      LeapStep(y);
    }
  }

  lemma LeapStep(y: int)
    ensures LeapDays(y + 1) == LeapDays(y) + (if IsLeap(y) then 1 else 0)
  {
    FourthStep(y);
    HundredthStep(y);
    FourHundredthStep(y);
    var leap := IsLeap(y);
    assert leap == (y % 4 == 0 && (y % 100 != 0 || y % 400 == 0));
    CenturiesAreFourth(y);
    hide IsLeap;
  }

  lemma CenturiesAreFourth(y: int)
    ensures y % 400 == 0 ==> y % 100 == 0
    ensures y % 100 == 0 ==> y % 4 == 0
  {
    if y % 400 == 0 {
      MultipleOfMultiple(y / 400, 4, 100);
    }
    if y % 100 == 0 {
      MultipleOfMultiple(y / 100, 25, 4);
    }
  }

  lemma MultipleOfMultiple(k: int, a: int, m: int)
    requires (a == 4 && m == 100) || (a == 25 && m == 4)
    ensures (a * m * k) % m == 0
  {
    assert a == 4 ==> a * m * k == m * (4 * k);
    assert a == 25 ==> a * m * k == m * (25 * k);
  }

  lemma FourthStep(y: int)
    ensures (y + 4) / 4 == (y + 3) / 4 + (if y % 4 == 0 then 1 else 0)
  {
    var q, r := y / 4, y % 4;
    assert y == 4 * q + r;
    assert (y + 4) / 4 == q + 1;
  }

  lemma HundredthStep(y: int)
    ensures (y + 100) / 100 == (y + 99) / 100 + (if y % 100 == 0 then 1 else 0)
  {
    var q, r := y / 100, y % 100;
    assert y == 100 * q + r;
    assert (y + 100) / 100 == q + 1;
  }

  lemma FourHundredthStep(y: int)
    ensures (y + 400) / 400 == (y + 399) / 400 + (if y % 400 == 0 then 1 else 0)
  {
    var q, r := y / 400, y % 400;
    assert y == 400 * q + r;
    assert (y + 400) / 400 == q + 1;
  }

  /** Valid dates are numbered without repetition, in calendar order and without gaps. */
  lemma NextDateNumber(d: Date)
    requires ValidDate(d)
    ensures ValidDate(NextDate(d)) && DayNumber(NextDate(d)) == DayNumber(d) + 1
  {
    if d.day == MonthLength(d.year, d.month) && d.month == 12 {
      YearIsItsMonths(d.year);
      DaysBeforeYearStep(d.year);
    }
  }

  lemma DaysBeforeYearStep(y: int)
    ensures DaysBeforeYear(y + 1) == DaysBeforeYear(y) + YearLength(y)
  {
  }

  lemma YearIsItsMonths(y: int)
    ensures DaysBeforeMonth(y, 12) + 31 == YearLength(y)
    ensures DaysBeforeMonth(y, 12) == DaysBeforeMonth(y, 6) + 153 + 30
  {
    assert DaysBeforeMonth(y, 3) == 31 + MonthLength(y, 2);
    assert DaysBeforeMonth(y, 6) == DaysBeforeMonth(y, 3) + 92;
    assert DaysBeforeMonth(y, 9) == DaysBeforeMonth(y, 6) + 92;
    assert DaysBeforeMonth(y, 12) == DaysBeforeMonth(y, 9) + 91;
  }

  // ---------------------------------------------------------------- the decoder's conversion

  const MINUTES_PER_DAY := 1440
  const DAYS_PER_ERA := 146_097

  /** Rust's `/` on integers, for a positive divisor. */
  function TruncatingDiv(a: int, b: int): int
    requires b > 0
  {
    if a >= 0 then a / b else -((-a) / b)
  }

  /** `div_euclid(1440)`. */
  function DaysSinceSaEpoch(rawMinutes: int): int {
    rawMinutes / MINUTES_PER_DAY
  }

  /** Years completed within a 400-year era that begins on 1 March. */
  function YearOfEra(doe: int): int {
    (doe - doe / 1460 + doe / 36_524 - doe / 146_096) / 365
  }

  /** The date of day `doy` of the year that begins on 1 March of `year`. */
  function MarchDate(year: int, doy: int): Date {
    var mp := (5 * doy + 2) / 153;
    var month := mp + (if mp < 10 then 3 else -9);
    Date(year + (if month <= 2 then 1 else 0), month, doy - (153 * mp + 2) / 5 + 1)
  }

  function DateOfDay(day: int): Date {
    var z := day - 135_081 + 719_468;
    var era := TruncatingDiv(if z >= 0 then z else z - 146_096, DAYS_PER_ERA);
    var doe := z - era * DAYS_PER_ERA;
    var yoe := YearOfEra(doe);
    MarchDate(yoe + era * 400, doe - (365 * yoe + yoe / 4 - yoe / 100))
  }

  function Ymd(rawMinutes: int): Date {
    DateOfDay(DaysSinceSaEpoch(rawMinutes))
  }

  // ---------------------------------------------------------------- stages of the proof

  /** The adjusted truncating division is a floor division. */
  lemma EraIsFloor(z: int)
    ensures var era := TruncatingDiv(if z >= 0 then z else z - 146_096, DAYS_PER_ERA);
      0 <= z - era * DAYS_PER_ERA < DAYS_PER_ERA
  {
  }

  /**
   The year formula: the years of an era, counted from March, begin at `365y + y/4 - y/100`, and
   only a March year that ends in a leap February has a day 365.
   */
  lemma YearOfEraCorrect(doe: int)
    requires 0 <= doe < DAYS_PER_ERA
    ensures var yoe := YearOfEra(doe);
      var doy := doe - (365 * yoe + yoe / 4 - yoe / 100);
      0 <= yoe < 400 && 0 <= doy <= 365 && (doy == 365 ==> IsLeap(yoe + 1))
  {
    var c := if doe == 146_096 then 3 else doe / 36_524;
    var r := doe - 36_524 * c;
    var q := r / 1461;
    var s := r - 1461 * q;
    var y := if s == 1460 then 3 else s / 365;
    YearOfCentury(doe, c, q, s);
    YearParts(c, q, s, y);
  }

  /** The quotients of the formula, for a day `s` of the four-year cycle `q` of century `c`. */
  lemma YearOfCentury(doe: int, c: int, q: int, s: int)
    requires 0 <= c <= 3 && 0 <= q <= 24 && 0 <= s <= 1460
    requires doe == 36_524 * c + 1461 * q + s
    requires q == 24 && s == 1460 ==> c == 3
    ensures YearOfEra(doe) == 100 * c + 4 * q + (if s == 1460 then 3 else s / 365)
  {
    var carry := if 24 * c + q + s >= 1460 then 1 else 0;
    assert doe / 1460 == 25 * c + q + carry;
    var last := if doe == 146_096 then 1 else 0;
    assert doe / 146_096 == last;
    assert doe / 36_524 == c + last;
    assert doe - doe / 1460 + doe / 36_524 - doe / 146_096 == 365 * (100 * c + 4 * q) + (s - carry);
  }

  lemma YearParts(c: int, q: int, s: int, y: int)
    requires 0 <= c <= 3 && 0 <= q <= 24 && 0 <= s <= 1460
    requires q == 24 && s == 1460 ==> c == 3
    requires y == if s == 1460 then 3 else s / 365
    ensures var yoe := 100 * c + 4 * q + y;
      && 0 <= yoe < 400
      && 365 * yoe + yoe / 4 - yoe / 100 == 36_524 * c + 1461 * q + 365 * y
      && 0 <= s - 365 * y <= 365
      && (s - 365 * y == 365 ==> IsLeap(yoe + 1))
  {
    var yoe := 100 * c + 4 * q + y;
    assert yoe / 4 == 25 * c + q;
    assert yoe / 100 == c;
    if s - 365 * y == 365 {
      assert yoe + 1 == 100 * c + 4 * (q + 1);
      if q < 24 {
        assert (yoe + 1) / 100 == c;
      }
    }
  }

  /** The day of a March year on which its month `mp` begins, counting months from March. */
  function MonthStart(mp: int): int {
    (153 * mp + 2) / 5
  }

  function MonthOf(mp: int): int {
    mp + (if mp < 10 then 3 else -9)
  }

  /** The months of a March year stand where the formula says. */
  lemma MarchMonths(y: int, mp: int)
    requires 0 <= mp <= 11
    ensures var year := if MonthOf(mp) <= 2 then y + 1 else y;
      && 1 <= MonthOf(mp) <= 12
      && DaysBeforeYear(year) + DaysBeforeMonth(year, MonthOf(mp)) == DaysBeforeYear(y + 1) - 306 + MonthStart(mp)
      && MonthStart(mp) + MonthLength(year, MonthOf(mp)) == if mp == 11 then (if IsLeap(y + 1) then 366 else 365) else MonthStart(mp + 1)
  {
    DaysBeforeYearStep(y);
    MonthTable(y);
    MonthTable(y + 1);
    assert MonthLength(y, 2) == YearLength(y) - 337;
    hide DaysBeforeYear, DaysBeforeMonth;
  }

  lemma MonthTable(y: int)
    ensures DaysBeforeMonth(y, 1) == 0 && DaysBeforeMonth(y, 2) == 31
    ensures var f := DaysBeforeMonth(y, 3);
      && f == 31 + MonthLength(y, 2)
      && DaysBeforeMonth(y, 4) == f + 31 && DaysBeforeMonth(y, 5) == f + 61 && DaysBeforeMonth(y, 6) == f + 92
      && DaysBeforeMonth(y, 7) == f + 122 && DaysBeforeMonth(y, 8) == f + 153 && DaysBeforeMonth(y, 9) == f + 184
      && DaysBeforeMonth(y, 10) == f + 214 && DaysBeforeMonth(y, 11) == f + 245 && DaysBeforeMonth(y, 12) == f + 275
  {
    assert DaysBeforeMonth(y, 3) == 31 + MonthLength(y, 2);
    assert DaysBeforeMonth(y, 6) == DaysBeforeMonth(y, 3) + 92;
    assert DaysBeforeMonth(y, 9) == DaysBeforeMonth(y, 6) + 92;
  }

  lemma MonthByDay(doy: int)
    requires 0 <= doy <= 365
    ensures var mp := (5 * doy + 2) / 153;
      0 <= mp <= 11 && MonthStart(mp) <= doy && (mp < 11 ==> doy < MonthStart(mp + 1))
  {
  }

  /** The month formula: day `doy` of a March year falls on day `doy - (153*mp+2)/5` of its month `mp`. */
  lemma MonthOfYear(doy: int, y: int)
    requires 0 <= doy <= 365 && (doy == 365 ==> IsLeap(y + 1))
    ensures var d := MarchDate(y, doy);
      ValidDate(d) && DaysBeforeYear(d.year) + DaysBeforeMonth(d.year, d.month) + d.day - 1 == DaysBeforeYear(y + 1) - 306 + doy
  {
    var mp := (5 * doy + 2) / 153;
    MonthByDay(doy);
    MarchMonths(y, mp);
    assert MarchDate(y, doy) == Date(if MonthOf(mp) <= 2 then y + 1 else y, MonthOf(mp), doy - MonthStart(mp) + 1);
    hide DaysBeforeYear, DaysBeforeMonth, MarchDate, MonthStart, MonthOf, MonthLength, IsLeap;
  }

  lemma LeapInEra(yoe: int, era: int)
    ensures IsLeap(yoe + era * 400) <==> IsLeap(yoe)
  {
    WholeMultiple(yoe, 100 * era, 4);
    WholeMultiple(yoe, 4 * era, 100);
    WholeMultiple(yoe, era, 400);
  }

  lemma WholeMultiple(x: int, k: int, m: int)
    requires m in {4, 100, 400}
    ensures (x + k * m) % m == x % m
  {
  }

  /** 1 March of year `yoe` of an era, numbered by the years before it. */
  lemma MarchOfEra(yoe: int, era: int)
    requires 0 <= yoe < 400
    ensures DaysBeforeYear(yoe + era * 400 + 1) - 306 == era * DAYS_PER_ERA + (365 * yoe + yoe / 4 - yoe / 100) + 60
  {
    var y := yoe + era * 400;
    DaysBeforeYearClosedForm(y + 1);
    assert (y + 4) / 4 == yoe / 4 + 100 * era + 1;
    assert (y + 100) / 100 == yoe / 100 + 4 * era + 1;
    assert (y + 400) / 400 == era + 1;
  }

  lemma EpochNumber()
    ensures ValidDate(Date(1600, 2, 29)) && DayNumber(Date(1600, 2, 29)) == 584_447
  {
    DaysBeforeYearClosedForm(1600);
  }

  // ---------------------------------------------------------------- main results

  /**
   Every day number, negative ones included, becomes a valid proleptic-Gregorian date, and counting
   the days to that date gives the day number back. Day 0 is 29 February 1600.
   */
  lemma DateOfDayInverted(day: int)
    ensures ValidDate(DateOfDay(day))
    ensures DayNumber(DateOfDay(day)) == DayNumber(Date(1600, 2, 29)) + day
  {
    hide TruncatingDiv, YearOfEra, DaysBeforeYear, DaysBeforeMonth, MonthLength, IsLeap, MarchDate;
    var z := day - 135_081 + 719_468;
    var era := TruncatingDiv(if z >= 0 then z else z - 146_096, DAYS_PER_ERA);
    var doe := z - era * DAYS_PER_ERA;
    EraIsFloor(z);
    var yoe := YearOfEra(doe);
    YearOfEraCorrect(doe);
    LeapInEra(yoe + 1, era);
    MonthOfYear(doe - (365 * yoe + yoe / 4 - yoe / 100), yoe + era * 400);
    MarchOfEra(yoe, era);
    EpochNumber();
  }

  lemma {:induction false} YearsGrow(a: int, b: int)
    requires a <= b
    ensures DaysBeforeYear(a) + 365 * (b - a) <= DaysBeforeYear(b)
    decreases b - a
  {
    if a < b {
      YearsGrow(a, b - 1);
      DaysBeforeYearStep(b - 1);
    }
  }

  lemma {:induction false} MonthsGrow(y: int, a: int, b: int)
    requires 1 <= a < b <= 12
    ensures DaysBeforeMonth(y, a) + MonthLength(y, a) <= DaysBeforeMonth(y, b)
    decreases b
  {
    if a < b - 1 {
      MonthsGrow(y, a, b - 1);
    }
  }

  lemma DayOfYear(d: Date)
    requires ValidDate(d)
    ensures DaysBeforeYear(d.year) <= DayNumber(d) < DaysBeforeYear(d.year + 1)
  {
    YearIsItsMonths(d.year);
    DaysBeforeYearStep(d.year);
    if d.month > 1 {
      MonthsGrow(d.year, 1, d.month);
    }
    if d.month < 12 {
      MonthsGrow(d.year, d.month, 12);
    }
  }

  /** A day number belongs to one date only. */
  lemma DayNumberInjective(d: Date, e: Date)
    requires ValidDate(d) && ValidDate(e) && DayNumber(d) == DayNumber(e)
    ensures d == e
  {
    DayOfYear(d);
    DayOfYear(e);
    if d.year < e.year {
      YearsGrow(d.year + 1, e.year);
    } else if e.year < d.year {
      YearsGrow(e.year + 1, d.year);
    } else if d.month < e.month {
      MonthsGrow(d.year, d.month, e.month);
    } else if e.month < d.month {
      MonthsGrow(d.year, e.month, d.month);
    }
  }

  /** The conversion is the inverse of counting days, in both directions. */
  lemma DateOfDayIsInverse(d: Date)
    requires ValidDate(d)
    ensures DateOfDay(DayNumber(d) - DayNumber(Date(1600, 2, 29))) == d
  {
    EpochNumber();
    hide *;
    var day := DayNumber(d) - DayNumber(Date(1600, 2, 29));
    DateOfDayInverted(day);
    DayNumberInjective(DateOfDay(day), d);
  }

  /**
   The calendar of the date fields: minute 0 lies on 29 February 1600, all 1440 minutes of a
   floor-divided day share its date, and the following day has the next calendar date.
   */
  lemma MinutesFollowTheCalendar(rawMinutes: int)
    ensures Ymd(0) == Date(1600, 2, 29)
    ensures ValidDate(Ymd(rawMinutes))
    ensures var midnight := 24 * 60 * DaysSinceSaEpoch(rawMinutes);
      && midnight <= rawMinutes < midnight + 24 * 60
      && forall other :: midnight <= other < midnight + 24 * 60 ==> Ymd(other) == Ymd(rawMinutes)
    ensures Ymd(rawMinutes + 24 * 60) == NextDate(Ymd(rawMinutes))
  {
    hide DateOfDay, DayNumber, NextDate, ValidDate;
    var day := DaysSinceSaEpoch(rawMinutes);
    EpochNumber();
    DateOfDayInverted(0);
    DayNumberInjective(DateOfDay(0), Date(1600, 2, 29));
    DateOfDayInverted(day);
    DateOfDayInverted(day + 1);
    NextDateNumber(DateOfDay(day));
    DayNumberInjective(DateOfDay(day + 1), NextDate(DateOfDay(day)));
    SameDay(day);
    assert DaysSinceSaEpoch(0) == 0;
    assert DaysSinceSaEpoch(rawMinutes + MINUTES_PER_DAY) == day + 1;
  }

  lemma SameDay(day: int)
    ensures forall minutes :: day * MINUTES_PER_DAY <= minutes < day * MINUTES_PER_DAY + MINUTES_PER_DAY ==>
      DaysSinceSaEpoch(minutes) == day
  {
  }
}
