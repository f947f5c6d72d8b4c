/** Julian day numbers (muduo/base/Date.cc, Date.h). */
module Date {
  import opened CppArithmetic

  datatype YearMonthDay = YearMonthDay(year: int, month: int, day: int)

  // ---------------------------------------------------------------- the code

  function JulianDayNumber(date: YearMonthDay): int {
    var a := Quot(14 - date.month, 12);
    var y := date.year + 4800 - a;
    var m := date.month + 12 * a - 3;
    date.day + Quot(153 * m + 2, 5) + y * 365 + Quot(y, 4) - Quot(y, 100) + Quot(y, 400) - 32045
  }

  function YearMonthDayOf(julianDayNumber: int): YearMonthDay {
    var a := julianDayNumber + 32044;
    var b := Quot(4 * a + 3, 146097);
    var c := a - Quot(b * 146097, 4);
    var d := Quot(4 * c + 3, 1461);
    FromMarchYear(b, d, c - Quot(1461 * d, 4))
  }

  /** The last steps of the decoder: century, year of the century, day of the
      year that starts in March. */
  function FromMarchYear(b: int, d: int, e: int): YearMonthDay {
    var m := Quot(5 * e + 2, 153);
    YearMonthDay(
      b * 100 + d - 4800 + Quot(m, 10),
      m + 3 - 12 * Quot(m, 10),
      e - Quot(153 * m + 2, 5) + 1)
  }

  /** Sunday is 0. */
  function WeekDay(julianDayNumber: int): int {
    Rem(julianDayNumber + 1, 7)
  }

  const DAY_OF_1970_01_01 := JulianDayNumber(YearMonthDay(1970, 1, 1))

  // --------------------------------------------------- the Gregorian calendar

  predicate IsLeap(year: int) {
    year % 4 == 0 && (year % 100 != 0 || year % 400 == 0)
  }

  function MonthLength(year: int, month: int): (days: int)
    requires 1 <= month <= 12
    ensures 28 <= days <= 31
  {
    if month == 2 then
      if IsLeap(year) then 29 else 28
    else if month == 4 || month == 6 || month == 9 || month == 11 then 30
    else 31
  }

  predicate Valid(date: YearMonthDay) {
    1 <= date.month <= 12 && 1 <= date.day <= MonthLength(date.year, date.month)
  }

  function NextDate(date: YearMonthDay): YearMonthDay
    requires Valid(date)
  {
    if date.day < MonthLength(date.year, date.month) then date.(day := date.day + 1)
    else if date.month < 12 then YearMonthDay(date.year, date.month + 1, 1)
    else YearMonthDay(date.year + 1, 1, 1)
  }

  predicate Before(d: YearMonthDay, e: YearMonthDay) {
    d.year < e.year ||
    (d.year == e.year && (d.month < e.month || (d.month == e.month && d.day < e.day)))
  }

  /** The first date the formulas are meant for, day number -32044. */
  const EPOCH := YearMonthDay(-4800, 3, 1)
  const FIRST_DAY := -32044

  // ------------------------------------------------ years that start in March

  /** Years counted from March -4800: `b` centuries, `r` years and `doy` days. */
  datatype MarchDate = MarchDate(b: int, r: int, doy: int) {
    // Leap days close a March year, so a year has 366 days when the next
    // calendar year is a leap year.
    predicate InRange() {
      0 <= b && 0 <= r < 100 && 0 <= doy <= 365 &&
      (doy == 365 ==> r % 4 == 3 && (r == 99 ==> b % 4 == 3))
    }

    /** Days since 1 March -4800. */
    function Days(): int
      requires InRange()
    {
      36524 * b + b / 4 + 365 * r + r / 4 + doy
    }
  }

  /** Days of a March year before its month `m`, March being month 0. */
  function DaysBeforeMonth(m: int): int
    requires 0 <= m <= 11
  {
    [0, 31, 61, 92, 122, 153, 184, 214, 245, 275, 306, 337][m]
  }

  lemma MonthFormula(m: int)
    requires 0 <= m <= 11
    ensures DaysBeforeMonth(m) == Quot(153 * m + 2, 5)
  {
  }

  predicate IsOnOrAfterEpoch(date: YearMonthDay) {
    !Before(date, EPOCH)
  }

  function ToMarch(date: YearMonthDay): MarchDate
    requires Valid(date) && IsOnOrAfterEpoch(date)
  {
    var late := if date.month <= 2 then 1 else 0;
    var y := date.year + 4800 - late;
    MarchDate(y / 100, y % 100, DaysBeforeMonth(date.month + 12 * late - 3) + date.day - 1)
  }

  function MarchYear(date: YearMonthDay): int {
    date.year + 4800 - if date.month <= 2 then 1 else 0
  }

  lemma LeapMarchYearIff(b: nat, r: int)
    requires 0 <= r < 100
    ensures IsLeap(100 * b + r - 4799) <==> r % 4 == 3 && (r == 99 ==> b % 4 == 3)
  {
    var year := 100 * b + r - 4799;
    assert year == 4 * (25 * b - 1200) + (r + 1);
    if r == 99 {
      var century := b - 47;
      assert year == 100 * century;
      assert century % 4 == (b + 1) % 4;
      assert year % 400 == 0 <==> century % 4 == 0;
    } else {
      assert year == 100 * (b - 48) + (r + 1);
    }
  }

  lemma SplitCenturies(y: nat)
    ensures y / 4 == 25 * (y / 100) + (y % 100) / 4
    ensures y / 400 == (y / 100) / 4
  {
    assert y == 100 * (y / 100) + y % 100;
  }

  lemma LeapMarchYear(y: nat)
    requires IsLeap(y - 4799)
    ensures (y % 100) % 4 == 3 && (y % 100 == 99 ==> (y / 100) % 4 == 3)
  {
    LeapMarchYearIff(y / 100, y % 100);
  }

  lemma ToMarchIsValid(date: YearMonthDay)
    requires Valid(date) && IsOnOrAfterEpoch(date)
    ensures ToMarch(date).InRange()
    ensures JulianDayNumber(date) - FIRST_DAY == ToMarch(date).Days()
  {
    var late := if date.month <= 2 then 1 else 0;
    var y := date.year + 4800 - late;
    SplitCenturies(y);
    assert Quot(14 - date.month, 12) == late;
    MonthFormula(date.month + 12 * late - 3);
    if date.month == 2 && date.day == 29 {
      LeapMarchYear(y);
    }
  }

  /** The divisions of `YearMonthDayOf` on a day count yield century, year and
      day of the year. */
  predicate Splits(a: int, b: int, r: int, doy: int) {
    var c := a - (146097 * b) / 4;
    && a >= 0 && (4 * a + 3) / 146097 == b
    && c >= 0 && (4 * c + 3) / 1461 == r
    && c - (1461 * r) / 4 == doy
  }

  lemma SplitMarch(march: MarchDate)
    requires march.InRange()
    ensures Splits(march.Days(), march.b, march.r, march.doy)
  {
    var a := march.Days();
    assert (146097 * march.b) / 4 == 36524 * march.b + march.b / 4;
    assert 4 * a + 3 == 146097 * march.b + (4 * (365 * march.r + march.r / 4 + march.doy) + 3 - march.b % 4);
    assert (1461 * march.r) / 4 == 365 * march.r + march.r / 4;
  }

  /** Conversely, every day count splits into a valid March date. */
  function FromDays(a: nat): (march: MarchDate)
    ensures march.InRange() && march.Days() == a
  {
    var b := (4 * a + 3) / 146097;
    var c := a - (146097 * b) / 4;
    assert (146097 * b) / 4 == 36524 * b + b / 4;
    assert b % 4 <= 4 * c + 3 < 146097 + b % 4;
    var r := (4 * c + 3) / 1461;
    var doy := c - (1461 * r) / 4;
    assert (1461 * r) / 4 == 365 * r + r / 4;
    MarchDate(b, r, doy)
  }

  /** The month of a March year that holds its day `doy`. */
  function MarchMonth(doy: int): (m: int)
    requires 0 <= doy <= 365
    ensures 0 <= m <= 11
    ensures DaysBeforeMonth(m) <= doy
    ensures m < 11 ==> doy < DaysBeforeMonth(m + 1)
  {
    (5 * doy + 2) / 153
  }

  function FromMarch(march: MarchDate): YearMonthDay
    requires march.InRange()
  {
    var m := MarchMonth(march.doy);
    var y := 100 * march.b + march.r - 4800;
    if m < 10 then YearMonthDay(y, m + 3, march.doy - DaysBeforeMonth(m) + 1)
    else YearMonthDay(y + 1, m - 9, march.doy - DaysBeforeMonth(m) + 1)
  }

  lemma FromMarchYearIs(march: MarchDate)
    requires march.InRange()
    ensures FromMarchYear(march.b, march.r, march.doy) == FromMarch(march)
  {
    MonthFormula(MarchMonth(march.doy));
  }

  lemma FromMarchInverse(march: MarchDate)
    requires march.InRange()
    ensures var date := FromMarch(march);
            Valid(date) && IsOnOrAfterEpoch(date) && ToMarch(date) == march
  {
    LeapMarchYearIff(march.b, march.r);
    CenturyOf(march.b, march.r);
  }

  lemma CenturyOf(b: nat, r: nat)
    requires r < 100
    ensures (100 * b + r) / 100 == b && (100 * b + r) % 100 == r
  {
  }

  lemma ToMarchInverse(date: YearMonthDay)
    requires Valid(date) && IsOnOrAfterEpoch(date)
    ensures ToMarch(date).InRange() && FromMarch(ToMarch(date)) == date
  {
    assert 100 * ToMarch(date).b + ToMarch(date).r == MarchYear(date);
    assert ToMarch(date).doy == DaysBeforeMonth((date.month + 9) % 12) + date.day - 1;
    hide ToMarch, FromMarch;
    ToMarchIsValid(date);
    FromMarchAt(ToMarch(date), date);
  }

  lemma FromMarchAt(march: MarchDate, date: YearMonthDay)
    requires march.InRange() && Valid(date)
    requires 100 * march.b + march.r == MarchYear(date)
    requires march.doy == DaysBeforeMonth((date.month + 9) % 12) + date.day - 1
    ensures FromMarch(march) == date
  {
    var m := (date.month + 9) % 12;
    assert m < 11 ==> march.doy < DaysBeforeMonth(m + 1);
    assert MarchMonth(march.doy) == m by {
      MonthIsUnique(march.doy, m);
    }
  }

  lemma MonthIsUnique(doy: int, m: int)
    requires 0 <= doy <= 365 && 0 <= m <= 11
    requires DaysBeforeMonth(m) <= doy
    requires m < 11 ==> doy < DaysBeforeMonth(m + 1)
    ensures MarchMonth(doy) == m
  {
  }

  lemma DecodeIsFromMarch(march: MarchDate, j: int)
    requires march.InRange() && j == march.Days() + FIRST_DAY
    ensures YearMonthDayOf(j) == FromMarch(march)
  {
    assert march.b >= 0 && march.r >= 0 && march.doy >= 0;
    assert j - march.Days() == FIRST_DAY;
    hide *;
    SplitMarch(march);
    FromMarchYearIs(march);
    DecodeSteps(march.Days(), march.b, march.r, march.doy);
  }

  lemma DecodeSteps(a: int, b: nat, r: nat, doy: nat)
    requires Splits(a, b, r, doy)
    ensures YearMonthDayOf(a + FIRST_DAY) == FromMarchYear(b, r, doy)
  {
    hide FromMarchYear;
    var c := a - (146097 * b) / 4;
    assert Quot(b * 146097, 4) == (146097 * b) / 4;
    assert Quot(1461 * r, 4) == (1461 * r) / 4;
  }

  // ------------------------------------------------------------ main results

  /** Decoding then encoding: every day number from -32044 on is a real date. */
  lemma DecodeEncode(j: int)
    requires j >= FIRST_DAY
    ensures Valid(YearMonthDayOf(j)) && IsOnOrAfterEpoch(YearMonthDayOf(j))
    ensures JulianDayNumber(YearMonthDayOf(j)) == j
  {
    hide *;
    var march := FromDays(j - FIRST_DAY);
    DecodeIsFromMarch(march, j);
    FromMarchInverse(march);
    ToMarchIsValid(FromMarch(march));
  }

  /** Encoding then decoding: no two dates share a day number. */
  lemma EncodeDecode(date: YearMonthDay)
    requires Valid(date) && IsOnOrAfterEpoch(date)
    ensures JulianDayNumber(date) >= FIRST_DAY
    ensures YearMonthDayOf(JulianDayNumber(date)) == date
  {
    hide *;
    ToMarchIsValid(date);
    ToMarchInverse(date);
    SplitMarch(ToMarch(date));
    DecodeIsFromMarch(ToMarch(date), JulianDayNumber(date));
  }

  /** Below day -32044 truncation pushes the decoded day to 0 or less. */
  lemma DecodeBeforeFirstDay(j: int)
    requires j < FIRST_DAY
    ensures YearMonthDayOf(j).day <= 0
  {
    var k := FIRST_DAY - j;
    var b := (4 * k - 3) / 146097;
    assert Quot(-4 * k + 3, 146097) == -b;
    var c := k - (146097 * b) / 4;
    assert c >= 1;
    assert Quot(-b * 146097, 4) == -((146097 * b) / 4);
    var d := (4 * c - 3) / 1461;
    assert Quot(-4 * c + 3, 1461) == -d;
    assert Quot(1461 * -d, 4) == -((1461 * d) / 4);
    var e := c - (1461 * d) / 4;
    assert e >= 1;
    assert Quot(-5 * e + 2, 153) == -((5 * e - 2) / 153);
  }

  lemma DecodeIsValidIff(j: int)
    ensures Valid(YearMonthDayOf(j)) <==> j >= FIRST_DAY
  {
    if j >= FIRST_DAY {
      DecodeEncode(j);
    } else {
      DecodeBeforeFirstDay(j);
    }
  }

  lemma EncodeBeforeEpoch(date: YearMonthDay)
    requires Valid(date) && !IsOnOrAfterEpoch(date)
    ensures JulianDayNumber(date) <= FIRST_DAY
  {
    var late := if date.month <= 2 then 1 else 0;
    var y := date.year + 4800 - late;
    assert Quot(14 - date.month, 12) == late;
    assert y <= -1;
    assert 365 * y + Quot(y, 4) - Quot(y, 100) + Quot(y, 400) <= -365;
  }

  /** The round trip of a date holds exactly from 1 March -4800 on;
      29 February -4800 is the first to collide, with the day after it. */
  lemma RoundTripIff(date: YearMonthDay)
    requires Valid(date)
    ensures YearMonthDayOf(JulianDayNumber(date)) == date <==> IsOnOrAfterEpoch(date)
  {
    if IsOnOrAfterEpoch(date) {
      EncodeDecode(date);
    } else {
      EncodeBeforeEpoch(date);
      DecodeMisses(date, JulianDayNumber(date));
    }
  }

  lemma DecodeMisses(date: YearMonthDay, j: int)
    requires Valid(date) && !IsOnOrAfterEpoch(date)
    requires j <= FIRST_DAY
    ensures YearMonthDayOf(j) != date
  {
    if j < FIRST_DAY {
      DecodeBeforeFirstDay(j);
    } else {
      DecodeEncode(j);
    }
  }

  lemma LeapDayOfEpochCollides()
    ensures JulianDayNumber(YearMonthDay(-4800, 2, 29)) == JulianDayNumber(EPOCH)
    ensures Valid(YearMonthDay(-4800, 2, 29))
  {
  }

  /** The formula counts days of the Gregorian calendar. */
  lemma Successor(date: YearMonthDay)
    requires Valid(date) && IsOnOrAfterEpoch(date)
    ensures Valid(NextDate(date)) && IsOnOrAfterEpoch(NextDate(date))
    ensures JulianDayNumber(NextDate(date)) == JulianDayNumber(date) + 1
  {
    ToMarchIsValid(date);
    ToMarchIsValid(NextDate(date));
    NextMarchDate(date);
  }

  lemma NextMarchDate(date: YearMonthDay)
    requires Valid(date) && IsOnOrAfterEpoch(date)
    ensures Valid(NextDate(date)) && IsOnOrAfterEpoch(NextDate(date))
    ensures ToMarch(date).InRange() && ToMarch(NextDate(date)).InRange()
    ensures ToMarch(NextDate(date)).Days() == ToMarch(date).Days() + 1
  {
    ToMarchIsValid(date);
    ToMarchIsValid(NextDate(date));
    if date.month == 2 && NextDate(date).month == 3 {
      LastDayOfMarchYear(date);
    } else {
      SameMarchYear(date);
    }
  }

  lemma SameMarchYear(date: YearMonthDay)
    requires Valid(date) && IsOnOrAfterEpoch(date)
    requires date.month == 2 ==> NextDate(date).month == 2
    ensures var march := ToMarch(date); ToMarch(NextDate(date)) == march.(doy := march.doy + 1)
  {
  }

  lemma LastDayOfMarchYear(date: YearMonthDay)
    requires Valid(date) && IsOnOrAfterEpoch(date)
    requires date.month == 2 && NextDate(date).month == 3
    ensures ToMarch(date).InRange() && ToMarch(NextDate(date)).InRange()
    ensures ToMarch(NextDate(date)).Days() == ToMarch(date).Days() + 1
  {
    var y := date.year + 4799;
    var b, r := y / 100, y % 100;
    LeapMarchYearIff(b, r);
    assert IsLeap(date.year) <==> r % 4 == 3 && (r == 99 ==> b % 4 == 3);
    assert ToMarch(date) == MarchDate(b, r, if IsLeap(date.year) then 365 else 364);
    NextCentury(y);
  }

  lemma NextCentury(y: nat)
    ensures (y + 1) / 100 == if y % 100 == 99 then y / 100 + 1 else y / 100
    ensures (y + 1) % 100 == if y % 100 == 99 then 0 else y % 100 + 1
  {
  }

  /** Day numbers order dates as the calendar does. */
  lemma EncodeKeepsOrder(d: YearMonthDay, e: YearMonthDay)
    requires Valid(d) && IsOnOrAfterEpoch(d) && Valid(e) && IsOnOrAfterEpoch(e)
    ensures Before(d, e) <==> JulianDayNumber(d) < JulianDayNumber(e)
  {
    if Before(d, e) {
      BeforeEncodesLess(d, e);
    } else if d == e {
    } else {
      BeforeEncodesLess(e, d);
    }
  }

  lemma BeforeEncodesLess(d: YearMonthDay, e: YearMonthDay)
    requires Valid(d) && IsOnOrAfterEpoch(d) && Valid(e) && IsOnOrAfterEpoch(e)
    requires Before(d, e)
    ensures JulianDayNumber(d) < JulianDayNumber(e)
  {
    ToMarchIsValid(d);
    ToMarchIsValid(e);
    MarchKeepsOrder(d, e);
    DaysKeepOrder(ToMarch(d), ToMarch(e));
  }

  predicate MarchBefore(d: MarchDate, e: MarchDate) {
    d.b < e.b || (d.b == e.b && (d.r < e.r || (d.r == e.r && d.doy < e.doy)))
  }

  lemma MarchKeepsOrder(d: YearMonthDay, e: YearMonthDay)
    requires Valid(d) && IsOnOrAfterEpoch(d) && Valid(e) && IsOnOrAfterEpoch(e)
    requires Before(d, e)
    ensures MarchBefore(ToMarch(d), ToMarch(e))
  {
    var y, z := MarchYear(d), MarchYear(e);
    assert ToMarch(d).b == y / 100 && ToMarch(d).r == y % 100;
    assert ToMarch(e).b == z / 100 && ToMarch(e).r == z % 100;
    if y < z {
      CenturiesKeepOrder(y, z);
    } else {
      assert y == z;
    }
  }

  lemma CenturiesKeepOrder(y: nat, z: nat)
    requires y < z
    ensures y / 100 < z / 100 || (y / 100 == z / 100 && y % 100 < z % 100)
  {
  }

  lemma DaysKeepOrder(d: MarchDate, e: MarchDate)
    requires d.InRange() && e.InRange()
    requires MarchBefore(d, e)
    ensures d.Days() < e.Days()
  {
  }

  /** `n` days after `date`, one calendar day at a time. */
  function DateAfter(date: YearMonthDay, n: nat): (r: YearMonthDay)
    requires Valid(date)
    ensures Valid(r)
  {
    if n == 0 then date else NextDate(DateAfter(date, n - 1))
  }

  /** Decoding jumps straight to where walking the calendar day by day arrives. */
  lemma {:induction false} DecodeIsCalendarWalk(date: YearMonthDay, n: nat)
    requires Valid(date) && IsOnOrAfterEpoch(date)
    ensures IsOnOrAfterEpoch(DateAfter(date, n))
    ensures JulianDayNumber(DateAfter(date, n)) == JulianDayNumber(date) + n
    ensures YearMonthDayOf(JulianDayNumber(date) + n) == DateAfter(date, n)
  {
    hide YearMonthDayOf, JulianDayNumber, NextDate;
    if n > 0 {
      DecodeIsCalendarWalk(date, n - 1);
      Successor(DateAfter(date, n - 1));
    }
    EncodeDecode(DateAfter(date, n));
  }

  /** The week day by the calendar: cyclic in both directions, and 1970-01-01
      was a Thursday. */
  function DayOfWeek(j: int): (day: int)
    ensures 0 <= day < 7
  {
    (4 + j - DAY_OF_1970_01_01) % 7
  }

  /** Below day -1 the remainder turns negative: the code is right exactly from
      there on, and on every seventh day before. */
  lemma WeekDayIff(j: int)
    ensures WeekDay(j) == DayOfWeek(j) <==> j >= -1 || (j + 1) % 7 == 0
    ensures 0 <= WeekDay(j) < 7 <==> j >= -1 || (j + 1) % 7 == 0
    ensures WeekDay(j) % 7 == DayOfWeek(j)
  {
    assert DAY_OF_1970_01_01 == 2440588;
    assert DayOfWeek(j) == (j + 1) % 7;
  }

  lemma WeekDayTruncates()
    ensures WeekDay(-3) == -2 && DayOfWeek(-3) == 5
  {
    assert DAY_OF_1970_01_01 == 2440588;
  }

  /** The code's week days follow each other cyclically exactly from day -1 on,
      and across the seventh days before. */
  lemma WeekDayAdvancesIff(j: int)
    ensures WeekDay(j + 1) == (WeekDay(j) + 1) % 7 <==> j >= -1 || (j + 2) % 7 == 0
  {
    WeekDayIff(j);
    WeekDayIff(j + 1);
  }

  // ----------------------------------------------------------- 32-bit `int`s

  /** Largest day number for which `4 * a + 3` is still an `int`. */
  const LAST_DAY := (INT32_MAX - 3) / 4 + FIRST_DAY

  /** No intermediate of `YearMonthDayOf` leaves the 32-bit range. */
  predicate DecodeFits(j: int) {
    var a := j + 32044;
    var b := Quot(4 * a + 3, 146097);
    var c := a - Quot(b * 146097, 4);
    var d := Quot(4 * c + 3, 1461);
    var e := c - Quot(1461 * d, 4);
    var m := Quot(5 * e + 2, 153);
    IsInt32(a) && IsInt32(4 * a + 3) && IsInt32(b * 146097) && IsInt32(c) && IsInt32(4 * c + 3) &&
    IsInt32(1461 * d) && IsInt32(5 * e + 2) && IsInt32(153 * m + 2) &&
    IsInt32(b * 100 + d)
  }

  /** And the smallest. */
  const LEAST_DAY := INT32_MIN / 4 + FIRST_DAY

  lemma DecodeFitsIff(j: int)
    ensures DecodeFits(j) <==> LEAST_DAY <= j <= LAST_DAY
  {
    if j >= FIRST_DAY {
      DecodeFitsAbove(j);
    } else {
      DecodeFitsBelow(j);
    }
  }

  lemma DecodeFitsAbove(j: int)
    requires j >= FIRST_DAY
    ensures DecodeFits(j) <==> j <= LAST_DAY
  {
    var march := FromDays(j - FIRST_DAY);
    SplitMarch(march);
    var a := j + 32044;
    assert march.b * 146097 <= 4 * a + 3;
  }

  lemma DecodeFitsBelow(j: int)
    requires j < FIRST_DAY
    ensures DecodeFits(j) <==> LEAST_DAY <= j
  {
    var k := FIRST_DAY - j;
    var b := (4 * k - 3) / 146097;
    assert Quot(-4 * k + 3, 146097) == -b;
    var c := k - (146097 * b) / 4;
    assert 1 <= c <= 36526;
    assert Quot(-b * 146097, 4) == -((146097 * b) / 4);
    var d := (4 * c - 3) / 1461;
    assert Quot(-4 * c + 3, 1461) == -d;
    assert 0 <= d <= 100;
    assert Quot(1461 * -d, 4) == -((1461 * d) / 4);
    var e := c - (1461 * d) / 4;
    assert 1 <= e <= 367;
    assert Quot(-5 * e + 2, 153) == -((5 * e - 2) / 153);
  }
}
