/** UTC and local calendar time (muduo/base/TimeZone.cc). */
module TimeZone {
  import opened CppArithmetic
  import opened Date

  const SECONDS_PER_DAY := 24 * 60 * 60

  /** The C library's broken-down time. */
  datatype Tm = Tm(
    sec: int, min: int, hour: int, mday: int, mon: int, year: int,
    wday: int, yday: int, isDst: bool, gmtoff: int)

  const ZERO_TM := Tm(0, 0, 0, 0, 0, 0, 0, 0, false, 0)

  function DateOf(tm: Tm): YearMonthDay {
    YearMonthDay(tm.year + 1900, tm.mon + 1, tm.mday)
  }

  // ------------------------------------------------------------------- UTC

  /** The date and time of day, as a value. */
  function UtcTime(secondsSinceEpoch: int, yday: bool): Tm {
    var rem := ToInt32(Rem(secondsSinceEpoch, SECONDS_PER_DAY));
    var quot := ToInt32(Quot(secondsSinceEpoch, SECONDS_PER_DAY));
    var seconds := if rem < 0 then rem + SECONDS_PER_DAY else rem;
    var days := if rem < 0 then quot - 1 else quot;
    BrokenDown(days, seconds, yday)
  }

  function BrokenDown(days: int, seconds: nat, yday: bool): Tm {
    var julianDay := days + DAY_OF_1970_01_01;
    var date := YearMonthDayOf(julianDay);
    Tm(seconds % 60, seconds / 60 % 60, seconds / 60 / 60,
       date.day, date.month - 1, date.year - 1900,
       WeekDay(julianDay),
       if yday then julianDay - JulianDayNumber(YearMonthDay(date.year, 1, 1)) else 0,
       false, 0)
  }

  method FillHMS(seconds: nat, utc: Tm) returns (r: Tm)
    ensures r == utc.(sec := seconds % 60, min := seconds / 60 % 60, hour := seconds / 60 / 60)
    ensures r.hour * 3600 + r.min * 60 + r.sec == seconds && 0 <= r.min < 60 && 0 <= r.sec < 60
  {
    r := utc.(sec := seconds % 60);
    var minutes := seconds / 60;
    r := r.(min := minutes % 60);
    r := r.(hour := minutes / 60);
  }

  method ToUtcTime(secondsSinceEpoch: int, yday: bool) returns (utc: Tm)
    ensures utc == UtcTime(secondsSinceEpoch, yday)
  {
    hide YearMonthDayOf, JulianDayNumber, WeekDay, ToInt32, Quot, Rem;
    utc := ZERO_TM;
    var seconds := ToInt32(Rem(secondsSinceEpoch, SECONDS_PER_DAY));
    var days := ToInt32(Quot(secondsSinceEpoch, SECONDS_PER_DAY));
    if seconds < 0 {
      seconds := seconds + SECONDS_PER_DAY;
      days := days - 1;
    }
    utc := FillHMS(seconds, utc);
    var julianDay := days + DAY_OF_1970_01_01;
    var date := YearMonthDayOf(julianDay);
    utc := utc.(year := date.year - 1900, mon := date.month - 1, mday := date.day);
    utc := utc.(wday := WeekDay(julianDay));
    if yday {
      var startOfYear := JulianDayNumber(YearMonthDay(date.year, 1, 1));
      utc := utc.(yday := julianDay - startOfYear);
    }
  }

  function FromUtcTime(utc: Tm): int {
    var secondsInDay := utc.hour * 3600 + utc.min * 60 + utc.sec;
    var days := JulianDayNumber(DateOf(utc)) - DAY_OF_1970_01_01;
    days * SECONDS_PER_DAY + secondsInDay
  }

  /** The day a second falls in; Euclidean division rounds down. */
  function JulianDayOf(t: int): int {
    t / SECONDS_PER_DAY + DAY_OF_1970_01_01
  }

  /** Seconds whose day is decodable without signed overflow. */
  predicate Supported(t: int) {
    FIRST_DAY <= JulianDayOf(t) <= LAST_DAY
  }

  predicate IsTimeOfDay(tm: Tm) {
    0 <= tm.hour < 24 && 0 <= tm.min < 60 && 0 <= tm.sec < 60
  }

  /** Truncating split plus correction is the mathematical split, for times
      before 1970 too. */
  lemma SplitRoundsDown(t: int)
    ensures var r := Rem(t, SECONDS_PER_DAY);
            var q := Quot(t, SECONDS_PER_DAY);
            && (if r < 0 then r + SECONDS_PER_DAY else r) == t % SECONDS_PER_DAY
            && (if r < 0 then q - 1 else q) == t / SECONDS_PER_DAY
  {
  }

  lemma SupportedDays(t: int)
    requires Supported(t)
    ensures -2472632 <= t / SECONDS_PER_DAY <= 534398279
  {
    assert DAY_OF_1970_01_01 == 2440588;
  }

  lemma SplitIs(t: int, yday: bool)
    requires -2472632 <= t / SECONDS_PER_DAY <= 534398279
    ensures UtcTime(t, yday) == BrokenDown(t / SECONDS_PER_DAY, t % SECONDS_PER_DAY, yday)
  {
    hide YearMonthDayOf, JulianDayNumber, WeekDay, BrokenDown, ToInt32, Quot, Rem;
    SplitRoundsDown(t);
  }

  lemma UtcTimeIs(t: int, yday: bool)
    requires Supported(t)
    ensures UtcTime(t, yday) == BrokenDown(t / SECONDS_PER_DAY, t % SECONDS_PER_DAY, yday)
  {
    hide *;
    SupportedDays(t);
    SplitRoundsDown(t);
    SplitIs(t, yday);
  }

  lemma ClockFields(seconds: int, tm: Tm)
    requires 0 <= seconds < SECONDS_PER_DAY
    requires tm.sec == seconds % 60 && tm.min == seconds / 60 % 60 && tm.hour == seconds / 60 / 60
    ensures IsTimeOfDay(tm) && tm.hour * 3600 + tm.min * 60 + tm.sec == seconds
  {
  }

  /** When the truncating `weekDay` is right. */
  predicate WeekDayIsRight(julianDay: int) {
    julianDay >= -1 || (julianDay + 1) % 7 == 0
  }

  /** The week day of a second leaves its range exactly when it is wrong. */
  lemma WdayRangeIff(t: int, yday: bool)
    requires Supported(t)
    ensures 0 <= UtcTime(t, yday).wday < 7 <==> WeekDayIsRight(JulianDayOf(t))
  {
    hide YearMonthDayOf, JulianDayNumber, UtcTime, WeekDay;
    UtcTimeIs(t, yday);
    WeekDayIff(JulianDayOf(t));
  }

  lemma WdayLeavesRange()
    ensures var t := (-3 - DAY_OF_1970_01_01) * SECONDS_PER_DAY;
            Supported(t) && UtcTime(t, true).wday == -2
  {
    hide YearMonthDayOf, JulianDayNumber, UtcTime, WeekDay;
    var t := (-3 - DAY_OF_1970_01_01) * SECONDS_PER_DAY;
    assert t / SECONDS_PER_DAY == -3 - DAY_OF_1970_01_01;
    assert Supported(t);
    UtcTimeIs(t, true);
    WeekDayTruncates();
  }

  lemma UtcTimeFields(t: int, yday: bool)
    requires Supported(t)
    ensures var utc := UtcTime(t, yday);
            && DateOf(utc) == YearMonthDayOf(JulianDayOf(t))
            && IsTimeOfDay(utc)
            && utc.hour * 3600 + utc.min * 60 + utc.sec == t % SECONDS_PER_DAY
            && !utc.isDst && utc.gmtoff == 0
            && (utc.wday == DayOfWeek(JulianDayOf(t)) <==> WeekDayIsRight(JulianDayOf(t)))
            && (yday ==> utc.yday == JulianDayOf(t) - JulianDayNumber(YearMonthDay(DateOf(utc).year, 1, 1)))
  {
    hide YearMonthDayOf, JulianDayNumber, WeekDay, UtcTime;
    UtcTimeIs(t, yday);
    ClockFields(t % SECONDS_PER_DAY, UtcTime(t, yday));
    WeekDayIff(JulianDayOf(t));
  }

  // ---------------------------------------------------------- day of the year

  function DaysBefore(year: int, month: int): nat
    requires 1 <= month <= 12
    decreases month
  {
    if month == 1 then 0 else DaysBefore(year, month - 1) + MonthLength(year, month - 1)
  }

  function DayOfYear(date: YearMonthDay): nat
    requires Valid(date)
  {
    DaysBefore(date.year, date.month) + date.day - 1
  }

  lemma {:induction false} DaysBeforeIs(year: int, month: int)
    requires 1 <= month <= 12
    ensures DaysBefore(year, month)
         == [0, 31, 59, 90, 120, 151, 181, 212, 243, 273, 304, 334][month - 1]
          + if IsLeap(year) && month > 2 then 1 else 0
    decreases month
  {
    hide IsLeap;
    if month > 1 {
      DaysBeforeIs(year, month - 1);
    }
  }

  lemma {:induction false} DayOfYearCounts(year: int, month: int)
    requires year > -4800 && 1 <= month <= 12
    ensures JulianDayNumber(YearMonthDay(year, month, 1)) - JulianDayNumber(YearMonthDay(year, 1, 1))
         == DaysBefore(year, month)
    decreases month
  {
    if month > 1 {
      DayOfYearCounts(year, month - 1);
      NextMonth(year, month);
    }
  }

  lemma NextMonth(year: int, month: int)
    requires 2 <= month <= 12 && IsOnOrAfterEpoch(YearMonthDay(year, month - 1, 1))
    ensures JulianDayNumber(YearMonthDay(year, month, 1))
         == JulianDayNumber(YearMonthDay(year, month - 1, 1)) + MonthLength(year, month - 1)
  {
    var last := YearMonthDay(year, month - 1, MonthLength(year, month - 1));
    DayIsLinear(last, 1);
    hide JulianDayNumber;
    Successor(last);
  }

  lemma DayIsLinear(date: YearMonthDay, day: int)
    ensures JulianDayNumber(date.(day := day)) == JulianDayNumber(date) + day - date.day
  {
  }

  /** `tm_yday` counts the days since 1 January, except in year -4800, whose
      1 January lies outside the range of the formula. */
  lemma YdayIff(t: int)
    requires Supported(t)
    ensures var utc := UtcTime(t, true);
            && Valid(DateOf(utc))
            && (utc.yday == DayOfYear(DateOf(utc)) <==> DateOf(utc).year != -4800)
            && 0 <= utc.yday <= 365
  {
    hide YearMonthDayOf, JulianDayNumber, UtcTime, WeekDay, IsLeap, DaysBefore;
    UtcTimeFields(t, true);
    DecodeEncode(JulianDayOf(t));
    DaysSinceJanuary(YearMonthDayOf(JulianDayOf(t)));
    DayOfYearRange(YearMonthDayOf(JulianDayOf(t)));
  }

  /** The first day of the formula, 1 March -4800, is day 60 of its leap year. */
  lemma YdayMisses()
    ensures var utc := UtcTime((FIRST_DAY - DAY_OF_1970_01_01) * SECONDS_PER_DAY, true);
            DateOf(utc) == EPOCH && DayOfYear(EPOCH) == 60 && utc.yday == 59
  {
    hide YearMonthDayOf, JulianDayNumber, UtcTime, WeekDay, IsLeap, DaysBefore;
    var t := (FIRST_DAY - DAY_OF_1970_01_01) * SECONDS_PER_DAY;
    assert t / SECONDS_PER_DAY == FIRST_DAY - DAY_OF_1970_01_01;
    EpochIsFirst();
    UtcTimeFields(t, true);
    EncodeDecode(EPOCH);
    DaysSinceJanuary(EPOCH);
    DaysBeforeIs(-4800, 3);
  }

  lemma EpochIsFirst()
    ensures JulianDayNumber(EPOCH) == FIRST_DAY && Valid(EPOCH) && IsLeap(-4800)
  {
  }

  lemma DayOfYearRange(date: YearMonthDay)
    requires Valid(date)
    ensures DayOfYear(date) <= 365
    ensures date.month >= 3 ==> DayOfYear(date) >= 59
  {
    hide DaysBefore;
    DaysBeforeIs(date.year, date.month);
  }

  lemma DaysSinceJanuary(date: YearMonthDay)
    requires Valid(date) && IsOnOrAfterEpoch(date)
    ensures JulianDayNumber(date) - JulianDayNumber(YearMonthDay(date.year, 1, 1))
         == DayOfYear(date) - if date.year == -4800 then 1 else 0
  {
    hide JulianDayNumber;
    DayIsLinear(date, 1);
    if date.year > -4800 {
      DayOfYearCounts(date.year, date.month);
    } else {
      FirstYear(date);
    }
  }

  lemma FirstYear(date: YearMonthDay)
    requires Valid(date) && IsOnOrAfterEpoch(date) && date.year == -4800
    ensures JulianDayNumber(date) - JulianDayNumber(YearMonthDay(-4800, 1, 1)) == DayOfYear(date) - 1
  {
    FirstYearCounts(date.month);
    DayIsLinear(date, 1);
  }

  lemma {:induction false} FirstYearCounts(month: int)
    requires 3 <= month <= 12
    ensures JulianDayNumber(YearMonthDay(-4800, month, 1)) - JulianDayNumber(YearMonthDay(-4800, 1, 1))
         == DaysBefore(-4800, month) - 1
  {
    if month > 3 {
      FirstYearCounts(month - 1);
      NextMonth(-4800, month);
    } else {
      assert DaysBefore(-4800, 2) == 31;
    }
  }

  // ------------------------------------------------------- the UTC round trip

  /** What the C library promises of the fields, leap seconds aside. */
  predicate FieldsInRange(tm: Tm) {
    && IsTimeOfDay(tm)
    && 0 <= tm.mon < 12 && 1 <= tm.mday <= 31
    && 0 <= tm.wday < 7 && 0 <= tm.yday <= 365
  }

  /** Every supported second comes back; of its fields only the week day ever
      leaves its range. */
  lemma UtcRoundTrip(t: int, yday: bool)
    requires Supported(t)
    ensures FromUtcTime(UtcTime(t, yday)) == t
    ensures Valid(DateOf(UtcTime(t, yday))) && IsTimeOfDay(UtcTime(t, yday)) && 0 <= UtcTime(t, yday).yday <= 365
    ensures FieldsInRange(UtcTime(t, yday)) <==> WeekDayIsRight(JulianDayOf(t))
  {
    hide YearMonthDayOf, JulianDayNumber, WeekDay, UtcTime, IsLeap, DayOfYear;
    UtcTimeFields(t, yday);
    DecodeEncode(JulianDayOf(t));
    WdayRangeIff(t, yday);
    if yday {
      YdayIff(t);
    } else {
      NoYday(t);
    }
  }

  lemma NoYday(t: int)
    ensures UtcTime(t, false).yday == 0
  {
    hide YearMonthDayOf, JulianDayNumber, WeekDay, ToInt32, Quot, Rem;
  }

  /** And back: every valid date and time of day names one second. */
  lemma UtcRoundTripBack(utc: Tm, yday: bool)
    requires Valid(DateOf(utc)) && IsOnOrAfterEpoch(DateOf(utc)) && IsTimeOfDay(utc)
    requires JulianDayNumber(DateOf(utc)) <= LAST_DAY
    ensures var back := UtcTime(FromUtcTime(utc), yday);
            DateOf(back) == DateOf(utc) &&
            back.hour == utc.hour && back.min == utc.min && back.sec == utc.sec
  {
    hide YearMonthDayOf, JulianDayNumber, WeekDay, UtcTime;
    var t := FromUtcTime(utc);
    EncodeDecode(DateOf(utc));
    var inDay := utc.hour * 3600 + utc.min * 60 + utc.sec;
    assert t / SECONDS_PER_DAY == JulianDayNumber(DateOf(utc)) - DAY_OF_1970_01_01 && t % SECONDS_PER_DAY == inDay;
    UtcTimeFields(t, yday);
  }

  // ------------------------------------------------------------------- zones

  datatype Localtime = Localtime(gmtOffset: int, isDst: bool)

  datatype Transition = Transition(gmttime: int, localtime: int, localtimeIdx: nat)

  datatype Zone = Zone(transitions: seq<Transition>, localtimes: seq<Localtime>) {
    // What reading a zone file establishes; a fixed zone has one local type.
    predicate WellFormed() {
      && |localtimes| > 0
      && forall i :: 0 <= i < |transitions| ==>
           transitions[i].localtimeIdx < |localtimes| &&
           transitions[i].localtime == transitions[i].gmttime + localtimes[transitions[i].localtimeIdx].gmtOffset
    }
  }

  function Key(transition: Transition, compareGmt: bool): int {
    if compareGmt then transition.gmttime else transition.localtime
  }

  /** What a binary search demands of its range. */
  predicate SortedBy(transitions: seq<Transition>, compareGmt: bool) {
    forall i, j :: 0 <= i < j < |transitions| ==>
      Key(transitions[i], compareGmt) <= Key(transitions[j], compareGmt)
  }

  /** `i` is the first transition at `x` or, if there is none, the last before
      it, or -1. */
  predicate Governs(transitions: seq<Transition>, x: int, compareGmt: bool, i: int) {
    && -1 <= i < |transitions|
    && (i >= 0 ==> Key(transitions[i], compareGmt) <= x)
    && if i >= 0 && Key(transitions[i], compareGmt) == x then
         forall j :: 0 <= j < i ==> Key(transitions[j], compareGmt) < x
       else
         forall j :: i < j < |transitions| ==> x < Key(transitions[j], compareGmt)
  }

  function GoverningIndex(transitions: seq<Transition>, x: int, compareGmt: bool): (i: int)
    ensures -1 <= i < |transitions|
    ensures SortedBy(transitions, compareGmt) ==> Governs(transitions, x, compareGmt, i)
    decreases |transitions|
  {
    var n := |transitions|;
    if n == 0 then -1
    else
      var i := GoverningIndex(transitions[..n - 1], x, compareGmt);
      assert forall j :: 0 <= j < n - 1 ==> transitions[..n - 1][j] == transitions[j];
      var last := Key(transitions[n - 1], compareGmt);
      if last < x || (last == x && !(i >= 0 && Key(transitions[i], compareGmt) == x)) then n - 1 else i
  }

  function LocaltimeOf(zone: Zone, i: int): Localtime
    requires zone.WellFormed() && -1 <= i < |zone.transitions|
  {
    if i < 0 then zone.localtimes[0] else zone.localtimes[zone.transitions[i].localtimeIdx]
  }

  function LocaltimeAt(zone: Zone, x: int, compareGmt: bool): Localtime
    requires zone.WellFormed()
  {
    LocaltimeOf(zone, GoverningIndex(zone.transitions, x, compareGmt))
  }

  /** The first position whose key is not below `x`. */
  method LowerBound(transitions: seq<Transition>, x: int, compareGmt: bool) returns (first: nat)
    requires SortedBy(transitions, compareGmt)
    ensures first <= |transitions|
    ensures forall i :: 0 <= i < first ==> Key(transitions[i], compareGmt) < x
    ensures forall i :: first <= i < |transitions| ==> x <= Key(transitions[i], compareGmt)
  {
    first := 0;
    var len := |transitions|;
    while len > 0
      invariant 0 <= first <= first + len <= |transitions|
      invariant forall i :: 0 <= i < first ==> Key(transitions[i], compareGmt) < x
      invariant forall i :: first + len <= i < |transitions| ==> x <= Key(transitions[i], compareGmt)
    {
      var half := len / 2;
      var middle := first + half;
      if Key(transitions[middle], compareGmt) < x {
        first := middle + 1;
        len := len - half - 1;
      } else {
        len := half;
      }
    }
  }

  /** The iterator ends on the governing transition. */
  method FindLocaltime(zone: Zone, sentry: int, compareGmt: bool) returns (local: Localtime)
    requires zone.WellFormed()
    requires SortedBy(zone.transitions, compareGmt)
    ensures local == LocaltimeAt(zone, sentry, compareGmt)
  {
    var transitions := zone.transitions;
    if |transitions| == 0 || sentry < Key(transitions[0], compareGmt) {
      local := zone.localtimes[0];
      GoverningIsUnique(transitions, sentry, compareGmt, -1);
    } else {
      var transI := LowerBound(transitions, sentry, compareGmt);
      if transI != |transitions| {
        if sentry != Key(transitions[transI], compareGmt) {
          assert transI != 0;
          transI := transI - 1;
        }
        local := zone.localtimes[transitions[transI].localtimeIdx];
        GoverningIsUnique(transitions, sentry, compareGmt, transI);
      } else {
        local := zone.localtimes[transitions[|transitions| - 1].localtimeIdx];
        GoverningIsUnique(transitions, sentry, compareGmt, |transitions| - 1);
      }
    }
  }

  lemma GoverningIsUnique(transitions: seq<Transition>, x: int, compareGmt: bool, i: int)
    requires SortedBy(transitions, compareGmt) && Governs(transitions, x, compareGmt, i)
    ensures GoverningIndex(transitions, x, compareGmt) == i
  {
  }

  function LocalTime(zone: Zone, seconds: int): Tm
    requires zone.WellFormed()
  {
    var local := LocaltimeAt(zone, seconds, true);
    UtcTime(seconds + local.gmtOffset, true).(isDst := local.isDst, gmtoff := local.gmtOffset)
  }

  /** The branch marked HACK: the wall clock came from the other side of a
      fall-back. */
  predicate IsOtherCopy(zone: Zone, localTm: Tm)
    requires zone.WellFormed()
  {
    var seconds := FromUtcTime(localTm);
    var tryTm := LocalTime(zone, seconds - LocaltimeAt(zone, seconds, false).gmtOffset);
    localTm.isDst && !tryTm.isDst && tryTm.hour == localTm.hour && tryTm.min == localTm.min
  }

  function SecondsOfLocal(zone: Zone, localTm: Tm): int
    requires zone.WellFormed()
  {
    var seconds := FromUtcTime(localTm);
    seconds - (if IsOtherCopy(zone, localTm) then 3600 else 0) - LocaltimeAt(zone, seconds, false).gmtOffset
  }

  method ToLocalTime(zone: Zone, seconds: int) returns (localTime: Tm)
    requires zone.WellFormed() && SortedBy(zone.transitions, true)
    ensures localTime == LocalTime(zone, seconds)
  {
    hide UtcTime;
    var local := FindLocaltime(zone, seconds, true);
    var localSeconds := seconds + local.gmtOffset;
    localTime := ToUtcTime(localSeconds, true);
    localTime := localTime.(isDst := local.isDst);
    localTime := localTime.(gmtoff := local.gmtOffset);
  }

  method FromLocalTime(zone: Zone, localTm: Tm) returns (r: int)
    requires zone.WellFormed() && SortedBy(zone.transitions, true) && SortedBy(zone.transitions, false)
    ensures r == SecondsOfLocal(zone, localTm)
  {
    hide UtcTime, FromUtcTime;
    var seconds := FromUtcTime(localTm);
    var local := FindLocaltime(zone, seconds, false);
    if localTm.isDst {
      var tryTm := ToLocalTime(zone, seconds - local.gmtOffset);
      if !tryTm.isDst && tryTm.hour == localTm.hour && tryTm.min == localTm.min {
        seconds := seconds - 3600;
      }
    }
    r := seconds - local.gmtOffset;
    assert LocaltimeAt(zone, FromUtcTime(localTm), false) == local;
  }

  // -------------------------------------------- zones that alternate with DST

  predicate StrictlySortedBy(transitions: seq<Transition>, compareGmt: bool) {
    forall i, j :: 0 <= i < j < |transitions| ==>
      Key(transitions[i], compareGmt) < Key(transitions[j], compareGmt)
  }

  /** Without ties the governing transition is the last one that is not later. */
  predicate IsLastAtOrBefore(transitions: seq<Transition>, x: int, compareGmt: bool, i: int) {
    && -1 <= i < |transitions|
    && (i >= 0 ==> Key(transitions[i], compareGmt) <= x)
    && (forall j :: i < j < |transitions| ==> x < Key(transitions[j], compareGmt))
  }

  lemma LastIsGoverning(transitions: seq<Transition>, x: int, compareGmt: bool, i: int)
    requires StrictlySortedBy(transitions, compareGmt)
    ensures IsLastAtOrBefore(transitions, x, compareGmt, i) <==> GoverningIndex(transitions, x, compareGmt) == i
  {
    if IsLastAtOrBefore(transitions, x, compareGmt, i) {
      GoverningIsUnique(transitions, x, compareGmt, i);
    }
  }

  /** Standard offset `std`, summer time `shift` seconds ahead, the two types
      alternating from the first local type on, transitions more than `shift`
      apart. */
  predicate Alternates(zone: Zone, std: int, shift: int) {
    && zone.WellFormed()
    && shift > 0
    && (forall i :: -1 <= i < |zone.transitions| ==>
          LocaltimeOf(zone, i).gmtOffset == std + if LocaltimeOf(zone, i).isDst then shift else 0)
    && (forall i :: 0 <= i < |zone.transitions| ==>
          LocaltimeOf(zone, i).isDst != LocaltimeOf(zone, i - 1).isDst)
    && (forall i, j :: 0 <= i < j < |zone.transitions| ==>
          zone.transitions[i].gmttime + shift < zone.transitions[j].gmttime)
  }

  lemma AlternatesIsSorted(zone: Zone, std: int, shift: int)
    requires Alternates(zone, std, shift)
    ensures StrictlySortedBy(zone.transitions, true) && StrictlySortedBy(zone.transitions, false)
  {
    forall i, j | 0 <= i < j < |zone.transitions|
      ensures zone.transitions[i].localtime < zone.transitions[j].localtime
    {
      var t, u := zone.transitions[i], zone.transitions[j];
      assert LocaltimeOf(zone, i) == zone.localtimes[t.localtimeIdx];
      assert LocaltimeOf(zone, j) == zone.localtimes[u.localtimeIdx];
    }
  }

  /** The first pass of a wall-clock hour that a fall-back will repeat. */
  predicate InFirstCopy(zone: Zone, shift: int, t: int)
    requires zone.WellFormed()
  {
    LocaltimeAt(zone, t, true).isDst && !LocaltimeAt(zone, t + shift, true).isDst
  }

  /** The transition that ends the first copy, as positions in the table. */
  predicate NextFallsBack(zone: Zone, shift: int, t: int, i: int)
    requires zone.WellFormed() && -1 <= i < |zone.transitions|
  {
    LocaltimeOf(zone, i).isDst && i + 1 < |zone.transitions| && zone.transitions[i + 1].gmttime <= t + shift
  }

  lemma FirstCopyIs(zone: Zone, std: int, shift: int, t: int, i: int)
    requires Alternates(zone, std, shift)
    requires IsLastAtOrBefore(zone.transitions, t, true, i)
    ensures InFirstCopy(zone, shift, t) <==> NextFallsBack(zone, shift, t, i)
    ensures NextFallsBack(zone, shift, t, i) ==> IsLastAtOrBefore(zone.transitions, t + shift, true, i + 1)
  {
    hide GoverningIndex;
    AlternatesIsSorted(zone, std, shift);
    LastIsGoverning(zone.transitions, t, true, i);
    if NextFallsBack(zone, shift, t, i) {
      LastIsGoverning(zone.transitions, t + shift, true, i + 1);
      assert LocaltimeOf(zone, i + 1).isDst != LocaltimeOf(zone, i + 1 - 1).isDst;
    } else if LocaltimeOf(zone, i).isDst {
      LastIsGoverning(zone.transitions, t + shift, true, i);
    }
  }

  /** Searching by wall clock finds the governing transition of `t`, or the
      next one when `t` is in a first copy. */
  lemma SearchByWallClock(zone: Zone, std: int, shift: int, t: int, i: int)
    requires Alternates(zone, std, shift)
    requires IsLastAtOrBefore(zone.transitions, t, true, i)
    ensures IsLastAtOrBefore(zone.transitions, t + LocaltimeOf(zone, i).gmtOffset, false,
                    if NextFallsBack(zone, shift, t, i) then i + 1 else i)
  {
    hide GoverningIndex, Governs, SortedBy, IsLeap, Supported;
    var ts := zone.transitions;
    var wall := t + LocaltimeOf(zone, i).gmtOffset;
    AlternatesIsSorted(zone, std, shift);
    if i >= 0 {
      assert ts[i].localtime == ts[i].gmttime + LocaltimeOf(zone, i).gmtOffset;
    }
    if i + 1 < |ts| {
      assert LocaltimeOf(zone, i + 1).isDst != LocaltimeOf(zone, i + 1 - 1).isDst;
      assert ts[i + 1].localtime == ts[i + 1].gmttime + LocaltimeOf(zone, i + 1).gmtOffset;
      assert wall < ts[i + 1].localtime <==> !NextFallsBack(zone, shift, t, i);
    }
    if i + 2 < |ts| {
      assert ts[i + 2].localtime == ts[i + 2].gmttime + LocaltimeOf(zone, i + 2).gmtOffset;
      assert wall < ts[i + 2].localtime;
    }
  }

  /** The wall clock of `t` is in the supported range of years. */
  predicate WallClockSupported(zone: Zone, t: int)
    requires zone.WellFormed()
  {
    Supported(t + LocaltimeAt(zone, t, true).gmtOffset)
  }

  lemma WallClockOf(zone: Zone, t: int)
    requires zone.WellFormed() && WallClockSupported(zone, t)
    ensures var wall := t + LocaltimeAt(zone, t, true).gmtOffset;
            && FromUtcTime(LocalTime(zone, t)) == wall
            && LocalTime(zone, t).isDst == LocaltimeAt(zone, t, true).isDst
            && LocalTime(zone, t).hour == UtcTime(wall, true).hour
            && LocalTime(zone, t).min == UtcTime(wall, true).min
  {
    hide UtcTime, FromUtcTime;
    var local := LocaltimeAt(zone, t, true);
    var wall := t + local.gmtOffset;
    UtcRoundTrip(wall, true);
    FromUtcIgnoresZone(UtcTime(wall, true), local.isDst, local.gmtOffset);
  }

  /** Local time shows the second that is the offset of the governing type away,
      and says which offset and whether it is summer time. */
  lemma LocalTimeMeans(zone: Zone, t: int)
    requires zone.WellFormed() && WallClockSupported(zone, t)
    ensures var local, tm := LocaltimeAt(zone, t, true), LocalTime(zone, t);
            && FromUtcTime(tm) - t == tm.gmtoff == local.gmtOffset
            && tm.isDst == local.isDst
            && IsTimeOfDay(tm) && Valid(DateOf(tm))
            && 0 <= tm.yday <= 365
            && (WeekDayIsRight(JulianDayOf(t + tm.gmtoff)) ==> tm.wday == DayOfWeek(JulianDayOf(t + tm.gmtoff)))
  {
    hide UtcTime, FromUtcTime, YearMonthDayOf, JulianDayNumber, WeekDay;
    WallClockOf(zone, t);
    UtcTimeFields(t + LocaltimeAt(zone, t, true).gmtOffset, true);
    UtcRoundTrip(t + LocaltimeAt(zone, t, true).gmtOffset, true);
  }

  /** On any table and for any fields: the result is the wall clock less the offset
      that the search by wall clock finds, and less another hour exactly when the
      fields say summer time while the second without that hour is standard time
      and shows the same hour and minute. */
  lemma CorrectionIff(zone: Zone, localTm: Tm)
    requires zone.WellFormed()
    ensures var wall := FromUtcTime(localTm);
            var plain := wall - LocaltimeAt(zone, wall, false).gmtOffset;
            var shown := LocalTime(zone, plain);
            && (SecondsOfLocal(zone, localTm) == plain - 3600 <==>
                  localTm.isDst && !shown.isDst && shown.hour == localTm.hour && shown.min == localTm.min)
            && (SecondsOfLocal(zone, localTm) == plain || SecondsOfLocal(zone, localTm) == plain - 3600)
  {
    hide UtcTime, FromUtcTime, LocalTime, LocaltimeAt;
  }

  /** The local types the two searches of `t`'s wall clock settle on. */
  lemma TypesOnBothSides(zone: Zone, std: int, shift: int, t: int)
    requires Alternates(zone, std, shift)
    ensures var local := LocaltimeAt(zone, t, true);
            var found := LocaltimeAt(zone, t + local.gmtOffset, false);
            if InFirstCopy(zone, shift, t) then
              local.isDst && local.gmtOffset == found.gmtOffset + shift &&
              LocaltimeAt(zone, t + shift, true) == found && !found.isDst
            else found == local
  {
    hide GoverningIndex, IsLastAtOrBefore, StrictlySortedBy, SortedBy, Governs;
    var i := GoverningIndex(zone.transitions, t, true);
    var wall := t + LocaltimeOf(zone, i).gmtOffset;
    AlternatesIsSorted(zone, std, shift);
    LastIsGoverning(zone.transitions, t, true, i);
    FirstCopyIs(zone, std, shift, t, i);
    SearchByWallClock(zone, std, shift, t, i);
    if NextFallsBack(zone, shift, t, i) {
      LastIsGoverning(zone.transitions, wall, false, i + 1);
      LastIsGoverning(zone.transitions, t + shift, true, i + 1);
      assert LocaltimeOf(zone, i + 1).isDst != LocaltimeOf(zone, i + 1 - 1).isDst;
    } else {
      LastIsGoverning(zone.transitions, wall, false, i);
    }
  }

  /** What the correction looks at, by name. */
  lemma CorrectionLooksAt(zone: Zone, localTm: Tm, wall: int, found: Localtime, tryTm: Tm)
    requires zone.WellFormed()
    requires FromUtcTime(localTm) == wall && LocaltimeAt(zone, wall, false) == found
    requires LocalTime(zone, wall - found.gmtOffset) == tryTm
    ensures IsOtherCopy(zone, localTm) <==>
              localTm.isDst && !tryTm.isDst && tryTm.hour == localTm.hour && tryTm.min == localTm.min
    ensures SecondsOfLocal(zone, localTm)
         == wall - (if IsOtherCopy(zone, localTm) then 3600 else 0) - found.gmtOffset
  {
    hide UtcTime, FromUtcTime, LocalTime, LocaltimeAt;
  }

  /** The correction fires exactly for first copies, and repairs them exactly
      when summer time is 3600 seconds ahead. */
  lemma LocalRoundTripError(zone: Zone, std: int, shift: int, t: int)
    requires Alternates(zone, std, shift)
    requires WallClockSupported(zone, t)
    ensures IsOtherCopy(zone, LocalTime(zone, t)) <==> InFirstCopy(zone, shift, t)
    ensures SecondsOfLocal(zone, LocalTime(zone, t))
         == t + if InFirstCopy(zone, shift, t) then shift - 3600 else 0
  {
    hide UtcTime, FromUtcTime, LocalTime, LocaltimeAt, Supported, InFirstCopy, IsOtherCopy, SecondsOfLocal;
    TypesOnBothSides(zone, std, shift, t);
    WallClockOf(zone, t);
    var wall := t + LocaltimeAt(zone, t, true).gmtOffset;
    var found := LocaltimeAt(zone, wall, false);
    var start := wall - found.gmtOffset;
    if InFirstCopy(zone, shift, t) {
      assert start == t + shift;
      assert t + shift + LocaltimeAt(zone, t + shift, true).gmtOffset == wall;
      WallClockOf(zone, t + shift);
    } else {
      assert start == t;
    }
    CorrectionLooksAt(zone, LocalTime(zone, t), wall, found, LocalTime(zone, start));
  }

  lemma FromUtcIgnoresZone(utc: Tm, isDst: bool, gmtoff: int)
    ensures FromUtcTime(utc.(isDst := isDst, gmtoff := gmtoff)) == FromUtcTime(utc)
  {
  }

  /** With the usual shift of one hour, local time round trips at every second,
      in both copies of a repeated hour. */
  lemma LocalRoundTrip(zone: Zone, std: int, t: int)
    requires Alternates(zone, std, 3600)
    requires WallClockSupported(zone, t)
    ensures SecondsOfLocal(zone, LocalTime(zone, t)) == t
  {
    LocalRoundTripError(zone, std, 3600, t);
  }

  predicate HasFallBack(zone: Zone)
    requires zone.WellFormed()
  {
    exists i :: -1 <= i < |zone.transitions| - 1 && LocaltimeOf(zone, i).isDst
  }

  /** The second before a fall-back is in a first copy. */
  lemma JustBeforeFallBack(zone: Zone, std: int, shift: int, i: int)
    requires Alternates(zone, std, shift)
    requires -1 <= i < |zone.transitions| - 1 && LocaltimeOf(zone, i).isDst
    ensures InFirstCopy(zone, shift, zone.transitions[i + 1].gmttime - 1)
  {
    FirstCopyIs(zone, std, shift, zone.transitions[i + 1].gmttime - 1, i);
  }

  ghost predicate RoundTripsAlways(zone: Zone)
    requires zone.WellFormed()
  {
    forall t :: WallClockSupported(zone, t) ==> SecondsOfLocal(zone, LocalTime(zone, t)) == t
  }

  /** Exactly the zones with a one-hour shift, or with no fall-back at all, round
      trip at every second. */
  lemma LocalRoundTripIff(zone: Zone, std: int, shift: int)
    requires Alternates(zone, std, shift)
    requires forall i :: 0 <= i < |zone.transitions| ==>
               WallClockSupported(zone, zone.transitions[i].gmttime - 1)
    ensures RoundTripsAlways(zone) <==> shift == 3600 || !HasFallBack(zone)
  {
    if shift == 3600 || !HasFallBack(zone) {
      forall t | WallClockSupported(zone, t)
        ensures SecondsOfLocal(zone, LocalTime(zone, t)) == t
      {
        NoErrorAt(zone, std, shift, t);
      }
    } else {
      var i :| -1 <= i < |zone.transitions| - 1 && LocaltimeOf(zone, i).isDst;
      ErrorBeforeFallBack(zone, std, shift, i);
    }
  }

  /** Summer time half an hour ahead, ending at the epoch. */
  const HALF_HOUR := Zone([Transition(0, 0, 1)], [Localtime(1800, true), Localtime(0, false)])

  /** The second before the epoch comes back half an hour early. */
  lemma HalfHourMisses()
    ensures Alternates(HALF_HOUR, 0, 1800) && !RoundTripsAlways(HALF_HOUR)
    ensures SecondsOfLocal(HALF_HOUR, LocalTime(HALF_HOUR, -1)) == -1801
  {
    hide UtcTime, FromUtcTime, SecondsOfLocal, LocalTime, IsOtherCopy, GoverningIndex, InFirstCopy;
    assert LocaltimeOf(HALF_HOUR, -1) == Localtime(1800, true) && LocaltimeOf(HALF_HOUR, 0) == Localtime(0, false);
    AlternatesIsSorted(HALF_HOUR, 0, 1800);
    LastIsGoverning(HALF_HOUR.transitions, -1, true, -1);
    assert WallClockSupported(HALF_HOUR, -1) by {
      assert DAY_OF_1970_01_01 == 2440588;
    }
    JustBeforeFallBack(HALF_HOUR, 0, 1800, -1);
    LocalRoundTripError(HALF_HOUR, 0, 1800, -1);
  }

  lemma NoErrorAt(zone: Zone, std: int, shift: int, t: int)
    requires Alternates(zone, std, shift) && WallClockSupported(zone, t)
    requires shift == 3600 || !HasFallBack(zone)
    ensures SecondsOfLocal(zone, LocalTime(zone, t)) == t
  {
    hide UtcTime, FromUtcTime, SecondsOfLocal, LocalTime, IsOtherCopy;
    LocalRoundTripError(zone, std, shift, t);
    FirstCopyIs(zone, std, shift, t, GoverningIndex(zone.transitions, t, true));
  }

  lemma ErrorBeforeFallBack(zone: Zone, std: int, shift: int, i: int)
    requires Alternates(zone, std, shift) && shift != 3600
    requires -1 <= i < |zone.transitions| - 1 && LocaltimeOf(zone, i).isDst
    requires WallClockSupported(zone, zone.transitions[i + 1].gmttime - 1)
    ensures var t := zone.transitions[i + 1].gmttime - 1; SecondsOfLocal(zone, LocalTime(zone, t)) != t
  {
    hide UtcTime, FromUtcTime, SecondsOfLocal, LocalTime, IsOtherCopy;
    JustBeforeFallBack(zone, std, shift, i);
    LocalRoundTripError(zone, std, shift, zone.transitions[i + 1].gmttime - 1);
  }
}
