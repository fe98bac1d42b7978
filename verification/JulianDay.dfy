/**
 The day arithmetic of date.h over exact reals, with 32-bit wrap-around where the source computes on
 `unsigned int`, against a calendar that only knows month lengths and the leap-year rule.
 */
module JulianDay {
  const UINT_SPAN: int := 0x1_0000_0000

  type uint32 = n: int | 0 <= n < UINT_SPAN

  function Wrap(n: int): uint32 {
    if 0 <= n < UINT_SPAN then n else n % UINT_SPAN
  }

  function Floor(x: real): real {
    x.Floor as real
  }

  // ----- the calendar

  datatype Ymd = Ymd(year: int, month: int, day: int)

  predicate IsLeap(year: int) {
    year % 4 == 0 && (year % 100 != 0 || year % 400 == 0)
  }

  function MonthLength(year: int, month: int): int {
    if month == 2 then if IsLeap(year) then 29 else 28
    else if month == 4 || month == 6 || month == 9 || month == 11 then 30
    else 31
  }

  /** A day of the calendar whose year fits an `unsigned int`. */
  ghost predicate OnCalendar(t: Ymd) {
    0 <= t.year < UINT_SPAN && 1 <= t.month <= 12 && 1 <= t.day <= MonthLength(t.year, t.month)
  }

  /** The formula wraps at `year--` for the first two months of the year 0, and at `year + 4716` at the end. */
  predicate Wraps(t: Ymd) {
    (t.year == 0 && t.month <= 2) || (if t.month <= 2 then t.year - 1 else t.year) + 4716 >= UINT_SPAN
  }

  ghost predicate ValidDate(t: Ymd) {
    OnCalendar(t) && !Wraps(t)
  }

  const FIRST_DATE := Ymd(0, 3, 1)
  const LAST_DATE := Ymd(UINT_SPAN - 4716, 2, 29)

  function NextDay(t: Ymd): Ymd {
    if t.day < MonthLength(t.year, t.month) then t.(day := t.day + 1)
    else if t.month < 12 then Ymd(t.year, t.month + 1, 1)
    else Ymd(t.year + 1, 1, 1)
  }

  ghost predicate Earlier(s: Ymd, t: Ymd) {
    s.year < t.year || (s.year == t.year && (s.month < t.month || (s.month == t.month && s.day < t.day)))
  }

  /** Days counted one year and one month at a time from 1 January of the year 1; the year 0 is a leap year. */
  ghost function DaysBeforeYear(year: int): int
    requires 0 <= year
    decreases year
  {
    if year == 0 then -366
    else if year == 1 then 0
    else DaysBeforeYear(year - 1) + if IsLeap(year - 1) then 366 else 365
  }

  ghost function DaysBeforeMonth(year: int, month: int): int
    requires 1 <= month
    decreases month
  {
    if month == 1 then 0 else DaysBeforeMonth(year, month - 1) + MonthLength(year, month - 1)
  }

  ghost function DayCount(t: Ymd): int
    requires 0 <= t.year && 1 <= t.month
  {
    DaysBeforeYear(t.year) + DaysBeforeMonth(t.year, t.month) + t.day
  }

  // ----- the source's formulas

  function YmdToJulianDay(year: uint32, month: uint32, day: uint32): real {
    var early := month == 1 || month == 2;
    var y := if early then Wrap(year - 1) else year;
    var m := if early then month + 12 else month;
    var a := y / 100;
    var b := Floor(a as real / 4.0);
    var c := 2.0 - a as real + b;
    var e := Floor(365.25 * Wrap(y + 4716) as real);
    var f := Floor(30.6001 * Wrap(m + 1) as real);
    c + day as real + e + f - 1524.5
  }

  /** The fields `yyyymmdd` prints, before they become `unsigned int`. */
  function Fields(julianDay: real): Ymd {
    var z := julianDay + 0.5;
    var w := Floor((z - 1867216.25) / 36524.25);
    var x := Floor(w / 4.0);
    var a := z + 1.0 + w - x;
    var b := a + 1524.0;
    var c := Floor((b - 122.1) / 365.25);
    var d := Floor(365.25 * c);
    var e := Floor((b - d) / 30.6001);
    var f := Floor(30.6001 * e);
    var month := (if e - 1.0 <= 12.0 then e - 1.0 else e - 13.0).Floor;
    Ymd((if month == 1 || month == 2 then c - 4715.0 else c - 4716.0).Floor, month, (b - d - f).Floor)
  }

  // ----- the same in integers

  /** Years that start in March: month 3 to 14. */
  ghost function Shifted(t: Ymd): (int, int) {
    if t.month <= 2 then (t.year - 1, t.month + 12) else (t.year, t.month)
  }

  /** The day number at noon. */
  ghost function Noon(t: Ymd): int {
    var (y, m) := Shifted(t);
    2 - y / 100 + y / 100 / 4 + t.day + 1461 * (y + 4716) / 4 + 306001 * (m + 1) / 10000 - 1524
  }

  function JulianDayOf(t: Ymd): real
    requires ValidDate(t)
  {
    YmdToJulianDay(t.year, t.month, t.day)
  }

  lemma FloorIs(x: real, q: int)
    requires q as real <= x < q as real + 1.0
    ensures x.Floor == q && Floor(x) == q as real
  {
  }

  lemma YearFloor(y: int)
    ensures Floor(365.25 * y as real) == (1461 * y / 4) as real
  {
    var q := 1461 * y / 4;
    assert 4 * q <= 1461 * y < 4 * q + 4;
    assert 365.25 * y as real == (1461 * y) as real / 4.0;
    FloorIs(365.25 * y as real, q);
  }

  lemma MonthFloor(m: int)
    ensures Floor(30.6001 * m as real) == (306001 * m / 10000) as real
  {
    var q := 306001 * m / 10000;
    assert 10000 * q <= 306001 * m < 10000 * q + 10000;
    assert 30.6001 * m as real == (306001 * m) as real / 10000.0;
    FloorIs(30.6001 * m as real, q);
  }

  /** What the unsigned arithmetic loses: `year--` wraps in the year 0, `year + 4716` in the last years. */
  ghost function Lost(t: Ymd): int {
    var y := Shifted(t).0;
    if y < 0 then 32212254 else if y + 4716 < UINT_SPAN then 0 else 1461 * (UINT_SPAN / 4)
  }

  lemma QuarterFloor(w: int)
    ensures Floor(w as real / 4.0) == (w / 4) as real
  {
    assert 4 * (w / 4) <= w < 4 * (w / 4) + 4;
    FloorIs(w as real / 4.0, w / 4);
  }

  lemma WrappedTerm(y: int)
    requires UINT_SPAN <= y + 4716 < 2 * UINT_SPAN
    ensures Wrap(y + 4716) == y + 4716 - UINT_SPAN
    ensures 1461 * (y + 4716) / 4 == 1461 * (y + 4716 - UINT_SPAN) / 4 + 1461 * (UINT_SPAN / 4)
  {
  }

  /** The part of the day number that the year gives, from the year as it stands after `year--`. */
  ghost function YearPart(y: int): int {
    2 - y / 100 + y / 100 / 4 + 1461 * Wrap(y + 4716) / 4 - 1524
  }

  lemma YearPartOf(y: uint32)
    ensures YearPart(y) as real
         == 2.0 - (y / 100) as real + Floor((y / 100) as real / 4.0) + Floor(365.25 * Wrap(y + 4716) as real) - 1524.0
  {
    YearFloor(Wrap(y + 4716));
    QuarterFloor(y / 100);
  }

  lemma MonthPartOf(month: uint32)
    requires 1 <= month <= 12
    ensures var m := if month == 1 || month == 2 then month + 12 else month;
            Floor(30.6001 * Wrap(m + 1) as real) == (306001 * (m + 1) / 10000) as real
  {
    MonthFloor(if month == 1 || month == 2 then month + 13 else month + 1);
  }

  lemma FormulaInIntegers(t: Ymd)
    requires 0 <= t.year < UINT_SPAN && 1 <= t.month <= 12 && 1 <= t.day <= 31
    ensures YmdToJulianDay(t.year, t.month, t.day) ==
              (YearPart(Wrap(Shifted(t).0)) + t.day + 306001 * (Shifted(t).1 + 1) / 10000) as real - 0.5
  {
    MonthPartOf(t.month);
    YearPartOf(Wrap(Shifted(t).0));
  }

  lemma YearPartLost(t: Ymd)
    requires OnCalendar(t)
    ensures var y := Shifted(t).0;
            YearPart(Wrap(y)) == 2 - y / 100 + y / 100 / 4 + 1461 * (y + 4716) / 4 - 1524 - Lost(t)
  {
    var y := Shifted(t).0;
    if y < 0 {
      assert Wrap(-1) == 4294967295 && Wrap(4294967295 + 4716) == 4715;
    } else if UINT_SPAN <= y + 4716 {
      WrappedTerm(y);
    }
  }

  lemma FormulaIsNoon(t: Ymd)
    requires OnCalendar(t)
    ensures YmdToJulianDay(t.year, t.month, t.day) == (Noon(t) - Lost(t)) as real - 0.5
  {
    FormulaInIntegers(t);
    YearPartLost(t);
  }

  lemma JulianDayIsNoon(t: Ymd)
    requires ValidDate(t)
    ensures JulianDayOf(t) == Noon(t) as real - 0.5
  {
    FormulaIsNoon(t);
  }

  // ----- day numbers count days

  lemma MultipleOf100(k: int)
    ensures 100 * k % 100 == 0
  {
  }

  lemma MultipleOf4(k: int)
    ensures 4 * k % 4 == 0
  {
  }

  lemma Multiples(y: int)
    ensures y % 400 == 0 ==> y % 100 == 0
    ensures y % 100 == 0 ==> y % 4 == 0
  {
    assert y % 400 == 0 ==> y == 100 * (4 * (y / 400));
    assert y % 100 == 0 ==> y == 4 * (25 * (y / 100));
    MultipleOf100(4 * (y / 400));
    MultipleOf4(25 * (y / 100));
  }

  lemma LeapJump(y: int)
    requires 0 <= y
    ensures y / 4 - y / 100 + y / 400
         == (y - 1) / 4 - (y - 1) / 100 + (y - 1) / 400 + if IsLeap(y) then 1 else 0
  {
    assert y / 4 == (y - 1) / 4 + if y % 4 == 0 then 1 else 0;
    assert y / 100 == (y - 1) / 100 + if y % 100 == 0 then 1 else 0;
    assert y / 400 == (y - 1) / 400 + if y % 400 == 0 then 1 else 0;
    Multiples(y);
  }

  lemma {:induction false} YearCount(y: int)
    requires 0 <= y
    ensures DaysBeforeYear(y) == 365 * (y - 1) + (y - 1) / 4 - (y - 1) / 100 + (y - 1) / 400
    decreases y
  {
    if y > 1 {
      YearCount(y - 1);
      LeapJump(y - 1);
    }
  }

  lemma {:induction false} MonthCount(year: int, month: int)
    requires 1 <= month <= 12
    ensures DaysBeforeMonth(year, month)
         == [0, 31, 59, 90, 120, 151, 181, 212, 243, 273, 304, 334][month - 1]
            + if month > 2 && IsLeap(year) then 1 else 0
  {
    if month > 1 {
      MonthCount(year, month - 1);
    }
  }

  lemma MonthTerm(m: int)
    requires 3 <= m <= 14
    ensures 306001 * (m + 1) / 10000
         == [122, 153, 183, 214, 244, 275, 306, 336, 367, 397, 428, 459][m - 3]
  {
  }

  lemma CycleTerms(y: int)
    ensures 1461 * (y + 4716) / 4 == 365 * y + y / 4 + 1722519
    ensures y / 100 / 4 == y / 400
  {
  }

  lemma NoonInCycles(t: Ymd)
    ensures var (y, m) := Shifted(t);
            Noon(t) == 365 * y + y / 4 - y / 100 + y / 400 + 306001 * (m + 1) / 10000 + t.day + 1720997
  {
    CycleTerms(Shifted(t).0);
  }

  lemma MonthsShifted(t: Ymd)
    requires 1 <= t.month <= 12
    ensures var (y, m) := Shifted(t);
            DaysBeforeMonth(t.year, t.month) ==
            306001 * (m + 1) / 10000 + if t.month <= 2 then -428 else -63 + if IsLeap(t.year) then 1 else 0
  {
    MonthCount(t.year, t.month);
    MonthTerm(Shifted(t).1);
  }

  lemma NoonCountsDays(t: Ymd)
    requires OnCalendar(t)
    ensures Noon(t) == DayCount(t) + 1721425
  {
    var (y, m) := Shifted(t);
    NoonInCycles(t);
    YearCount(t.year);
    MonthsShifted(t);
    LeapJump(t.year);
  }

  /** The day number of a date is the count of days from 1 January of the year 1, plus a constant. */
  lemma DayNumberCountsDays(t: Ymd)
    requires ValidDate(t)
    ensures JulianDayOf(t) == DayCount(t) as real + 1721424.5
  {
    JulianDayIsNoon(t);
    NoonCountsDays(t);
  }

  lemma {:induction false} YearsAdd(s: int, t: int)
    requires 0 <= s < t
    ensures DaysBeforeYear(s) + (if IsLeap(s) then 366 else 365) <= DaysBeforeYear(t)
    decreases t
  {
    if s + 1 < t {
      YearsAdd(s, t - 1);
    }
  }

  lemma {:induction false} MonthsAdd(year: int, s: int, t: int)
    requires 1 <= s < t
    ensures DaysBeforeMonth(year, s) + MonthLength(year, s) <= DaysBeforeMonth(year, t)
    decreases t
  {
    if s + 1 < t {
      MonthsAdd(year, s, t - 1);
    }
  }

  lemma WithinYear(t: Ymd)
    requires OnCalendar(t)
    ensures 1 <= DaysBeforeMonth(t.year, t.month) + t.day <= if IsLeap(t.year) then 366 else 365
  {
    MonthCount(t.year, t.month);
  }

  lemma EarlierCountsLess(s: Ymd, t: Ymd)
    requires ValidDate(s) && ValidDate(t) && Earlier(s, t)
    ensures DayCount(s) < DayCount(t)
  {
    if s.year < t.year {
      YearsAdd(s.year, t.year);
      WithinYear(s);
      WithinYear(t);
    } else if s.month < t.month {
      MonthsAdd(s.year, s.month, t.month);
    }
  }

  /** Day numbers order dates as the calendar does, so distinct dates have distinct numbers. */
  lemma OrderIsomorphism(s: Ymd, t: Ymd)
    requires ValidDate(s) && ValidDate(t)
    ensures JulianDayOf(s) < JulianDayOf(t) <==> Earlier(s, t)
    ensures JulianDayOf(s) == JulianDayOf(t) <==> s == t
  {
    DayNumberCountsDays(s);
    DayNumberCountsDays(t);
    if Earlier(s, t) {
      EarlierCountsLess(s, t);
    } else if Earlier(t, s) {
      EarlierCountsLess(t, s);
    }
  }

  lemma YearIsTwelveMonths(year: int)
    ensures DaysBeforeMonth(year, 12) + 31 == if IsLeap(year) then 366 else 365
  {
    MonthCount(year, 12);
  }

  lemma NextDayCounts(t: Ymd)
    requires OnCalendar(t)
    ensures DayCount(NextDay(t)) == DayCount(t) + 1
  {
    if t.day == MonthLength(t.year, t.month) {
      if t.month < 12 {
        assert DaysBeforeMonth(t.year, t.month + 1) == DaysBeforeMonth(t.year, t.month) + t.day;
      } else {
        YearIsTwelveMonths(t.year);
        assert DaysBeforeYear(t.year + 1) == DaysBeforeYear(t.year) + if IsLeap(t.year) then 366 else 365;
      }
    }
  }

  /** The next calendar day has the next day number. */
  lemma SuccessorAddsOne(t: Ymd)
    requires ValidDate(t) && t != LAST_DATE
    ensures ValidDate(NextDay(t)) && JulianDayOf(NextDay(t)) == JulianDayOf(t) + 1.0
  {
    var n := NextDay(t);
    assert ValidDate(n);
    NextDayCounts(t);
    DayNumberCountsDays(t);
    DayNumberCountsDays(n);
  }

  // ----- the fields recovered from a day number

  /** How far into its March-based year a date can lie. */
  lemma InYear(t: Ymd)
    requires OnCalendar(t)
    ensures var (y, m) := Shifted(t);
            123 <= 306001 * (m + 1) / 10000 + t.day <= 487 + (if IsLeap(y + 1) then 1 else 0)
  {
    MonthTerm(Shifted(t).1);
  }

  /** How far into its century a date lies, for a March-based year `r` of it. */
  ghost function InCentury(t: Ymd, r: int): int {
    365 * r + r / 4 + 306001 * (Shifted(t).1 + 1) / 10000 + t.day
  }

  lemma CenturyTurns(a: int, r: int)
    requires 0 <= r <= 99
    ensures r == 99 && IsLeap(100 * a + r + 1) ==> a % 4 == 3
  {
    if r == 99 {
      assert 100 * a + r + 1 == 100 * (a + 1);
      assert 100 * (a + 1) % 100 == 0;
    }
  }

  lemma CenturyBound(t: Ymd, a: int, r: int)
    requires OnCalendar(t) && Shifted(t).0 == 100 * a + r && 0 <= r <= 99
    ensures 123 <= InCentury(t, r) <= 36646 + (if a % 4 == 3 then 1 else 0)
  {
    InYear(t);
    CenturyTurns(a, r);
    assert r / 4 <= 24;
  }

  lemma CenturyYears(a: int, r: int)
    requires 0 <= r <= 99
    ensures 1461 * (100 * a + r + 4716) / 4 == 36525 * a + 365 * r + r / 4 + 1722519
    ensures (100 * a + r) / 100 == a
  {
  }

  lemma NoonInCentury(t: Ymd, a: int, r: int)
    requires Shifted(t).0 == 100 * a + r && 0 <= r <= 99
    ensures Noon(t) == 36524 * a + a / 4 + InCentury(t, r) + 1720997
  {
    CenturyYears(a, r);
  }

  lemma CenturyOf(a: int, k: int)
    requires 123 <= k <= 36646 + (if a % 4 == 3 then 1 else 0)
    ensures (4 * (36524 * a + a / 4 + k + 1720997) - 7468865) / 146097 == a - 4
  {
    assert a == 4 * (a / 4) + a % 4;
  }

  /** The century term undoes the Gregorian correction. */
  lemma CenturyRecovered(t: Ymd)
    requires OnCalendar(t)
    ensures (4 * Noon(t) - 7468865) / 146097 == Shifted(t).0 / 100 - 4
  {
    var a, r := Shifted(t).0 / 100, Shifted(t).0 % 100;
    CenturyBound(t, a, r);
    NoonInCentury(t, a, r);
    CenturyOf(a, InCentury(t, r));
  }

  lemma YearRecovered(t: Ymd)
    requires OnCalendar(t)
    ensures var (y, m) := Shifted(t);
            var b := 1461 * (y + 4716) / 4 + 306001 * (m + 1) / 10000 + t.day;
            (20 * b - 2442) / 7305 == y + 4716
  {
    var (y, m) := Shifted(t);
    InYear(t);
    var n, k := y + 4716, 306001 * (m + 1) / 10000 + t.day;
    assert 1461 * n / 4 == 365 * n + n / 4;
    assert 4 * (n / 4) == n - n % 4;
    assert IsLeap(y + 1) ==> n % 4 == 3;
    assert 0 <= 20 * k - 2442 - 5 * (n % 4) < 7305;
    assert 20 * (1461 * n / 4 + k) - 2442 == 7305 * n + (20 * k - 2442 - 5 * (n % 4));
  }

  lemma MonthRecovered(t: Ymd)
    requires OnCalendar(t)
    ensures var m := Shifted(t).1;
            10000 * (306001 * (m + 1) / 10000 + t.day) / 306001 == m + 1
  {
    MonthTerm(Shifted(t).1);
  }

  /** The fields of a whole day number at noon, in integers. */
  ghost function NoonFields(z: int): Ymd {
    var w := (4 * z - 7468865) / 146097;
    var b := z + 1 + w - w / 4 + 1524;
    var c := (20 * b - 2442) / 7305;
    var k := b - 1461 * c / 4;
    var e := 10000 * k / 306001;
    var month := if e - 1 <= 12 then e - 1 else e - 13;
    Ymd(if month == 1 || month == 2 then c - 4715 else c - 4716, month, k - 306001 * e / 10000)
  }

  lemma CenturyFloor(z: int)
    ensures Floor((z as real - 1867216.25) / 36524.25) == ((4 * z - 7468865) / 146097) as real
  {
    var q := (4 * z - 7468865) / 146097;
    assert 146097 * q <= 4 * z - 7468865 < 146097 * q + 146097;
    FloorIs((z as real - 1867216.25) / 36524.25, q);
  }

  lemma CycleFloor(b: int)
    ensures Floor((b as real - 122.1) / 365.25) == ((20 * b - 2442) / 7305) as real
  {
    var q := (20 * b - 2442) / 7305;
    assert 7305 * q <= 20 * b - 2442 < 7305 * q + 7305;
    FloorIs((b as real - 122.1) / 365.25, q);
  }

  lemma MonthIndexFloor(k: int)
    ensures Floor(k as real / 30.6001) == (10000 * k / 306001) as real
  {
    var q := 10000 * k / 306001;
    assert 306001 * q <= 10000 * k < 306001 * q + 306001;
    FloorIs(k as real / 30.6001, q);
  }

  lemma FieldsAtNoon(z: int)
    ensures Fields(z as real - 0.5) == NoonFields(z)
  {
    var w := (4 * z - 7468865) / 146097;
    var b := z + 1 + w - w / 4 + 1524;
    var c := (20 * b - 2442) / 7305;
    var k := b - 1461 * c / 4;
    CenturyFloor(z);
    QuarterFloor(w);
    CycleFloor(b);
    YearFloor(c);
    MonthIndexFloor(k);
    MonthFloor(10000 * k / 306001);
    assert z as real - 0.5 + 0.5 == z as real;
    assert z as real + 1.0 + w as real - (w / 4) as real + 1524.0 == b as real;
    assert b as real - (1461 * c / 4) as real == k as real;
  }

  lemma FieldsOfDay(d: real, z: int)
    requires d == z as real - 0.5
    ensures Fields(d) == NoonFields(z)
  {
    FieldsAtNoon(z);
  }

  /** The century term added back leaves the day number of the calendar without century rule. */
  lemma CenturyAddedBack(t: Ymd)
    requires OnCalendar(t)
    ensures var (y, m) := Shifted(t);
            var w := (4 * Noon(t) - 7468865) / 146097;
            Noon(t) + 1 + w - w / 4 + 1524 == 1461 * (y + 4716) / 4 + 306001 * (m + 1) / 10000 + t.day
  {
    CenturyRecovered(t);
    var c := Shifted(t).0 / 100;
    assert (c - 4) / 4 == c / 4 - 1;
  }

  lemma FieldsFrom(z: int, t: Ymd, c: int, k: int, e: int)
    requires var w := (4 * z - 7468865) / 146097;
             z + 1 + w - w / 4 + 1524 == 1461 * c / 4 + k
    requires (20 * (1461 * c / 4 + k) - 2442) / 7305 == c && 10000 * k / 306001 == e
    requires t.month == (if e - 1 <= 12 then e - 1 else e - 13) && t.day == k - 306001 * e / 10000
    requires t.year == if t.month == 1 || t.month == 2 then c - 4715 else c - 4716
    ensures NoonFields(z) == t
  {
  }

  lemma NoonRecovered(t: Ymd)
    requires OnCalendar(t)
    ensures NoonFields(Noon(t)) == t
  {
    var (y, m) := Shifted(t);
    CenturyAddedBack(t);
    YearRecovered(t);
    MonthRecovered(t);
    FieldsFrom(Noon(t), t, y + 4716, 306001 * (m + 1) / 10000 + t.day, m + 1);
  }

  /** The printed fields of a date's day number are the date. */
  lemma DateRecovered(t: Ymd)
    requires ValidDate(t)
    ensures Fields(JulianDayOf(t)) == t
  {
    JulianDayIsNoon(t);
    FieldsOfDay(JulianDayOf(t), Noon(t));
    NoonRecovered(t);
  }

  /** Every day between the first and the last valid date is the day of one. */
  lemma {:induction false} EveryDayIsADate(n: int) returns (t: Ymd)
    requires DayCount(FIRST_DATE) <= n <= DayCount(LAST_DATE)
    ensures ValidDate(t) && DayCount(t) == n
    decreases n - DayCount(FIRST_DATE)
  {
    if n == DayCount(FIRST_DATE) {
      t := FIRST_DATE;
    } else {
      var s := EveryDayIsADate(n - 1);
      t := NextDay(s);
      SuccessorAddsOne(s);
      NextDayCounts(s);
    }
  }

  /** So printing any such day gives a date, and converting it back gives the day. */
  lemma FieldsAreADate(n: int)
    requires DayCount(FIRST_DATE) <= n <= DayCount(LAST_DATE)
    ensures var t := Fields(n as real + 1721424.5);
            ValidDate(t) && JulianDayOf(t) == n as real + 1721424.5
  {
    var t := EveryDayIsADate(n);
    DayNumberCountsDays(t);
    DateRecovered(t);
  }

  /**
   For every day of every year an `unsigned int` holds, the formula counts days right exactly when neither
   `year--` nor `year + 4716` wraps; otherwise it is off by a constant.
   */
  lemma CountsDaysIff(t: Ymd)
    requires OnCalendar(t)
    ensures YmdToJulianDay(t.year, t.month, t.day) == (DayCount(t) - Lost(t)) as real + 1721424.5
    ensures YmdToJulianDay(t.year, t.month, t.day) == DayCount(t) as real + 1721424.5 <==> !Wraps(t)
  {
    FormulaIsNoon(t);
    NoonCountsDays(t);
  }

  /** The year of a day number, within a year or so: 400 years have 146097 days. */
  lemma CycleBounds(z: int)
    ensures 400 * z - 688900000 <= 146097 * NoonFields(z).year <= 400 * z - 688200000
  {
    var w := (4 * z - 7468865) / 146097;
    var b := z + 1 + w - w / 4 + 1524;
    var c := (20 * b - 2442) / 7305;
    assert 146097 * w <= 4 * z - 7468865 < 146097 * w + 146097;
    assert 7305 * c <= 20 * b - 2442 < 7305 * c + 7305;
    assert 4 * (w / 4) <= w <= 4 * (w / 4) + 3;
  }

  /** A number of days this large changes the year. */
  lemma YearDrops(z: int, days: int)
    requires days >= 1000
    ensures NoonFields(z - days).year < NoonFields(z).year
  {
    CycleBounds(z);
    CycleBounds(z - days);
  }

  lemma NoonRecoveredIff(t: Ymd, z: int)
    requires OnCalendar(t) && (z == Noon(t) || z <= Noon(t) - 1000)
    ensures NoonFields(z) == t <==> z == Noon(t)
  {
    NoonRecovered(t);
    if z != Noon(t) {
      YearDrops(Noon(t), Noon(t) - z);
    }
  }

  lemma FieldsRecoveredIff(t: Ymd, d: real, z: int)
    requires OnCalendar(t) && d == z as real - 0.5 && (z == Noon(t) || z <= Noon(t) - 1000)
    ensures Fields(d) == t <==> z == Noon(t)
  {
    NoonRecoveredIff(t, z);
    FieldsOfDay(d, z);
  }

  lemma LostIffWraps(t: Ymd)
    requires OnCalendar(t)
    ensures (Lost(t) == 0 <==> !Wraps(t)) && (Lost(t) == 0 || Lost(t) >= 1000)
  {
  }

  /** What is printed for the day of a date is the date exactly when the formula did not wrap. */
  lemma DateRecoveredIff(t: Ymd)
    requires OnCalendar(t)
    ensures Fields(YmdToJulianDay(t.year, t.month, t.day)) == t <==> !Wraps(t)
  {
    FormulaIsNoon(t);
    LostIffWraps(t);
    FieldsRecoveredIff(t, YmdToJulianDay(t.year, t.month, t.day), Noon(t) - Lost(t));
  }
}
