/** `Date`: a day number that is moved in place, its eight-digit form, and its quarter-hour quanta. */
module Dates {
  import opened JulianDay
  import opened Text

  const UNIX_EPOCH := 2440587.5
  const SECONDS_PER_DAY := 24 * 60 * 60
  const SECONDS_PER_QUANT := 15 * 60
  const QUANTS_PER_DAY := 24 * 4

  function Digit(n: nat): char {
    '0' + (n % 10) as char
  }

  /** Years above 9999 lose their leading digits. */
  function EightDigits(t: Ymd): string
    requires 0 <= t.year && 0 <= t.month && 0 <= t.day
  {
    [Digit(t.year / 1000), Digit(t.year / 100), Digit(t.year / 10), Digit(t.year),
     Digit(t.month / 10), Digit(t.month), Digit(t.day / 10), Digit(t.day)]
  }

  function Value(c: char): int {
    c as int - '0' as int
  }

  /** Reads whatever the eight characters are: they are not checked. */
  function ReadFields(s: string): (t: Ymd)
    requires 8 <= |s|
    ensures 0 <= t.year < UINT_SPAN && 0 <= t.month < UINT_SPAN && 0 <= t.day < UINT_SPAN
  {
    Ymd(Wrap(Value(s[0]) * 1000 + Value(s[1]) * 100 + Value(s[2]) * 10 + Value(s[3])),
        Wrap(Value(s[4]) * 10 + Value(s[5])),
        Wrap(Value(s[6]) * 10 + Value(s[7])))
  }

  function FromEightDigits(s: string): real
    requires 8 <= |s|
  {
    var t := ReadFields(s);
    YmdToJulianDay(t.year, t.month, t.day)
  }

  /** `epoch_to_julian_day`: C++ division truncates. */
  function FromEpoch(epoch: int): real {
    (if epoch < 0 then -(-epoch / SECONDS_PER_DAY) else epoch / SECONDS_PER_DAY) as real + UNIX_EPOCH
  }

  function StartQuant(julianDay: real): uint32
    requires UNIX_EPOCH <= julianDay
  {
    Wrap(Wrap((julianDay - UNIX_EPOCH).Floor) * QUANTS_PER_DAY)
  }

  function EndQuant(julianDay: real): uint32
    requires UNIX_EPOCH <= julianDay
  {
    Wrap(StartQuant(julianDay) + QUANTS_PER_DAY - 1)
  }

  lemma FourDigits(n: nat)
    requires n <= 9999
    ensures n / 1000 % 10 * 1000 + n / 100 % 10 * 100 + n / 10 % 10 * 10 + n % 10 == n
  {
    assert n / 100 == n / 10 / 10 && n / 1000 == n / 10 / 10 / 10;
    assert n / 10 / 10 / 10 < 10;
  }

  lemma DigitsReadBack(t: Ymd)
    requires 0 <= t.year <= 9999 && 0 <= t.month <= 99 && 0 <= t.day <= 99
    ensures ReadFields(EightDigits(t)) == t
  {
    var s := EightDigits(t);
    FourDigits(t.year);
    assert Value(s[0]) * 1000 + Value(s[1]) * 100 + Value(s[2]) * 10 + Value(s[3]) == t.year;
    assert Value(s[4]) * 10 + Value(s[5]) == t.month;
    assert Value(s[6]) * 10 + Value(s[7]) == t.day;
  }

  lemma ConvertsFields(s: string, t: Ymd)
    requires 8 <= |s| && ReadFields(s) == t && ValidDate(t)
    ensures FromEightDigits(s) == JulianDayOf(t)
  {
  }

  /** The day number of a date with a four-digit year survives being printed and converted back. */
  lemma PrintedDateConvertsBack(t: Ymd)
    requires ValidDate(t) && t.year <= 9999
    ensures Fields(JulianDayOf(t)) == t && FromEightDigits(EightDigits(t)) == JulianDayOf(t)
  {
    DateRecovered(t);
    DigitsReadBack(t);
    ConvertsFields(EightDigits(t), t);
  }

  ghost predicate AllDigits(s: string) {
    |s| == 8 && forall i :: 0 <= i < 8 ==> '0' <= s[i] <= '9'
  }

  lemma SplitYear(a: int, b: int, c: int, d: int)
    requires 0 <= a <= 9 && 0 <= b <= 9 && 0 <= c <= 9 && 0 <= d <= 9
    ensures var n := a * 1000 + b * 100 + c * 10 + d;
            n / 1000 == a && n / 100 == 10 * a + b && n / 10 == 100 * a + 10 * b + c
  {
  }

  lemma DigitOf(c: char, n: nat)
    requires '0' <= c <= '9' && n % 10 == Value(c)
    ensures Digit(n) == c
  {
  }

  lemma YearDigits(s: string)
    requires AllDigits(s)
    ensures var y := Value(s[0]) * 1000 + Value(s[1]) * 100 + Value(s[2]) * 10 + Value(s[3]);
            y <= 9999 && [Digit(y / 1000), Digit(y / 100), Digit(y / 10), Digit(y)] == [s[0], s[1], s[2], s[3]]
  {
    var y := Value(s[0]) * 1000 + Value(s[1]) * 100 + Value(s[2]) * 10 + Value(s[3]);
    SplitYear(Value(s[0]), Value(s[1]), Value(s[2]), Value(s[3]));
    DigitOf(s[0], y / 1000);
    DigitOf(s[1], y / 100);
    DigitOf(s[2], y / 10);
    DigitOf(s[3], y);
  }

  lemma TwoDigits(a: char, b: char)
    requires '0' <= a <= '9' && '0' <= b <= '9'
    ensures var n := Value(a) * 10 + Value(b);
            Digit(n / 10) == a && Digit(n) == b
  {
    var n := Value(a) * 10 + Value(b);
    DigitOf(a, n / 10);
    DigitOf(b, n);
  }

  lemma FieldsWriteBack(s: string)
    requires AllDigits(s)
    ensures EightDigits(ReadFields(s)) == s
  {
    YearDigits(s);
    TwoDigits(s[4], s[5]);
    TwoDigits(s[6], s[7]);
  }

  lemma NatValueOfFour(s: string)
    requires |s| == 4
    ensures NatValue(s) == Value(s[0]) * 1000 + Value(s[1]) * 100 + Value(s[2]) * 10 + Value(s[3])
  {
    var t := s[..3];
    assert t[..2] == s[..2] && s[..2][..1] == s[..1] && s[..1][..0] == "";
    assert NatValue(s[..1]) == Value(s[0]);
    assert NatValue(s[..2]) == NatValue(s[..1]) * 10 + Value(s[1]);
    assert NatValue(t) == NatValue(s[..2]) * 10 + Value(s[2]);
  }

  lemma NatValueOfTwo(s: string)
    requires |s| == 2
    ensures NatValue(s) == Value(s[0]) * 10 + Value(s[1])
  {
    assert s[..1][..0] == "" && NatValue(s[..1]) == Value(s[0]);
  }

  /** Eight digits are read as four of the year, two of the month and two of the day, in decimal. */
  lemma ReadsDecimal(s: string)
    requires AllDigits(s)
    ensures ReadFields(s) == Ymd(NatValue(s[..4]), NatValue(s[4..6]), NatValue(s[6..]))
  {
    NatValueOfFour(s[..4]);
    NatValueOfTwo(s[4..6]);
    NatValueOfTwo(s[6..]);
  }

  lemma YearZeroIff(s: string)
    requires AllDigits(s)
    ensures ReadFields(s).year <= 9999
    ensures ReadFields(s).year == 0 <==> s[..4] == "0000"
  {
    assert s[..4] == [s[0], s[1], s[2], s[3]];
  }

  /**
   And a date written in eight digits comes back as the same eight digits, exactly when it is not in
   January or February of the year 0.
   */
  lemma WrittenDatePrintsBackIff(s: string)
    requires AllDigits(s) && OnCalendar(ReadFields(s))
    ensures Fields(FromEightDigits(s)) == ReadFields(s) <==> !(s[..4] == "0000" && ReadFields(s).month <= 2)
    ensures EightDigits(ReadFields(s)) == s
  {
    DateRecoveredIff(ReadFields(s));
    FieldsWriteBack(s);
    YearZeroIff(s);
  }

  /** The epoch and its days are those of the calendar: 1 January 1970 and so many whole days later or earlier. */
  lemma EpochIsDate(epoch: int, t: Ymd)
    requires ValidDate(t)
    requires DayCount(t) == DayCount(Ymd(1970, 1, 1)) + if epoch < 0 then -(-epoch / 86400) else epoch / 86400
    ensures FromEpoch(epoch) == JulianDayOf(t) && Fields(FromEpoch(epoch)) == t
  {
    YearCount(1970);
    assert DayCount(Ymd(1970, 1, 1)) == 719163;
    DayNumberCountsDays(t);
    DateRecovered(t);
  }

  /** The quanta of a day are the quarter hours of its seconds, until the 32 bits are used up. */
  lemma QuantsCoverDay(epoch: nat)
    requires (epoch / 86400 + 1) * 96 < UINT_SPAN
    ensures var d := FromEpoch(epoch);
            && StartQuant(d) <= epoch / 900 <= EndQuant(d)
            && EndQuant(d) + 1 == StartQuant(d + 1.0)
            && FromEpoch(StartQuant(d) * 900) == d
  {
    var n := epoch / SECONDS_PER_DAY;
    assert (n as real).Floor == n && ((n + 1) as real).Floor == n + 1;
    assert FromEpoch(epoch) - UNIX_EPOCH == n as real;
    assert FromEpoch(epoch) + 1.0 - UNIX_EPOCH == (n + 1) as real;
    assert 86400 * n <= epoch < 86400 * n + 86400;
    assert n * 96 <= epoch / 900 <= n * 96 + 95;
    assert n * 96 * 900 / 86400 == n;
  }

  /** A day number moved by the days between two dates prints as the second. */
  lemma {:induction false} DaysApart(t: Ymd, u: Ymd, day: real)
    requires ValidDate(t) && ValidDate(u) && day == JulianDayOf(t) + (DayCount(u) - DayCount(t)) as real
    ensures Fields(day) == u
  {
    DayNumberCountsDays(t);
    DayNumberCountsDays(u);
    DateRecovered(u);
  }

  class Date {
    var julianDay: real

    constructor FromDay(day: real)
      ensures julianDay == day
    {
      julianDay := day;
    }

    /** From `time(NULL)`. */
    constructor Now(epoch: int)
      ensures julianDay == FromEpoch(epoch)
    {
      julianDay := FromEpoch(epoch);
    }

    constructor FromString(s: string)
      requires 8 <= |s|
      ensures julianDay == FromEightDigits(s)
    {
      julianDay := FromEightDigits(s);
    }

    method Assign(d: Date)
      modifies this
      ensures julianDay == old(d.julianDay)
    {
      julianDay := d.julianDay;
    }

    /** A date that prints as a day comes to print as the day so many calendar days later. */
    method AddDays(days: uint32)
      modifies this
      ensures julianDay == old(julianDay) + days as real
      ensures forall t, u ::
                && ValidDate(t) && ValidDate(u)
                && old(julianDay) == JulianDayOf(t) && DayCount(u) == DayCount(t) + days
                ==> Fields(julianDay) == u
    {
      julianDay := julianDay + days as real;
      forall t, u |
        ValidDate(t) && ValidDate(u) && old(julianDay) == JulianDayOf(t) && DayCount(u) == DayCount(t) + days
        ensures Fields(julianDay) == u
      {
        DaysApart(t, u, julianDay);
      }
    }

    method SubtractDays(days: uint32)
      modifies this
      ensures julianDay == old(julianDay) - days as real
      ensures forall t, u ::
                && ValidDate(t) && ValidDate(u)
                && old(julianDay) == JulianDayOf(t) && DayCount(u) == DayCount(t) - days
                ==> Fields(julianDay) == u
    {
      julianDay := julianDay - days as real;
      forall t, u |
        ValidDate(t) && ValidDate(u) && old(julianDay) == JulianDayOf(t) && DayCount(u) == DayCount(t) - days
        ensures Fields(julianDay) == u
      {
        DaysApart(t, u, julianDay);
      }
    }

    /** Both `++` operators: a date that prints as a calendar day comes to print as the next one. */
    method Increment()
      modifies this
      ensures julianDay == old(julianDay) + 1.0
      ensures forall t :: ValidDate(t) && old(julianDay) == JulianDayOf(t) && t != LAST_DATE ==>
                ValidDate(NextDay(t)) && julianDay == JulianDayOf(NextDay(t)) && Fields(julianDay) == NextDay(t)
    {
      julianDay := julianDay + 1.0;
      forall t | ValidDate(t) && old(julianDay) == JulianDayOf(t) && t != LAST_DATE
        ensures ValidDate(NextDay(t)) && julianDay == JulianDayOf(NextDay(t)) && Fields(julianDay) == NextDay(t)
      {
        SuccessorAddsOne(t);
        DateRecovered(NextDay(t));
      }
    }

    /** The conversions to `unsigned int` are defined for non-negative fields only. */
    method Yyyymmdd() returns (result: string)
      requires var t := Fields(julianDay); 0 <= t.year && 0 <= t.month && 0 <= t.day
      ensures result == EightDigits(Fields(julianDay))
      ensures forall t :: ValidDate(t) && julianDay == JulianDayOf(t) ==> result == EightDigits(t)
    {
      result := EightDigits(Fields(julianDay));
      forall t | ValidDate(t) && julianDay == JulianDayOf(t) ensures result == EightDigits(t) {
        DateRecovered(t);
      }
    }

    /** `operator==` compares whole days: calendar dates are equal exactly when they are the same day. */
    method Equals(d: Date) returns (equal: bool)
      ensures equal <==> julianDay.Floor == d.julianDay.Floor
      ensures forall s, t ::
                ValidDate(s) && ValidDate(t) && julianDay == JulianDayOf(s) && d.julianDay == JulianDayOf(t) ==>
                (equal <==> s == t)
    {
      equal := julianDay.Floor == d.julianDay.Floor;
      forall s, t | ValidDate(s) && ValidDate(t) && julianDay == JulianDayOf(s) && d.julianDay == JulianDayOf(t)
        ensures equal <==> s == t
      {
        JulianDayIsNoon(s);
        JulianDayIsNoon(t);
        OrderIsomorphism(s, t);
        FloorIs(julianDay, Noon(s) - 1);
        FloorIs(d.julianDay, Noon(t) - 1);
      }
    }
  }
}
