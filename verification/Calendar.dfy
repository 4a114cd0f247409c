/** The dates that `ValidateGeneralizedTime` accepts (`parse_values.cc`), compared with a count of days in
    closed form: no table of months, and no leap year test but the three quotients. */
module Calendar {
  import opened Input
  import opened Options
  import opened TimeValues

  /** The number of a day. Years are counted from March, so that a leap day is the last day of its year;
      months from March have 31 and 30 days in turn, which (153 m + 2) / 5 adds up. */
  function DayNumber(y: int, m: int, d: int): int {
    var year := if m <= 2 then y - 1 else y;
    365 * year + year / 4 - year / 100 + year / 400 + (153 * ((m + 9) % 12) + 2) / 5 + d
  }

  function DayOf(t: GeneralizedTime): int {
    DayNumber(t.year, t.month, t.day)
  }

  /** The first day of a month, months being counted from January of the year 0. */
  function FirstDay(month: nat): int {
    DayNumber(month / 12, month % 12 + 1, 1)
  }

  function MonthOf(y: nat, m: nat): nat
    requires 1 <= m <= 12
  {
    12 * y + m - 1
  }

  // ----- dates and clocks

  predicate AcceptedDate(t: GeneralizedTime) {
    ValidateGeneralizedTime(DateOnly(t))
  }

  /** A time is accepted exactly when its date is and the clock shows at most 23:59:60. */
  lemma ClockBounds(t: GeneralizedTime)
    ensures ValidateGeneralizedTime(t) <==> AcceptedDate(t) && t.hours <= 23 && t.minutes <= 59 && t.seconds <= 60
  {}

  lemma LeapDays(y: int)
    ensures y / 4 - y / 100 + y / 400 - ((y - 1) / 4 - (y - 1) / 100 + (y - 1) / 400) == if IsLeapYear(y) then 1 else 0
  {
    Step(y, 4);
    Step(y, 100);
    Step(y, 400);
  }

  lemma Step(y: int, n: int)
    requires n == 4 || n == 100 || n == 400
    ensures y / n - (y - 1) / n == if y % n == 0 then 1 else 0
  {}

  /** A date is accepted exactly when its month exists and its day lies before the first of the next. */
  lemma AcceptedFillsMonths(t: GeneralizedTime)
    ensures AcceptedDate(t) <==>
      && 1 <= t.month <= 12
      && FirstDay(MonthOf(t.year, t.month)) <= DayOf(t) < FirstDay(MonthOf(t.year, t.month) + 1)
  {
    if 1 <= t.month <= 12 {
      FirstDayAt(t.year, t.month);
      MonthLength(t.year, t.month);
      DayInMonth(t.year, t.month, t.day);
    }
  }

  lemma DayInMonth(y: int, m: int, d: int)
    ensures DayNumber(y, m, d) == DayNumber(y, m, 1) + d - 1
  {}

  lemma FirstDayAt(y: nat, m: nat)
    requires 1 <= m <= 12
    ensures MonthOf(y, m) / 12 == y && MonthOf(y, m) % 12 == m - 1
    ensures FirstDay(MonthOf(y, m)) == DayNumber(y, m, 1)
  {
    assert MonthOf(y, m) / 12 == y && MonthOf(y, m) % 12 == m - 1;
  }

  lemma MonthLength(y: nat, m: nat)
    requires 1 <= m <= 12
    ensures FirstDay(MonthOf(y, m) + 1) - FirstDay(MonthOf(y, m)) ==
      if m in {4, 6, 9, 11} then 30 else if m != 2 then 31 else if IsLeapYear(y) then 29 else 28
  {
    FirstDayAt(y, m);
    if m == 12 {
      FirstDayAt(y + 1, 1);
      assert MonthOf(y + 1, 1) == MonthOf(y, 12) + 1;
      DecemberLength(y);
    } else {
      FirstDayAt(y, m + 1);
      assert MonthOf(y, m + 1) == MonthOf(y, m) + 1;
      if m == 2 { FebruaryLength(y); } else { OtherLength(y, m); }
    }
  }

  lemma DecemberLength(y: int)
    ensures DayNumber(y + 1, 1, 1) - DayNumber(y, 12, 1) == 31
  {
    MonthDays(12);
  }

  lemma FebruaryLength(y: int)
    ensures DayNumber(y, 3, 1) - DayNumber(y, 2, 1) == if IsLeapYear(y) then 29 else 28
  {
    LeapDays(y);
    MonthDays(2);
  }

  lemma OtherLength(y: int, m: nat)
    requires 1 <= m <= 11 && m != 2
    ensures DayNumber(y, m + 1, 1) - DayNumber(y, m, 1) == if m in {4, 6, 9, 11} then 30 else 31
  {
    MonthDays(m);
  }

  lemma MonthDays(m: nat)
    requires 1 <= m <= 12
    ensures m !in {2, 12} ==>
      (153 * ((m + 10) % 12) + 2) / 5 - (153 * ((m + 9) % 12) + 2) / 5 == if m in {4, 6, 9, 11} then 30 else 31
    ensures (153 * ((12 + 9) % 12) + 2) / 5 + 31 == (153 * ((1 + 9) % 12) + 2) / 5
    ensures (153 * ((2 + 9) % 12) + 2) / 5 == 337 && (153 * ((3 + 9) % 12) + 2) / 5 == 0
  {}

  // ----- the order of dates

  lemma NextMonth(month: nat)
    ensures FirstDay(month) < FirstDay(month + 1)
  {
    var y, m := month / 12, month % 12 + 1;
    assert MonthOf(y, m) == month;
    MonthLength(y, m);
  }

  lemma MonthsInOrder(a: nat, b: nat)
    requires a <= b
    ensures FirstDay(a) <= FirstDay(b)
    ensures a < b ==> FirstDay(a + 1) <= FirstDay(b)
  {
    AllMonthsGrow();
    Grows(FirstDay, a, b);
  }

  lemma AllMonthsGrow()
    ensures forall k: nat :: FirstDay(k) < FirstDay(k + 1)
  {
    forall k: nat
      ensures FirstDay(k) < FirstDay(k + 1)
    {
      NextMonth(k);
    }
  }

  lemma {:induction false} Grows(f: nat -> int, a: nat, b: nat)
    requires a <= b && forall k: nat :: f(k) < f(k + 1)
    ensures f(a) <= f(b) && (a < b ==> f(a + 1) <= f(b))
    decreases b
  {
    if a < b { Grows(f, a, b - 1); }
  }

  lemma MonthOrder(a: GeneralizedTime, b: GeneralizedTime)
    requires 1 <= a.month <= 12 && 1 <= b.month <= 12
    ensures MonthOf(a.year, a.month) < MonthOf(b.year, b.month) <==>
      a.year < b.year || (a.year == b.year && a.month < b.month)
    ensures MonthOf(a.year, a.month) == MonthOf(b.year, b.month) <==> a.year == b.year && a.month == b.month
  {}

  lemma EarlierMonth(a: GeneralizedTime, b: GeneralizedTime)
    requires AcceptedDate(a) && AcceptedDate(b) && MonthOf(a.year, a.month) < MonthOf(b.year, b.month)
    ensures DayOf(a) < DayOf(b)
  {
    var m, n := MonthOf(a.year, a.month), MonthOf(b.year, b.month);
    assert DayOf(a) < FirstDay(m + 1) by { AcceptedFillsMonths(a); }
    assert FirstDay(n) <= DayOf(b) by { AcceptedFillsMonths(b); }
    assert FirstDay(m + 1) <= FirstDay(n) by { MonthsInOrder(m, n); }
  }

  /** Accepted dates come in the order of their day numbers; so no two have the same. */
  lemma DatesInOrder(a: GeneralizedTime, b: GeneralizedTime)
    requires AcceptedDate(a) && AcceptedDate(b)
    ensures DayOf(a) < DayOf(b) <==> Before(DateOnly(a), DateOnly(b))
    ensures DayOf(a) == DayOf(b) <==> DateOnly(a) == DateOnly(b)
  {
    MonthOrder(a, b);
    MonthOrder(b, a);
    if MonthOf(a.year, a.month) < MonthOf(b.year, b.month) {
      EarlierMonth(a, b);
    } else if MonthOf(b.year, b.month) < MonthOf(a.year, a.month) {
      EarlierMonth(b, a);
    } else {
      DayInMonth(a.year, a.month, a.day);
      DayInMonth(b.year, b.month, b.day);
    }
  }

  /** A clock whose minutes leave room for a leap second. */
  function ClockOf(t: GeneralizedTime): nat {
    (t.hours as int * 60 + t.minutes as int) * 61 + t.seconds as int
  }

  /** Of two accepted times, the earlier is on an earlier day, or earlier on the same day. */
  lemma BeforeMeans(a: GeneralizedTime, b: GeneralizedTime)
    requires ValidateGeneralizedTime(a) && ValidateGeneralizedTime(b)
    ensures Before(a, b) <==> DayOf(a) < DayOf(b) || (DayOf(a) == DayOf(b) && ClockOf(a) < ClockOf(b))
  {
    DatesInOrder(a, b);
  }

  function DateOnly(t: GeneralizedTime): GeneralizedTime {
    t.(hours := 0, minutes := 0, seconds := 0)
  }

  // ----- every day has a date

  lemma {:induction false} Around(f: nat -> int, n: int, last: nat) returns (k: nat)
    requires f(0) <= n < f(last)
    ensures k < last && f(k) <= n < f(k + 1)
  {
    if n < f(last - 1) {
      k := Around(f, n, last - 1);
    } else {
      k := last - 1;
    }
  }

  lemma DateOfDay(n: int) returns (t: GeneralizedTime)
    requires DayNumber(0, 1, 1) <= n < DayNumber(10000, 1, 1)
    ensures AcceptedDate(t) && DayOf(t) == n && t.year < 10000 && t == DateOnly(t)
  {
    FirstAndLast();
    var month := MonthOfDay(n);
    t := DateInMonth(n, month);
  }

  lemma MonthOfDay(n: int) returns (month: nat)
    requires FirstDay(0) <= n < FirstDay(120000)
    ensures month < 120000 && FirstDay(month) <= n < FirstDay(month + 1)
  {
    month := Around(FirstDay, n, 120000);
  }

  lemma FirstAndLast()
    ensures FirstDay(0) == DayNumber(0, 1, 1) && FirstDay(120000) == DayNumber(10000, 1, 1)
  {}

  lemma MonthsOfYear(month: nat)
    requires month < 120000
    ensures month / 12 < 10000 && 1 <= month % 12 + 1 <= 12 && MonthOf(month / 12, month % 12 + 1) == month
  {}

  lemma DateInMonth(n: int, month: nat) returns (t: GeneralizedTime)
    requires month < 120000 && FirstDay(month) <= n < FirstDay(month + 1)
    ensures AcceptedDate(t) && DayOf(t) == n && t.year < 10000 && t == DateOnly(t)
  {
    MonthsOfYear(month);
    t := DateWithin(n, month / 12, month % 12 + 1);
  }

  lemma DateWithin(n: int, y: nat, m: nat) returns (t: GeneralizedTime)
    requires y < 10000 && 1 <= m <= 12 && FirstDay(MonthOf(y, m)) <= n < FirstDay(MonthOf(y, m) + 1)
    ensures AcceptedDate(t) && DayOf(t) == n && t.year < 10000 && t == DateOnly(t)
  {
    var first := FirstDay(MonthOf(y, m));
    var d := n - first + 1;
    MonthSpan(y, m);
    t := GeneralizedTime(y, m, d, 0, 0, 0);
    DayOfDate(t, first);
    AcceptedFillsMonths(t);
  }

  lemma MonthSpan(y: nat, m: nat)
    requires 1 <= m <= 12
    ensures FirstDay(MonthOf(y, m) + 1) <= FirstDay(MonthOf(y, m)) + 31
  {
    MonthLength(y, m);
  }

  lemma DayOfDate(t: GeneralizedTime, first: int)
    requires 1 <= t.month <= 12 && first == FirstDay(MonthOf(t.year, t.month))
    ensures DayOf(t) == first + t.day - 1
  {
    FirstDayAt(t.year, t.month);
    DayInMonth(t.year, t.month, t.day);
  }

  /** Every day from the first of January 0 to the last of December 9999 is accepted as one date, and the
      date can be written and read back. */
  lemma EveryDayIsAccepted(n: int) returns (t: GeneralizedTime)
    requires DayNumber(0, 1, 1) <= n < DayNumber(10000, 1, 1)
    ensures AcceptedDate(t) && DayOf(t) == n
    ensures GeneralizedText(t).Some? && ParsedGeneralized(GeneralizedText(t).value) == Some(t)
  {
    t := DateOfDay(n);
    GeneralizedTimeRoundTrip(GeneralizedText(t).value, t);
  }

  /** Of two accepted dates with none between them, the second is the day after the first. */
  lemma NextDateIsNextDay(a: GeneralizedTime, b: GeneralizedTime)
    requires AcceptedDate(a) && AcceptedDate(b) && a.year < 10000 && b.year < 10000 && DayOf(a) < DayOf(b)
    requires forall c: GeneralizedTime :: AcceptedDate(c) ==> DayOf(c) <= DayOf(a) || DayOf(b) <= DayOf(c)
    ensures DayOf(b) == DayOf(a) + 1
  {
    if DayOf(a) + 1 < DayOf(b) {
      WithinRange(a);
      WithinRange(b);
      var c := DateOfDay(DayOf(a) + 1);
      assert false;
    }
  }

  lemma WithinRange(t: GeneralizedTime)
    requires AcceptedDate(t) && t.year < 10000
    ensures DayNumber(0, 1, 1) <= DayOf(t) < DayNumber(10000, 1, 1)
  {
    AcceptedFillsMonths(t);
    var month := MonthOf(t.year, t.month);
    MonthsInOrder(0, month);
    MonthsInOrder(month + 1, MonthOf(10000, 1));
    FirstDayAt(0, 1);
    FirstDayAt(10000, 1);
  }

  // ----- what the parsers accept

  /** The day lies in its month, and the clock reads at most 23:59:60. */
  predicate CivilTime(t: GeneralizedTime) {
    && 1 <= t.month <= 12
    && FirstDay(MonthOf(t.year, t.month)) <= DayOf(t) < FirstDay(MonthOf(t.year, t.month) + 1)
    && t.hours <= 23 && t.minutes <= 59 && t.seconds <= 60
  }

  /** Both parsers accept exactly the encodings of civil times. */
  lemma ParsersAcceptCivilTimes(s: seq<u8>, t: GeneralizedTime)
    ensures ParsedGeneralized(s) == Some(t) <==> CivilTime(t) && GeneralizedText(t) == Some(s)
    ensures ParsedUtc(s) == Some(t) <==> CivilTime(t) && UtcText(t) == Some(s)
  {
    CivilIsValid(t);
    GeneralizedTimeRoundTrip(s, t);
    UtcTimeRoundTrip(s, t);
  }

  lemma CivilIsValid(t: GeneralizedTime)
    ensures CivilTime(t) <==> ValidateGeneralizedTime(t)
  {
    ClockBounds(t);
    AcceptedFillsMonths(t);
  }

  // ----- years

  /** A year has 365 days, or 366 when 4 divides it and 100 does not unless 400 does. */
  lemma YearLength(y: int)
    ensures DayNumber(y + 1, 1, 1) - DayNumber(y, 1, 1) ==
      if y % 4 == 0 && (y % 100 == 0 ==> y % 400 == 0) then 366 else 365
  {
    LeapDays(y);
  }

  lemma FourCenturies(y: int)
    ensures DayNumber(y + 400, 1, 1) - DayNumber(y, 1, 1) == 146097
  {
    Shift(y - 1, 4);
    Shift(y - 1, 100);
    Shift(y - 1, 400);
  }

  lemma Shift(y: int, n: int)
    requires n == 4 || n == 100 || n == 400
    ensures (y + 400) / n == y / n + 400 / n
  {}
}
