/**
  The conversion of a Unix time to a calendar date, against a calendar that is counted day by day.
*/
module Calendar {

  const SECS_PER_HOUR: nat := 3600
  const SECS_PER_DAY: nat := 86400
  const EPOCH_YEAR: int := 1970

  // ----- the reference: a calendar that turns over one day at a time

  predicate IsLeap(year: int) {
    year % 4 == 0 && (year % 100 != 0 || year % 400 == 0)
  }

  function YearLength(year: int): (n: nat) {
    if IsLeap(year) then 366 else 365
  }

  /** Months are numbered from 0. */
  function MonthLength(year: int, month: nat): nat {
    if month == 1 then (if IsLeap(year) then 29 else 28)
    else if month == 3 || month == 5 || month == 8 || month == 10 then 30
    else 31
  }

  datatype Day = Day(year: int, month: nat, mday: nat, yday: nat, wday: nat)

  function Tomorrow(d: Day): Day {
    var wday := if d.wday == 6 then 0 else d.wday + 1;
    if d.mday < MonthLength(d.year, d.month) then Day(d.year, d.month, d.mday + 1, d.yday + 1, wday)
    else if d.month < 11 then Day(d.year, d.month + 1, 1, d.yday + 1, wday)
    else Day(d.year + 1, 0, 1, 0, wday)
  }

  /** The n-th day after 1 January 1970, which was a Thursday. */
  function DayNumber(n: nat): Day {
    if n == 0 then Day(EPOCH_YEAR, 0, 1, 0, 4) else Tomorrow(DayNumber(n - 1))
  }

  // ----- C arithmetic

  /** Division and remainder that truncate towards zero. */
  function CDiv(a: int, b: int): int
    requires b > 0
  {
    if a >= 0 then a / b else -(-a / b)
  }

  function CMod(a: int, b: int): int
    requires b > 0
  {
    a - CDiv(a, b) * b
  }

  /** The macro DIV rounds down: it takes 1 off the truncated quotient if the remainder is negative. */
  lemma CDivFloor(a: int, b: int)
    requires b > 0
    ensures CDiv(a, b) - (if CMod(a, b) < 0 then 1 else 0) == a / b
  {
    if a < 0 {
      var q, r := -a / b, -a % b;
      assert -a == q * b + r;
      if r == 0 {
        assert a == -q * b;
        FloorUnique(a, b, -q, 0);
      } else {
        assert a == (-q - 1) * b + (b - r);
        FloorUnique(a, b, -q - 1, b - r);
      }
    }
  }

  lemma FloorUnique(a: int, b: int, q: int, r: int)
    requires b > 0 && a == q * b + r && 0 <= r < b
    ensures a / b == q && a % b == r
  {
    var d := a / b - q;
    assert d * b == r - a % b;
    assert d >= 1 ==> d * b >= b;
    assert d <= -1 ==> d * b <= -b;
  }

  /** The leap years up to the end of year `y`, rounding down. */
  function LeapsThru(y: int): int {
    y / 4 - y / 100 + y / 400
  }

  method Div(a: int, b: int) returns (q: int)
    requires b > 0
    ensures q == a / b
  {
    CDivFloor(a, b);
    q := CDiv(a, b) - (if CMod(a, b) < 0 then 1 else 0);
  }

  method LeapsThruEndOf(y: int) returns (n: int)
    ensures n == LeapsThru(y)
  {
    var q4 := Div(y, 4);
    var q100 := Div(y, 100);
    var q400 := Div(y, 400);
    n := q4 - q100 + q400;
  }

  /** Days from 1 January 1970 to 1 January of `y`, as the code's closed form counts them. */
  function DaysBefore(y: int): int {
    (y - EPOCH_YEAR) * 365 + LeapsThru(y - 1) - LeapsThru(EPOCH_YEAR - 1)
  }

  /** The leap years in [a, b). */
  function LeapYears(a: int, b: int): (n: nat)
    requires a <= b
    ensures n <= b - a
    decreases b - a
  {
    if a == b then 0 else LeapYears(a, b - 1) + if IsLeap(b - 1) then 1 else 0
  }

  lemma LeapsStep(y: int)
    ensures LeapsThru(y) - LeapsThru(y - 1) == if IsLeap(y) then 1 else 0
  {
    DivStep(y, 4);
    DivStep(y, 100);
    DivStep(y, 400);
  }

  lemma DivStep(y: int, b: int)
    requires b > 0
    ensures y / b - (y - 1) / b == if y % b == 0 then 1 else 0
  {
    var q, r := y / b, y % b;
    if r == 0 {
      assert y - 1 == (q - 1) * b + (b - 1);
      FloorUnique(y - 1, b, q - 1, b - 1);
    } else {
      FloorUnique(y - 1, b, q, r - 1);
    }
  }

  /** The difference of the closed forms counts the leap years between. */
  lemma {:induction false} LeapsCountLeapYears(a: int, b: int)
    requires a <= b
    ensures LeapsThru(b - 1) - LeapsThru(a - 1) == LeapYears(a, b)
    decreases b - a
  {
    if a < b {
      LeapsCountLeapYears(a, b - 1);
      LeapsStep(b - 1);
    }
  }

  lemma YearStep(y: int)
    ensures DaysBefore(y + 1) == DaysBefore(y) + YearLength(y)
  {
    LeapsStep(y);
  }

  // ----- the closed form against the day-by-day calendar

  /** Days before the month in a year, from the table of the C code. */
  function MonthStart(year: int, month: nat): nat
    requires month <= 12
  {
    var table: seq<nat> :=
      if IsLeap(year) then [0, 31, 60, 91, 121, 152, 182, 213, 244, 274, 305, 335, 366]
      else [0, 31, 59, 90, 120, 151, 181, 212, 243, 273, 304, 334, 365];
    table[month]
  }

  lemma MonthTable(year: int, month: nat)
    requires month < 12
    ensures MonthStart(year, month + 1) == MonthStart(year, month) + MonthLength(year, month)
    ensures MonthStart(year, 0) == 0 && MonthStart(year, 12) == YearLength(year)
  {
  }

  /** A well-formed date that agrees with its position in the year. */
  predicate Dated(d: Day) {
    && d.month < 12 && 1 <= d.mday <= MonthLength(d.year, d.month) && d.wday < 7
    && d.yday == MonthStart(d.year, d.month) + d.mday - 1
  }

  lemma TomorrowDated(d: Day)
    requires Dated(d)
    ensures var t := Tomorrow(d);
            Dated(t) &&
            if t.year == d.year then t.yday == d.yday + 1
            else t.year == d.year + 1 && t.yday == 0 && d.yday + 1 == YearLength(d.year)
  {
    MonthTable(d.year, d.month);
    MonthTable(d.year + 1, 0);
  }

  lemma NextWeekday(n: nat, wday: nat)
    requires wday == (4 + n) % 7
    ensures (if wday == 6 then 0 else wday + 1) == (4 + n + 1) % 7
  {
  }

  /** What a day's number determines. */
  ghost predicate Numbered(d: Day, n: int) {
    Dated(d) && DaysBefore(d.year) + d.yday == n && d.wday == (4 + n) % 7 && d.year >= EPOCH_YEAR
  }

  lemma TomorrowNumbered(d: Day, n: nat)
    requires Numbered(d, n)
    ensures Numbered(Tomorrow(d), n + 1)
  {
    TomorrowDated(d);
    NextWeekday(n, d.wday);
    YearStep(d.year);
  }

  lemma EpochNumbered()
    ensures Numbered(DayNumber(0), 0)
  {
    MonthTable(EPOCH_YEAR, 0);
  }

  lemma NextNumbered(n: nat, d: Day)
    requires n > 0 && d == DayNumber(n - 1) && Numbered(d, n - 1)
    ensures Numbered(DayNumber(n), n)
  {
    TomorrowNumbered(d, n - 1);
  }

  lemma {:induction false} DayNumberMeaning(n: nat)
    ensures Numbered(DayNumber(n), n)
  {
    if n == 0 {
      EpochNumbered();
    } else {
      DayNumberMeaning(n - 1);
      NextNumbered(n, DayNumber(n - 1));
    }
  }

  lemma {:induction false} DaysBeforeMonotone(a: int, b: int)
    requires a < b
    ensures DaysBefore(a) + YearLength(a) <= DaysBefore(b)
    decreases b - a
  {
    YearStep(a);
    if a + 1 < b { DaysBeforeMonotone(a + 1, b); }
  }

  lemma {:induction false} MonthsAscend(year: int, a: nat, b: nat)
    requires a < b <= 12
    ensures MonthStart(year, a) + MonthLength(year, a) <= MonthStart(year, b)
    decreases b - a
  {
    MonthTable(year, a);
    if a + 1 < b { MonthsAscend(year, a + 1, b); }
  }

  /** Year, day of the year, month and day of the month determine the day. */
  lemma DateUnique(d: Day, e: Day)
    requires Dated(d) && Dated(e) && DaysBefore(d.year) + d.yday == DaysBefore(e.year) + e.yday
    ensures d.year == e.year && d.month == e.month && d.mday == e.mday && d.yday == e.yday
  {
    WithinYear(d);
    WithinYear(e);
    if d.year < e.year { DaysBeforeMonotone(d.year, e.year); }
    if e.year < d.year { DaysBeforeMonotone(e.year, d.year); }
    if d.month < e.month { MonthsAscend(d.year, d.month, e.month); }
    if e.month < d.month { MonthsAscend(d.year, e.month, d.month); }
  }

  lemma WithinYear(d: Day)
    requires Dated(d)
    ensures d.yday < YearLength(d.year)
  {
    MonthsAscend(d.year, d.month, 12);
    MonthTable(d.year, 0);
  }

  // ----- what the calendar says

  /** The Gregorian cycle: after 146097 days the same date, 400 years later, on the same weekday. */
  lemma GregorianCycle(n: nat)
    ensures DayNumber(n + 146097) == DayNumber(n).(year := DayNumber(n).year + 400)
  {
    DayNumberMeaning(n);
    CycleOfDates(DayNumber(n), n);
    SameDay(n + 146097, DayNumber(n).(year := DayNumber(n).year + 400));
  }

  lemma CycleOfDates(d: Day, n: nat)
    requires Numbered(d, n)
    ensures Numbered(d.(year := d.year + 400), n + 146097)
  {
    CycleOfYears(d.year);
    Periodic(4 + n, 7, 20871);
  }

  lemma Periodic(y: int, b: int, k: int)
    requires b > 0
    ensures (y + k * b) / b == y / b + k && (y + k * b) % b == y % b
  {
    FloorUnique(y + k * b, b, y / b + k, y % b);
  }

  lemma CycleOfYears(y: int)
    ensures (IsLeap(y + 400) <==> IsLeap(y)) && DaysBefore(y + 400) == DaysBefore(y) + 146097
  {
    Periodic(y, 4, 100);
    Periodic(y, 100, 4);
    Periodic(y, 400, 1);
    Periodic(y - 1, 4, 100);
    Periodic(y - 1, 100, 4);
    Periodic(y - 1, 400, 1);
  }

  lemma KnownYears()
    ensures DaysBefore(2000) == 10957 && DaysBefore(2100) == 47482 && DaysBefore(2106) == 49673
    ensures IsLeap(2000) && !IsLeap(2100) && !IsLeap(2106)
  {
  }

  lemma MonthLengths(year: int, month: nat)
    requires month < 12
    ensures MonthLength(year, month) ==
            [31, if IsLeap(year) then 29 else 28, 31, 30, 31, 30, 31, 31, 30, 31, 30, 31][month]
  {
  }

  /** The leap day of 2000, a Tuesday; the first of March 2100, when there is none, a Monday; and the last
      day that 32 bits reach, a Sunday. */
  lemma KnownDays(n: nat)
    ensures n == 11016 ==> DayNumber(n) == Day(2000, 1, 29, 59, 2)
    ensures n == 47541 ==> DayNumber(n) == Day(2100, 2, 1, 59, 1)
    ensures n == 49710 ==> DayNumber(n) == Day(2106, 1, 7, 37, 0)
  {
    KnownYears();
    if n == 11016 {
      SameDay(n, Day(2000, 1, 29, 59, 2));
    } else if n == 47541 {
      SameDay(n, Day(2100, 2, 1, 59, 1));
    } else if n == 49710 {
      SameDay(n, Day(2106, 1, 7, 37, 0));
    }
  }

  // ----- the year loop

  /** A bound on how far the loop still has to go; it falls although the day count overshoots. */
  function Distance(days: int): nat {
    if days >= 0 then days else 366 + (364 - days) / 365
  }

  /** The days left after one guess. */
  function AfterGuess(y: int, days: int): int {
    days - (days / 365 * 365 + LeapsThru(y + days / 365 - 1) - LeapsThru(y - 1))
  }

  /** A guess moves whole years from the day count into the year. */
  lemma OneGuess(y: int, days: int)
    ensures DaysBefore(y + days / 365) + AfterGuess(y, days) == DaysBefore(y) + days
    ensures days >= 0 ==> days % 365 - days / 365 <= AfterGuess(y, days) <= days % 365
    ensures days < 0 ==> days % 365 <= AfterGuess(y, days) <= days % 365 - days / 365
  {
    var yg := y + days / 365;
    if days >= 0 { LeapsCountLeapYears(y, yg); } else { LeapsCountLeapYears(yg, y); }
  }

  lemma OneYearGuess(y: int, days: int)
    requires days / 365 == 1
    ensures AfterGuess(y, days) == days - YearLength(y)
  {
    LeapsStep(y);
  }

  lemma OneYearBack(y: int, days: int)
    requires days / 365 == -1
    ensures AfterGuess(y, days) == days + YearLength(y - 1)
  {
    LeapsStep(y - 1);
  }

  /** The loop's measure: unless the guess is right, it is closer. */
  lemma GuessIsCloser(y: int, days: int)
    requires days < 0 || days >= YearLength(y)
    ensures var next := AfterGuess(y, days);
            0 <= next < YearLength(y + days / 365) || Distance(next) < Distance(days)
  {
    OneGuess(y, days);
    if days / 365 == 1 { OneYearGuess(y, days); }
  }

  /** How the day count stands after so many guesses, for the first 365 * 365 days. */
  predicate Progress(start: nat, y: int, days: int, passes: nat) {
    (passes == 0 && days == start) || (passes == 1 && -365 < days < 365)
    || (passes == 2 && 0 <= days < YearLength(y))
  }

  lemma GuessProgress(start: nat, y: int, days: int, passes: nat)
    requires start < 365 * 365 && Progress(start, y, days, passes)
    requires days < 0 || days >= YearLength(y)
    ensures Progress(start, y + days / 365, AfterGuess(y, days), passes + 1)
  {
    OneGuess(y, days);
    if passes == 1 { OneYearBack(y, days); }
  }

  lemma GuessStep(start: nat, y: int, days: int, passes: nat)
    requires days < 0 || days >= YearLength(y)
    requires start < 365 * 365 ==> Progress(start, y, days, passes)
    ensures var yg, next := y + days / 365, AfterGuess(y, days);
            DaysBefore(yg) + next == DaysBefore(y) + days &&
            Distance(next) < Distance(days) &&
            (start < 365 * 365 ==> Progress(start, yg, next, passes + 1))
  {
    OneGuess(y, days);
    GuessIsCloser(y, days);
    if start < 365 * 365 { GuessProgress(start, y, days, passes); }
  }

  /** One pass of the year loop: guess a year, assuming 365 days per year, and adjust the day count. */
  method Guess(y: int, days: int) returns (yg: int, left: int)
    ensures yg == y + days / 365 && left == AfterGuess(y, days)
  {
    var q := Div(days, 365);
    yg := y + q;
    var leapsGuess := LeapsThruEndOf(yg - 1);
    var leaps := LeapsThruEndOf(y - 1);
    left := days - ((yg - y) * 365 + leapsGuess - leaps);
  }

  /** The year that contains the day, and the day's position in it; terminates for every day count. */
  method FindYear(start: nat) returns (y: int, days: int, ghost passes: nat)
    ensures 0 <= days < YearLength(y) && DaysBefore(y) + days == start && y >= EPOCH_YEAR
    ensures start < 365 * 365 ==> passes <= 2
  {
    y, days, passes := EPOCH_YEAR, start, 0;
    while days < 0 || days >= (if IsLeap(y) then 366 else 365)
      invariant DaysBefore(y) + days == start
      invariant start < 365 * 365 ==> Progress(start, y, days, passes)
      decreases Distance(days)
    {
      GuessStep(start, y, days, passes);
      y, days := Guess(y, days);
      passes := passes + 1;
    }
    if y < EPOCH_YEAR { DaysBeforeMonotone(y, EPOCH_YEAR); }
  }

  /** struct ntp_tm: months from 0, years since 1900. */
  class NtpTm {
    var sec: int
    var min: int
    var hour: int
    var mday: int
    var mon: int
    var year: int
    var yday: int
    var wday: int

    /** The date fields name the given day. */
    predicate IsDay(d: Day)
      reads this
    {
      year + 1900 == d.year && mon == d.month && mday == d.mday && yday == d.yday && wday == d.wday
    }

    /** The time of day in seconds. */
    function TimeOfDay(): int
      reads this
    {
      hour * 3600 + min * 60 + sec
    }
  }

  /** The time of day. */
  method SetTime(rem: nat, tm: NtpTm)
    requires rem < SECS_PER_DAY
    modifies tm`hour, tm`min, tm`sec
    ensures 0 <= tm.sec < 60 && 0 <= tm.min < 60 && 0 <= tm.hour < 24 && tm.TimeOfDay() == rem
  {
    TimeParts(rem);
    tm.hour := rem / SECS_PER_HOUR;
    tm.min := rem % SECS_PER_HOUR / 60;
    tm.sec := rem % SECS_PER_HOUR % 60;
  }

  /** The date. */
  method SetDate(days: nat, tm: NtpTm)
    requires days < 365 * 365
    modifies tm`wday, tm`year, tm`yday, tm`mon, tm`mday
    ensures tm.IsDay(DayNumber(days)) && DaysBefore(tm.year + 1900) + tm.yday == days && 0 <= tm.year < 0x1_0000
  {
    tm.wday := (4 + days) % 7;
    var y, yday, passes := FindYear(days);
    tm.year := y - 1900;
    tm.yday := yday;
    var mon := FindMonth(y, yday);
    DateIs(days, y, mon, yday);
    YearBound(y, days);
    tm.mon := mon;
    tm.mday := yday - MonthStart(y, mon) + 1;
  }

  /** Dates for every 32-bit Unix time: the day is the one that the day-by-day calendar reaches, and
      the fields convert back to the time they came from. */
  method NtpOfftime(t: nat, tm: NtpTm)
    requires t < 0x1_0000_0000
    modifies tm
    ensures tm.IsDay(DayNumber(t / SECS_PER_DAY))
    ensures 0 <= tm.sec < 60 && 0 <= tm.min < 60 && 0 <= tm.hour < 24
    ensures (DaysBefore(tm.year + 1900) + tm.yday) * SECS_PER_DAY + tm.TimeOfDay() == t
    ensures 0 <= tm.year < 0x1_0000
    ensures t == 951_827_696 ==> tm.year == 100 && tm.mon == 1 && tm.mday == 29 && tm.wday == 2 && tm.yday == 59 &&
                                 tm.hour == 12 && tm.min == 34 && tm.sec == 56
  {
    var days := t / SECS_PER_DAY;
    var rem := t % SECS_PER_DAY;
    assert days * SECS_PER_DAY + rem == t;
    KnownDays(days);
    KnownTime(t, days, rem);
    SetTime(rem, tm);
    SetDate(days, tm);
  }

  lemma KnownTime(t: nat, days: nat, rem: nat)
    requires t == days * SECS_PER_DAY + rem && rem < SECS_PER_DAY
    ensures t == 951_827_696 ==> days == 11016 && rem == 12 * 3600 + 34 * 60 + 56
  {
  }

  lemma TimeParts(rem: nat)
    requires rem < SECS_PER_DAY
    ensures var rest := rem % SECS_PER_HOUR;
            rem / SECS_PER_HOUR < 24 && rest / 60 < 60 &&
            rem / SECS_PER_HOUR * 3600 + rest / 60 * 60 + rest % 60 == rem
  {
  }

  lemma SameDay(n: nat, d: Day)
    requires Dated(d) && DaysBefore(d.year) + d.yday == n && d.wday == (4 + n) % 7
    ensures d == DayNumber(n)
  {
    DayNumberMeaning(n);
    DateUnique(DayNumber(n), d);
  }

  lemma DateIs(n: nat, y: int, month: nat, yday: nat)
    requires month < 12 && MonthStart(y, month) <= yday < MonthStart(y, month) + MonthLength(y, month)
    requires DaysBefore(y) + yday == n
    ensures DayNumber(n) == Day(y, month, yday - MonthStart(y, month) + 1, yday, (4 + n) % 7)
  {
    SameDay(n, Day(y, month, yday - MonthStart(y, month) + 1, yday, (4 + n) % 7));
  }

  /** The loop that looks for the month from December down. */
  method FindMonth(y: int, yday: nat) returns (mon: nat)
    requires yday < YearLength(y)
    ensures mon < 12 && MonthStart(y, mon) <= yday < MonthStart(y, mon) + MonthLength(y, mon)
  {
    mon := 11;
    MonthTable(y, mon);
    while yday < MonthStart(y, mon)
      invariant mon < 12 && yday < MonthStart(y, mon) + MonthLength(y, mon)
    {
      MonthTable(y, 0);
      mon := mon - 1;
      MonthTable(y, mon);
    }
  }

  lemma YearBound(y: int, days: nat)
    requires DaysBefore(y) <= days < 365 * 365
    ensures y < EPOCH_YEAR + 365
  {
    if y >= EPOCH_YEAR + 365 { LeapsCountLeapYears(EPOCH_YEAR, y); }
  }
}
