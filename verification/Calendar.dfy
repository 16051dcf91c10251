/**
 The proleptic Gregorian calendar and the week components of dates, in both engines.

 Days are counted from 1970-01-01, day 0; months run from 0 to 11.
 */
module Calendar {

  datatype Date = Date(year: int, month: int, day: int)

  // ---------------------------------------------------------------------------
  // Counting days
  // ---------------------------------------------------------------------------

  predicate IsLeap(y: int) {
    y % 4 == 0 && (y % 100 != 0 || y % 400 == 0)
  }

  function DaysIn(y: int, m: int): int {
    if m == 1 then (if IsLeap(y) then 29 else 28)
    else if m == 3 || m == 5 || m == 8 || m == 10 then 30
    else 31
  }

  /** The months of the Gregorian calendar: three leap days are dropped in four centuries. */
  lemma MonthsAreGregorian(y: int)
    ensures forall m :: m in {0, 2, 4, 6, 7, 9, 11} ==> DaysIn(y, m) == 31
    ensures forall m :: m in {3, 5, 8, 10} ==> DaysIn(y, m) == 30
    ensures DaysIn(y, 1) == if (y % 4 == 0 && y % 100 != 0) || y % 400 == 0 then 29 else 28
  {
    hide IsLeap;
    LeapMeans(y);
  }

  lemma LeapMeans(y: int)
    ensures IsLeap(y) <==> (y % 4 == 0 && y % 100 != 0) || y % 400 == 0
  {
    EveryFourHundred(y);
    EveryHundred(y);
  }

  predicate ValidDate(d: Date) {
    0 <= d.month < 12 && 1 <= d.day <= DaysIn(d.year, d.month)
  }

  /** The next day, by the rules of the calendar. */
  function Tomorrow(d: Date): Date {
    if d.day < DaysIn(d.year, d.month) then Date(d.year, d.month, d.day + 1)
    else if d.month < 11 then Date(d.year, d.month + 1, 1)
    else Date(d.year + 1, 0, 1)
  }

  function YearDays(y: int): int {
    if IsLeap(y) then 366 else 365
  }

  /** Days from the epoch to the first of January: the lengths of the years between. */
  function YearStart(y: int): int
    decreases if y < 1970 then 1970 - y else y - 1970
  {
    if y == 1970 then 0
    else if y > 1970 then YearStart(y - 1) + YearDays(y - 1)
    else YearStart(y + 1) - YearDays(y)
  }

  function MonthStart(y: int, m: int): int
    requires 0 <= m
    decreases m
  {
    if m == 0 then YearStart(y) else MonthStart(y, m - 1) + DaysIn(y, m - 1)
  }

  function DayNumber(d: Date): int
    requires ValidDate(d)
  {
    MonthStart(d.year, d.month) + d.day - 1
  }

  lemma YearLength(y: int)
    ensures YearStart(y + 1) == YearStart(y) + YearDays(y)
  {
  }

  lemma MonthLength(y: int, m: int)
    requires 0 <= m
    ensures MonthStart(y, 0) == YearStart(y) && MonthStart(y, m + 1) == MonthStart(y, m) + DaysIn(y, m)
  {
    hide DaysIn, YearStart;
  }

  lemma MonthsFillYear(y: int)
    ensures MonthStart(y, 12) == YearStart(y + 1)
  {
    YearLength(y);
    var d := if IsLeap(y) then 1 else 0;
    assert MonthStart(y, 2) == YearStart(y) + 59 + d;
    assert MonthStart(y, 4) == YearStart(y) + 120 + d;
    assert MonthStart(y, 6) == YearStart(y) + 181 + d;
    assert MonthStart(y, 8) == YearStart(y) + 243 + d;
    assert MonthStart(y, 10) == YearStart(y) + 304 + d;
    assert MonthStart(y, 12) == YearStart(y) + 365 + d;
  }

  function LeapsBefore(y: int): int {
    (y - 1) / 4 - (y - 1) / 100 + (y - 1) / 400
  }

  lemma EveryFour(y: int)
    ensures y / 4 - (y - 1) / 4 == if y % 4 == 0 then 1 else 0
  {
    var q, r := y / 4, y % 4;
    assert y - 1 == 4 * q + (r - 1) == 4 * (q - 1) + (r + 3);
  }

  lemma EveryHundred(y: int)
    ensures y / 100 - (y - 1) / 100 == if y % 100 == 0 then 1 else 0
    ensures y % 100 == 0 ==> y % 4 == 0
  {
    var q, r := y / 100, y % 100;
    assert y - 1 == 100 * q + (r - 1) == 100 * (q - 1) + (r + 99);
    assert r == 0 ==> y == 4 * (25 * q);
  }

  lemma EveryFourHundred(y: int)
    ensures y / 400 - (y - 1) / 400 == if y % 400 == 0 then 1 else 0
    ensures y % 400 == 0 ==> y % 100 == 0
  {
    var q, r := y / 400, y % 400;
    assert y - 1 == 400 * q + (r - 1) == 400 * (q - 1) + (r + 399);
    assert r == 0 ==> y == 100 * (4 * q);
  }

  lemma LeapCounted(y: int)
    ensures LeapsBefore(y + 1) - LeapsBefore(y) == if IsLeap(y) then 1 else 0
  {
    EveryFour(y);
    EveryHundred(y);
    EveryFourHundred(y);
  }

  lemma {:induction false} YearStartClosed(y: int)
    ensures YearStart(y) == 365 * (y - 1970) + LeapsBefore(y) - 477
    decreases if y < 1970 then 1970 - y else y - 1970
  {
    if y > 1970 {
      YearStartClosed(y - 1);
      LeapCounted(y - 1);
    } else if y < 1970 {
      YearStartClosed(y + 1);
      LeapCounted(y);
    }
  }

  /** The count starts at the epoch and goes up by one each day: no other count does. */
  lemma CountIsTrue(d: Date)
    requires ValidDate(d)
    ensures DayNumber(Date(1970, 0, 1)) == 0
    ensures ValidDate(Tomorrow(d)) && DayNumber(Tomorrow(d)) == DayNumber(d) + 1
  {
    MonthsFillYear(d.year);
  }

  lemma CycleOfYears(y: int)
    ensures YearStart(y + 400) == YearStart(y) + 146097 && (IsLeap(y + 400) <==> IsLeap(y))
  {
    YearStartClosed(y);
    YearStartClosed(y + 400);
    assert (y + 399) / 4 == (y - 1) / 4 + 100 && (y + 399) / 100 == (y - 1) / 100 + 4 && (y + 399) / 400 == (y - 1) / 400 + 1;
  }

  lemma {:induction false} CyclesOfYears(y: int, k: int)
    ensures YearStart(y + 400 * k) == YearStart(y) + 146097 * k && (IsLeap(y + 400 * k) <==> IsLeap(y))
    decreases if k < 0 then -k else k
  {
    if k > 0 {
      CyclesOfYears(y, k - 1);
      CycleOfYears(y + 400 * (k - 1));
    } else if k < 0 {
      CyclesOfYears(y, k + 1);
      CycleOfYears(y + 400 * k);
    }
  }

  lemma {:induction false} CyclesOfMonths(y: int, k: int, m: int)
    requires 0 <= m < 12
    ensures MonthStart(y + 400 * k, m) == MonthStart(y, m) + 146097 * k
    decreases m
  {
    CyclesOfYears(y, k);
    if m > 0 {
      CyclesOfMonths(y, k, m - 1);
    }
  }

  // ---------------------------------------------------------------------------
  // Dates of days
  // ---------------------------------------------------------------------------

  function Walk(y: int, m: int, left: nat): (d: Date)
    requires 0 <= m < 12
    ensures ValidDate(d)
    decreases left
  {
    if left < DaysIn(y, m) then Date(y, m, left + 1)
    else if m < 11 then Walk(y, m + 1, left - DaysIn(y, m))
    else Walk(y + 1, 0, left - DaysIn(y, m))
  }

  /** The date of a day number: the host's UTC fields. */
  function DateOf(n: int): (d: Date)
    ensures ValidDate(d)
  {
    Walk(1970 + 400 * (n / 146097), 0, n % 146097)
  }

  lemma {:induction false} WalkCounts(y: int, m: int, left: nat)
    requires 0 <= m < 12
    ensures DayNumber(Walk(y, m, left)) == MonthStart(y, m) + left
    decreases left
  {
    if left >= DaysIn(y, m) {
      if m < 11 {
        WalkCounts(y, m + 1, left - DaysIn(y, m));
      } else {
        MonthsFillYear(y);
        WalkCounts(y + 1, 0, left - DaysIn(y, m));
      }
    }
  }

  /** Every day has its date. */
  lemma DateOfCounts(n: int)
    ensures DayNumber(DateOf(n)) == n
  {
    CyclesOfYears(1970, n / 146097);
    WalkCounts(1970 + 400 * (n / 146097), 0, n % 146097);
  }

  lemma {:induction false} MonthsOrdered(y: int, m: int, m': int)
    requires 0 <= m < m'
    ensures MonthStart(y, m) + DaysIn(y, m) <= MonthStart(y, m')
    decreases m'
  {
    if m + 1 < m' {
      MonthsOrdered(y, m, m' - 1);
    }
  }

  lemma {:induction false} YearsOrdered(y: int, y': int)
    requires y < y'
    ensures YearStart(y + 1) <= YearStart(y')
    decreases y' - y
  {
    if y + 1 < y' {
      YearsOrdered(y, y' - 1);
      YearLength(y' - 1);
    }
  }

  lemma WithinYear(d: Date)
    requires ValidDate(d)
    ensures YearStart(d.year) <= MonthStart(d.year, d.month) <= DayNumber(d) < MonthStart(d.year, d.month + 1) <= YearStart(d.year + 1)
  {
    MonthsFillYear(d.year);
    if d.month > 0 {
      MonthsOrdered(d.year, 0, d.month);
    }
    if d.month < 11 {
      MonthsOrdered(d.year, d.month + 1, 12);
    }
  }

  /** Every date has its own day. */
  lemma DaysAreDistinct(d: Date, e: Date)
    requires ValidDate(d) && ValidDate(e) && DayNumber(d) == DayNumber(e)
    ensures d == e
  {
    hide MonthStart, YearStart, DaysIn;
    WithinYear(d);
    WithinYear(e);
    if d.year < e.year {
      YearsOrdered(d.year, e.year);
    } else if e.year < d.year {
      YearsOrdered(e.year, d.year);
    } else if d.month < e.month {
      MonthsOrdered(d.year, d.month, e.month);
    } else if e.month < d.month {
      MonthsOrdered(d.year, e.month, d.month);
    }
  }

  // ---------------------------------------------------------------------------
  // Instants
  // ---------------------------------------------------------------------------

  const DAY := 86_400_000

  /** The host's truncating remainder. */
  function Rem(a: int, b: int): int
    requires b > 0
  {
    if a >= 0 then a % b else 0 - (0 - a) % b
  }

  /** A host calendar, trusted from the years 2000 to 2399 alone; months and days run over. */
  ghost predicate TrueIn400Years(host: (int, int, int) -> int) {
    forall y, m, d :: 2000 <= y < 2400 ==> host(y, m, d) == MonthStart(y + m / 12, m % 12) + d - 1
  }

  function AnchorYear(year: int): int {
    2000 + Rem(Rem(year, 400) + 400, 400)
  }

  lemma AnchorIsWholeCyclesAway(year: int)
    ensures 2000 <= AnchorYear(year) < 2400 && year == AnchorYear(year) + 400 * ((year - AnchorYear(year)) / 400)
  {
    assert AnchorYear(year) == 2000 + year % 400;
  }

  function UtcMillis(host: (int, int, int) -> int, year: int, month: int, day: int, hour: int, minute: int, second: int, millis: int): int {
    var anchorYear := AnchorYear(year);
    host(anchorYear, month, day) * DAY + ((hour * 60 + minute) * 60 + second) * 1000 + millis + (year - anchorYear) / 400 * 146097 * DAY
  }

  /** The shift by whole cycles gives the true instant in every year. */
  lemma UtcMillisIsTrue(host: (int, int, int) -> int, year: int, month: int, day: int, hour: int, minute: int, second: int, millis: int)
    requires TrueIn400Years(host)
    ensures UtcMillis(host, year, month, day, hour, minute, second, millis) ==
            (MonthStart(year + month / 12, month % 12) + day - 1) * DAY + ((hour * 60 + minute) * 60 + second) * 1000 + millis
  {
    var anchor := AnchorYear(year);
    AnchorIsWholeCyclesAway(year);
    CyclesOfMonths(anchor + month / 12, (year - anchor) / 400, month % 12);
    assert host(anchor, month, day) == MonthStart(anchor + month / 12, month % 12) + day - 1;
  }

  /** A day has 24 hours, an hour sixty minutes, a minute sixty seconds, and a second a thousand milliseconds. */
  lemma ClockRunsOver(host: (int, int, int) -> int, year: int, month: int, day: int, hour: int, minute: int, second: int, millis: int)
    requires TrueIn400Years(host)
    ensures UtcMillis(host, year, month, day, hour + 24, minute, second, millis) ==
            UtcMillis(host, year, month, day + 1, hour, minute, second, millis)
    ensures UtcMillis(host, year, month, day, hour, minute + 60, second, millis) ==
            UtcMillis(host, year, month, day, hour + 1, minute, second, millis)
    ensures UtcMillis(host, year, month, day, hour, minute, second + 60, millis) ==
            UtcMillis(host, year, month, day, hour, minute + 1, second, millis)
    ensures UtcMillis(host, year, month, day, hour, minute, second, millis + 1000) ==
            UtcMillis(host, year, month, day, hour, minute, second + 1, millis)
    ensures UtcMillis(host, year, month, day, hour, minute, second, millis + 1) ==
            UtcMillis(host, year, month, day, hour, minute, second, millis) + 1
  {
    UtcMillisIsTrue(host, year, month, day, hour + 24, minute, second, millis);
    UtcMillisIsTrue(host, year, month, day + 1, hour, minute, second, millis);
  }

  /** In particular a date's instant is its day number's. */
  lemma UtcMillisOfDate(host: (int, int, int) -> int, d: Date)
    requires TrueIn400Years(host) && ValidDate(d)
    ensures UtcMillis(host, d.year, d.month, d.day, 0, 0, 0, 0) == DayNumber(d) * DAY
  {
    UtcMillisIsTrue(host, d.year, d.month, d.day, 0, 0, 0, 0);
  }

  // ---------------------------------------------------------------------------
  // Weeks by their Thursday
  // ---------------------------------------------------------------------------

  /** The host's day of the week: Sunday is 0, and the epoch is a Thursday. */
  function Weekday(n: int): int {
    (n + 4) % 7
  }

  /** The epoch is a Thursday, the days of the week follow one another, and every Monday starts a week of seven days. */
  lemma WeekdaysCycle(n: int)
    ensures Weekday(DayNumber(Date(1970, 0, 1))) == 4
    ensures Weekday(n + 1) == if Weekday(n) == 6 then 0 else Weekday(n) + 1
    ensures Weekday(n) == 1 ==> forall d :: n <= d < n + 7 ==> Thursday(d) == n + 3
  {
    assert DayNumber(Date(1970, 0, 1)) == 0;
    if Weekday(n) == 1 {
      forall d | n <= d < n + 7
        ensures Thursday(d) == n + 3
      {
        WithinWeek(n, d - n);
      }
    }
  }

  lemma WithinWeek(n: int, k: int)
    requires Weekday(n) == 1 && 0 <= k < 7
    ensures Thursday(n + k) == n + 3
  {
    assert (n + k + 4) % 7 == (1 + k) % 7;
  }

  /** The Thursday of the week, which starts on Monday. */
  function Thursday(n: int): int {
    n + 3 - (Weekday(n) + 6) % 7
  }

  function WeekOfMonth(t: Date): int {
    (t.day + 6) / 7
  }

  /** ISO 8601: a week belongs to the year of its Thursday and is numbered by it. */
  function IsoWeek(t: Date): int
    requires ValidDate(t)
  {
    (DayNumber(t) - YearStart(t.year)) / 7 + 1
  }

  // ---------------------------------------------------------------------------
  // Weeks by the start of the first one
  // ---------------------------------------------------------------------------

  datatype YearMonth = YearMonth(year: int, month: int)
  {
    function NextMonth(): YearMonth {
      if month == 11 then YearMonth(year + 1, 0) else YearMonth(year, month + 1)
    }
    function PreviousMonth(): YearMonth {
      if month == 0 then YearMonth(year - 1, 11) else YearMonth(year, month - 1)
    }
    function NextYear(): YearMonth {
      YearMonth(year + 1, month)
    }
    function PreviousYear(): YearMonth {
      YearMonth(year - 1, month)
    }
  }

  function Start(ym: YearMonth): int
    requires 0 <= ym.month
  {
    MonthStart(ym.year, ym.month)
  }

  function StartOfFirstWeek(ym: YearMonth): int
    requires 0 <= ym.month
  {
    FirstMonday(Start(ym)) * DAY
  }

  function FirstMonday(first: int): int {
    var weekday := if Weekday(first) == 0 then 7 else Weekday(first);
    if weekday > 4 then first + (8 - weekday) else first - (weekday - 1)
  }

  function DeltaWeeks(start: int, end: int): real {
    (end - start) as real / (DAY * 7) as real + 1.0
  }

  /** The shared shape of the two week components; `most` is 52 for years and 4 for months. */
  function WeekIn(previous: YearMonth, own: YearMonth, next: YearMonth, today: int, most: int): int
    requires 0 <= previous.month && 0 <= own.month && 0 <= next.month
  {
    var week := DeltaWeeks(StartOfFirstWeek(own), today);
    var settled :=
      if week > most as real then (if today >= StartOfFirstWeek(next) then 1.0 else week)
      else if week < 1.0 then DeltaWeeks(StartOfFirstWeek(previous), today)
      else week;
    settled.Floor
  }

  function WeekOfYearFragment(d: Date): int
    requires ValidDate(d)
  {
    var thisYear := YearMonth(d.year, 0);
    WeekIn(thisYear.PreviousYear(), thisYear, thisYear.NextYear(), DayNumber(d) * DAY, 52)
  }

  function WeekOfMonthFragment(d: Date): int
    requires ValidDate(d)
  {
    var thisMonth := YearMonth(d.year, d.month);
    WeekIn(thisMonth.PreviousMonth(), thisMonth, thisMonth.NextMonth(), DayNumber(d) * DAY, 4)
  }

  function WeekYearFragment(d: Date, now: int): int {
    var thisYear := YearMonth(d.year, 0);
    if now < StartOfFirstWeek(thisYear) then thisYear.year - 1
    else if now >= StartOfFirstWeek(thisYear.NextYear()) then thisYear.year + 1
    else thisYear.year
  }

  function WeekMonthFragment(d: Date, now: int): int
    requires ValidDate(d)
  {
    var thisMonth := YearMonth(d.year, d.month);
    var nextMonth := thisMonth.NextMonth();
    if now < StartOfFirstWeek(thisMonth) then thisMonth.PreviousMonth().month + 1
    else if now >= StartOfFirstWeek(nextMonth) then nextMonth.month + 1
    else thisMonth.month + 1
  }

  // ---------------------------------------------------------------------------
  // The two rules agree
  // ---------------------------------------------------------------------------

  /** The first week holds the first Thursday: a day lies before it exactly when its Thursday lies before the start. */
  lemma FirstWeekByThursday(first: int, n: int)
    ensures n < FirstMonday(first) <==> Thursday(n) < first
    ensures (n - FirstMonday(first)) / 7 == (Thursday(n) - first) / 7
    ensures first - 3 <= FirstMonday(first) <= first + 3
  {
  }

  lemma WeeksExceed(start: int, n: int, k: int)
    ensures DeltaWeeks(start * DAY, n * DAY) > k as real <==> n - start > 7 * (k - 1)
  {
    assert DeltaWeeks(start * DAY, n * DAY) == (n - start) as real / 7.0 + 1.0;
  }

  lemma WeeksBetween(start: int, n: int)
    ensures DeltaWeeks(start * DAY, n * DAY).Floor == (n - start) / 7 + 1
    ensures DeltaWeeks(start * DAY, n * DAY) < 1.0 <==> n < start
  {
    var d := n - start;
    var week := DeltaWeeks(start * DAY, n * DAY);
    assert week == d as real / 7.0 + 1.0;
  }

  /** The settled week is the one the Thursday has in the period it falls in. */
  lemma WeekInByThursday(previous: YearMonth, own: YearMonth, next: YearMonth, n: int, most: int)
    requires 0 <= previous.month && 0 <= own.month && 0 <= next.month && most >= 1
    requires Start(own) <= n < Start(next) && Start(next) - Start(own) >= 7 * most
    ensures var t := Thursday(n);
            WeekIn(previous, own, next, n * DAY, most) ==
            (t - (if t < Start(own) then Start(previous) else if t >= Start(next) then Start(next) else Start(own))) / 7 + 1
  {
    hide MonthStart, Thursday, DeltaWeeks, FirstMonday;
    FirstWeekByThursday(Start(previous), n);
    FirstWeekByThursday(Start(own), n);
    FirstWeekByThursday(Start(next), n);
    WeeksBetween(FirstMonday(Start(own)), n);
    WeeksExceed(FirstMonday(Start(own)), n, most);
    WeeksBetween(FirstMonday(Start(previous)), n);
  }

  lemma ThursdayNear(n: int)
    ensures n - 3 <= Thursday(n) <= n + 3 && Weekday(Thursday(n)) == 4
  {
  }

  lemma InYear(t: Date, y: int)
    requires ValidDate(t) && YearStart(y) <= DayNumber(t) < YearStart(y + 1)
    ensures t.year == y
  {
    WithinYear(t);
    if t.year < y {
      YearsOrdered(t.year, y);
    } else if t.year > y {
      YearsOrdered(y, t.year);
    }
  }

  lemma YearAdjoins(y: int)
    ensures YearStart(y - 1) + 365 <= YearStart(y) && YearStart(y) + 365 <= YearStart(y + 1)
  {
    YearLength(y - 1);
    YearLength(y);
  }

  /** Which year a day within three of this one falls in. */
  lemma YearNearby(d: Date, t: Date)
    requires ValidDate(d) && ValidDate(t) && DayNumber(d) - 3 <= DayNumber(t) <= DayNumber(d) + 3
    ensures t.year == if DayNumber(t) < YearStart(d.year) then d.year - 1
                      else if DayNumber(t) >= YearStart(d.year + 1) then d.year + 1 else d.year
  {
    WithinYear(d);
    YearAdjoins(d.year);
    YearAdjoins(d.year + 1);
    InYear(t, if DayNumber(t) < YearStart(d.year) then d.year - 1
              else if DayNumber(t) >= YearStart(d.year + 1) then d.year + 1 else d.year);
  }

  lemma NextAdjoins(y: int, m: int)
    requires 0 <= m < 12
    ensures Start(YearMonth(y, m).NextMonth()) == MonthStart(y, m) + DaysIn(y, m)
  {
    if m == 11 {
      MonthsFillYear(y);
    }
  }

  lemma PreviousAdjoins(y: int, m: int)
    requires 0 <= m < 12
    ensures var previous := YearMonth(y, m).PreviousMonth();
            Start(previous) + DaysIn(previous.year, previous.month) == MonthStart(y, m)
  {
    hide MonthStart, DaysIn, YearStart;
    MonthLength(y, 0);
    if m == 0 {
      MonthsFillYear(y - 1);
      MonthLength(y - 1, 11);
    } else {
      MonthLength(y, m - 1);
    }
  }

  /** Which month a day within three of this one falls in. */
  lemma MonthNearby(d: Date, t: Date)
    requires ValidDate(d) && ValidDate(t) && DayNumber(d) - 3 <= DayNumber(t) <= DayNumber(d) + 3
    ensures YearMonth(t.year, t.month) ==
            var own := YearMonth(d.year, d.month);
            if DayNumber(t) < Start(own) then own.PreviousMonth()
            else if DayNumber(t) >= Start(own.NextMonth()) then own.NextMonth() else own
  {
    var own := YearMonth(d.year, d.month);
    NextAdjoins(d.year, d.month);
    PreviousAdjoins(d.year, d.month);
    var target := if DayNumber(t) < Start(own) then own.PreviousMonth()
                  else if DayNumber(t) >= Start(own.NextMonth()) then own.NextMonth() else own;
    var guess := Date(target.year, target.month, DayNumber(t) - Start(target) + 1);
    DaysAreDistinct(guess, t);
  }

  /** Week of the year and its year are those of ISO 8601, for every date. */
  lemma YearWeeksAgree(d: Date)
    requires ValidDate(d)
    ensures var t := DateOf(Thursday(DayNumber(d)));
            WeekOfYearFragment(d) == IsoWeek(t)
  {
    hide MonthStart, YearStart, IsLeap, DayNumber, DateOf, Thursday, WeekIn;
    MonthLength(d.year - 1, 0);
    MonthLength(d.year, 0);
    MonthLength(d.year + 1, 0);
    var n := DayNumber(d);
    var t := DateOf(Thursday(n));
    DateOfCounts(Thursday(n));
    ThursdayNear(n);
    YearNearby(d, t);
    WithinYear(d);
    YearLength(d.year);
    var own := YearMonth(d.year, 0);
    WeekInByThursday(own.PreviousYear(), own, own.NextYear(), n, 52);
  }

  lemma WeekYearsAgree(d: Date, clock: int)
    requires ValidDate(d) && 0 <= clock < DAY
    ensures WeekYearFragment(d, DayNumber(d) * DAY + clock) == DateOf(Thursday(DayNumber(d))).year
  {
    var n := DayNumber(d);
    var t := DateOf(Thursday(n));
    DateOfCounts(Thursday(n));
    ThursdayNear(n);
    YearNearby(d, t);
    FirstWeekByThursday(YearStart(d.year), n);
    FirstWeekByThursday(YearStart(d.year + 1), n);
  }

  /** The first-week arithmetic of one engine gives the Thursday rule of the other, for every date. */
  lemma MonthWeeksAgree(d: Date)
    requires ValidDate(d)
    ensures WeekOfMonthFragment(d) == WeekOfMonth(DateOf(Thursday(DayNumber(d))))
  {
    var n := DayNumber(d);
    var t := DateOf(Thursday(n));
    DateOfCounts(Thursday(n));
    ThursdayNear(n);
    MonthNearby(d, t);
    var own := YearMonth(d.year, d.month);
    NextAdjoins(d.year, d.month);
    WeekInByThursday(own.PreviousMonth(), own, own.NextMonth(), n, 4);
  }

  lemma WeekMonthsAgree(d: Date, clock: int)
    requires ValidDate(d) && 0 <= clock < DAY
    ensures WeekMonthFragment(d, DayNumber(d) * DAY + clock) == DateOf(Thursday(DayNumber(d))).month + 1
  {
    var n := DayNumber(d);
    var t := DateOf(Thursday(n));
    DateOfCounts(Thursday(n));
    ThursdayNear(n);
    MonthNearby(d, t);
    var own := YearMonth(d.year, d.month);
    FirstWeekByThursday(Start(own), n);
    FirstWeekByThursday(Start(own.NextMonth()), n);
  }

  /** The last day of 2023 is a Sunday in the last week of its year, the next a Monday in the first of its own. */
  lemma TurnOfTheYear()
    ensures Weekday(DayNumber(Date(2023, 11, 31))) == 0 && WeekOfYearFragment(Date(2023, 11, 31)) == 52
    ensures Weekday(DayNumber(Date(2024, 0, 1))) == 1
    ensures WeekOfYearFragment(Date(2024, 0, 1)) == 1 && WeekOfMonthFragment(Date(2024, 0, 1)) == 1
  {
    hide WeekOfYearFragment, WeekOfMonthFragment, MonthStart, YearStart, Thursday, DateOf;
    TurningDays();
    DatesOfThursdays();
    YearWeeksAgree(Date(2023, 11, 31));
    YearWeeksAgree(Date(2024, 0, 1));
    MonthWeeksAgree(Date(2024, 0, 1));
  }

  lemma TurningDays()
    ensures DayNumber(Date(2023, 11, 31)) == 19722 && DayNumber(Date(2024, 0, 1)) == 19723
    ensures YearStart(2023) == 19358 && YearStart(2024) == 19723
  {
    hide YearStart, MonthStart;
    YearStartClosed(2023);
    YearStartClosed(2024);
    MonthLength(2024, 0);
    MonthsFillYear(2023);
    MonthLength(2023, 11);
  }

  lemma DatesOfThursdays()
    ensures Thursday(19722) == 19719 && DateOf(19719) == Date(2023, 11, 28)
    ensures Thursday(19723) == 19726 && DateOf(19726) == Date(2024, 0, 4)
  {
    hide YearStart, MonthStart, DateOf;
    TurningDays();
    DateOfCounts(19719);
    DateOfCounts(19726);
    DaysAreDistinct(DateOf(19719), Date(2023, 11, 28));
    DaysAreDistinct(DateOf(19726), Date(2024, 0, 4));
  }
}
