/**
 * Calendar days of the proleptic Gregorian calendar, the granularity at which
 * the dashboard groups, sorts and filters orders (every `Date` it keeps is
 * either invalid or a local calendar day at some time of day).
 */
module Calendar {

  datatype Date = Date(year: int, month: int, day: int)

  predicate IsLeapYear(y: int) {
    (y % 4 == 0 && y % 100 != 0) || y % 400 == 0
  }

  function DaysInMonth(y: int, m: int): (n: int)
    requires 1 <= m <= 12
    ensures 28 <= n <= 31
    ensures n == 28 <==> m == 2 && !IsLeapYear(y)
  {
    if m == 2 then (if IsLeapYear(y) then 29 else 28)
    else if m == 4 || m == 6 || m == 9 || m == 11 then 30
    else 31
  }

  predicate IsValid(d: Date) {
    1 <= d.month <= 12 && 1 <= d.day <= DaysInMonth(d.year, d.month)
  }

  /** A day that exists; an invalid JavaScript `Date` is modelled separately, as no day at all. */
  type ValidDate = d: Date | IsValid(d) witness Date(1970, 1, 1)

  /** Chronological order of days. */
  predicate Before(a: Date, b: Date) {
    a.year < b.year
    || (a.year == b.year && a.month < b.month)
    || (a.year == b.year && a.month == b.month && a.day < b.day)
  }

  predicate NotAfter(a: Date, b: Date) {
    Before(a, b) || a == b
  }

  /**
   * A number that orders valid days like their timestamps do; it stands for
   * `date.getTime()` in comparisons (gaps between months are not days).
   */
  function DayRank(d: Date): int {
    d.year * 372 + (d.month - 1) * 31 + (d.day - 1)
  }

  /** The rank orders valid days chronologically and tells them apart. */
  lemma RankOrder(a: ValidDate, b: ValidDate)
    ensures Before(a, b) <==> DayRank(a) < DayRank(b)
    ensures DayRank(a) == DayRank(b) <==> a == b
  {
    var ma := (a.month - 1) * 31 + (a.day - 1);
    var mb := (b.month - 1) * 31 + (b.day - 1);
    assert 0 <= ma < 372 && 0 <= mb < 372;
    assert DayRank(a) == a.year * 372 + ma && DayRank(b) == b.year * 372 + mb;
    if a.year < b.year {
      assert a.year * 372 + 372 <= b.year * 372;
    } else if a.year > b.year {
      assert b.year * 372 + 372 <= a.year * 372;
    }
  }

  /** The day after `d`. */
  function NextDay(d: ValidDate): (r: ValidDate)
    ensures Before(d, r)
  {
    if d.day < DaysInMonth(d.year, d.month) then Date(d.year, d.month, d.day + 1)
    else if d.month < 12 then Date(d.year, d.month + 1, 1)
    else Date(d.year + 1, 1, 1)
  }

  /** The day before `d`; `NextDay` undoes it. */
  function PrevDay(d: ValidDate): (r: ValidDate)
    ensures Before(r, d)
    ensures NextDay(r) == d
  {
    if d.day > 1 then Date(d.year, d.month, d.day - 1)
    else if d.month > 1 then Date(d.year, d.month - 1, DaysInMonth(d.year, d.month - 1))
    else Date(d.year - 1, 12, 31)
  }

  /** Consecutive days: nothing lies strictly between a day and the next. */
  lemma NextDayAdjacent(d: ValidDate, e: ValidDate)
    ensures !(Before(d, e) && Before(e, NextDay(d)))
  {
  }

  /** `NextDay` applied `n` times. */
  function AddDays(d: ValidDate, n: nat): (r: ValidDate)
    decreases n
    ensures n == 0 <==> r == d
    ensures n > 0 ==> Before(d, r)
  {
    if n == 0 then d
    else
      var r := AddDays(NextDay(d), n - 1);
      assert n - 1 > 0 ==> Before(NextDay(d), r);
      r
  }

  /** date-fns `subDays(d, n)` at day granularity: `n` days earlier. */
  function SubDays(d: ValidDate, n: nat): (r: ValidDate)
    decreases n
    ensures n == 0 <==> r == d
    ensures n > 0 ==> Before(r, d)
  {
    if n == 0 then d
    else
      var r := SubDays(PrevDay(d), n - 1);
      assert n - 1 > 0 ==> Before(r, PrevDay(d));
      r
  }

  /** Going back `n` days and then forward `n` days returns to the start. */
  lemma {:induction false} SubThenAdd(d: ValidDate, n: nat)
    ensures AddDays(SubDays(d, n), n) == d
    decreases n
  {
    if n > 0 {
      var p := PrevDay(d);
      SubThenAdd(p, n - 1);
      AddLast(SubDays(p, n - 1), n - 1);
    }
  }

  /** `n + 1` steps forward are `n` steps and then one more. */
  lemma {:induction false} AddLast(d: ValidDate, n: nat)
    ensures AddDays(d, n + 1) == NextDay(AddDays(d, n))
    decreases n
  {
    if n > 0 {
      AddLast(NextDay(d), n - 1);
    }
  }

  /** A calendar month, the key of the monthly report. */
  datatype Month = Month(year: int, month: int)

  function MonthOf(d: Date): Month {
    Month(d.year, d.month)
  }

  /** Orders months chronologically: the first day of an earlier month has a smaller timestamp. */
  function MonthRank(m: Month): int {
    m.year * 12 + (m.month - 1)
  }

  /** The month rank orders months like their first days and tells months apart. */
  lemma MonthRankOrder(a: Month, b: Month)
    requires 1 <= a.month <= 12 && 1 <= b.month <= 12
    ensures MonthRank(a) < MonthRank(b) <==> Before(Date(a.year, a.month, 1), Date(b.year, b.month, 1))
    ensures MonthRank(a) == MonthRank(b) <==> a == b
  {
    if a.year < b.year {
      assert a.year * 12 + 12 <= b.year * 12;
    } else if a.year > b.year {
      assert b.year * 12 + 12 <= a.year * 12;
    }
  }

  /** Days of different months keep the order of their months. */
  lemma MonthOrderFollowsDays(a: ValidDate, b: ValidDate)
    requires MonthOf(a) != MonthOf(b)
    ensures Before(a, b) <==> MonthRank(MonthOf(a)) < MonthRank(MonthOf(b))
  {
    MonthRankOrder(MonthOf(a), MonthOf(b));
  }
}
