/**
 * The pure logic of `components/dashboard.tsx`: the adapter that turns the
 * worker's rows into orders (`handleDataLoaded`), the filters applied before
 * the aggregators run, and the summary cards (`calculateSummary`).
 */
module Dashboard {
  import opened Wrappers
  import opened JsNumber
  import opened Calendar
  import opened Orders
  import opened DataProcessor

  // ---------------------------------------------------------------------
  // Cells
  // ---------------------------------------------------------------------

  /** `row[k] || fallback`: a missing cell and an empty one both give the fallback. */
  function CellOr(row: seq<string>, k: nat, fallback: string): (c: string)
    ensures k < |row| && row[k] != "" ==> c == row[k]
    ensures k >= |row| || row[k] == "" ==> c == fallback
  {
    if k < |row| && row[k] != "" then row[k] else fallback
  }

  // ---------------------------------------------------------------------
  // The date fallback chain
  // ---------------------------------------------------------------------

  /**
   * The date of a row as the adapter reads it. With a dash the text is tried
   * as "MM-dd-yy", then "dd-MM-yy", then "yyyy-MM-dd"; with a slash as
   * "MM/dd/yy", then "dd/MM/yy"; otherwise by the `Date` constructor. When
   * that yields no valid date the handler tries the `Date` constructor once
   * more, and failing that dates the order 15 days before now. The time of
   * day, always set to noon, is not part of a calendar day.
   */
  function ParseOrderDate(s: string, parsers: DateParsers, now: ValidDate): (d: ValidDate)
    ensures DateAttempts(s, parsers)[0].Some? ==> d == DateAttempts(s, parsers)[0].value
    ensures Some(d) in DateAttempts(s, parsers) || d == SubDays(now, 15)
    ensures (forall a :: a in DateAttempts(s, parsers) ==> a.None?) ==> d == SubDays(now, 15)
  {
    var attempt :=
      if '-' in s then
        match parsers.parse(s, MonthDayYearDash)
        case Some(d) => Some(d)
        case None =>
          match parsers.parse(s, DayMonthYearDash)
          case Some(d) => Some(d)
          case None => parsers.parse(s, YearMonthDayDash)
      else if '/' in s then
        match parsers.parse(s, MonthDayYearSlash)
        case Some(d) => Some(d)
        case None => parsers.parse(s, DayMonthYearSlash)
      else
        parsers.generic(s);
    match attempt
    case Some(d) => d
    case None =>
      match parsers.generic(s)
      case Some(d) => d
      case None => SubDays(now, 15)
  }

  /** The reference reading of the chain: the parses in the order they are tried. */
  function DateAttempts(s: string, parsers: DateParsers): (attempts: seq<Option<ValidDate>>)
    ensures |attempts| > 0 && attempts[|attempts| - 1] == parsers.generic(s)
  {
    if '-' in s then
      [parsers.parse(s, MonthDayYearDash), parsers.parse(s, DayMonthYearDash),
       parsers.parse(s, YearMonthDayDash), parsers.generic(s)]
    else if '/' in s then
      [parsers.parse(s, MonthDayYearSlash), parsers.parse(s, DayMonthYearSlash), parsers.generic(s)]
    else
      [parsers.generic(s)]
  }

  /** The first successful attempt, or the fallback when every attempt fails. */
  function FirstSuccess(attempts: seq<Option<ValidDate>>, fallback: ValidDate): (d: ValidDate)
    ensures (forall i :: 0 <= i < |attempts| ==> attempts[i].None?) ==> d == fallback
    ensures forall i :: 0 <= i < |attempts| ==>
              (attempts[i].Some? && forall j :: 0 <= j < i ==> attempts[j].None?) ==> d == attempts[i].value
  {
    if |attempts| == 0 then fallback
    else if attempts[0].Some? then attempts[0].value
    else
      var rest := attempts[1..];
      var d := FirstSuccess(rest, fallback);
      assert forall i :: 1 <= i < |attempts| ==> rest[i - 1] == attempts[i];
      assert forall i :: 0 <= i < |attempts| && attempts[i].Some? && (forall j :: 0 <= j < i ==> attempts[j].None?) ==>
               (forall j :: 0 <= j < i - 1 ==> rest[j].None?);
      d
  }

  /** One step of `FirstSuccess`: a success ends the search, a failure moves on. */
  lemma FirstSuccessStep(x: Option<ValidDate>, rest: seq<Option<ValidDate>>, fallback: ValidDate)
    ensures FirstSuccess([x] + rest, fallback) == if x.Some? then x.value else FirstSuccess(rest, fallback)
  {
    assert ([x] + rest)[1..] == rest;
  }

  /** `FirstSuccess` over one, two, three and four attempts, spelled out. */
  lemma FirstOfFew(a: Option<ValidDate>, b: Option<ValidDate>, c: Option<ValidDate>, g: Option<ValidDate>, f: ValidDate)
    ensures FirstSuccess([g], f) == if g.Some? then g.value else f
    ensures FirstSuccess([c, g], f) == if c.Some? then c.value else FirstSuccess([g], f)
    ensures FirstSuccess([b, c, g], f) == if b.Some? then b.value else FirstSuccess([c, g], f)
    ensures FirstSuccess([a, b, c, g], f) == if a.Some? then a.value else FirstSuccess([b, c, g], f)
  {
    FirstSuccessStep(g, [], f);
    FirstSuccessStep(c, [g], f);
    FirstSuccessStep(b, [c, g], f);
    FirstSuccessStep(a, [b, c, g], f);
    assert [g] + [] == [g] && [c] + [g] == [c, g] && [b] + [c, g] == [b, c, g] && [a] + [b, c, g] == [a, b, c, g];
  }

  /** The nested handlers amount to taking the first parse that succeeds, with the sentinel last. */
  lemma ParseOrderDateIsFirstSuccess(s: string, parsers: DateParsers, now: ValidDate)
    ensures ParseOrderDate(s, parsers, now) == FirstSuccess(DateAttempts(s, parsers), SubDays(now, 15))
  {
    if '-' in s {
      DashChain(s, parsers, now);
    } else if '/' in s {
      SlashChain(s, parsers, now);
    } else {
      var g := parsers.generic(s);
      FirstOfFew(g, g, g, g, SubDays(now, 15));
    }
  }

  /** The chain for text with a dash. */
  lemma DashChain(s: string, parsers: DateParsers, now: ValidDate)
    requires '-' in s
    ensures ParseOrderDate(s, parsers, now) == FirstSuccess(DateAttempts(s, parsers), SubDays(now, 15))
  {
    FirstOfFew(parsers.parse(s, MonthDayYearDash), parsers.parse(s, DayMonthYearDash),
               parsers.parse(s, YearMonthDayDash), parsers.generic(s), SubDays(now, 15));
  }

  /** The chain for text with a slash and no dash. */
  lemma SlashChain(s: string, parsers: DateParsers, now: ValidDate)
    requires '-' !in s && '/' in s
    ensures ParseOrderDate(s, parsers, now) == FirstSuccess(DateAttempts(s, parsers), SubDays(now, 15))
  {
    var g := parsers.generic(s);
    FirstOfFew(g, parsers.parse(s, MonthDayYearSlash), parsers.parse(s, DayMonthYearSlash), g, SubDays(now, 15));
  }

  /** When no parse succeeds the order is dated exactly 15 days before now. */
  lemma SentinelDate(s: string, parsers: DateParsers, now: ValidDate)
    requires forall i :: 0 <= i < |DateAttempts(s, parsers)| ==> DateAttempts(s, parsers)[i].None?
    ensures Before(ParseOrderDate(s, parsers, now), now)
    ensures AddDays(ParseOrderDate(s, parsers, now), 15) == now
  {
    ParseOrderDateIsFirstSuccess(s, parsers, now);
    SubThenAdd(now, 15);
  }

  // ---------------------------------------------------------------------
  // The row adapter
  // ---------------------------------------------------------------------

  /**
   * One row of the worker's output as an order, or nothing for a row with
   * fewer than two cells. Columns: 1 order id, 2 date, 3 status, 9 category,
   * 13 quantity, 14 currency, 15 amount, 16 city, 17 state. A quantity or
   * amount that is 0 or NaN becomes 1; every row of two or more cells
   * becomes an order, cancelled or not, and always with a valid date.
   */
  function AdaptRow(row: seq<string>, parsers: DateParsers, now: ValidDate): (r: Option<Order>)
    ensures r.Some? <==> |row| >= 2
    ensures r.Some? ==> r.value.date == Some(ParseOrderDate(CellOr(row, 2, ""), parsers, now))
    ensures r.Some? ==> r.value.orderId == CellOr(row, 1, "") && r.value.status == CellOr(row, 3, "")
    ensures r.Some? ==> r.value.quantity != 0 && r.value.amount.Num? && r.value.amount.value != 0.0
    ensures r.Some? ==>
              && r.value.currency == CellOr(row, 14, "INR") && r.value.category == CellOr(row, 9, "Uncategorized")
              && r.value.city == CellOr(row, 16, "Unknown") && r.value.state == CellOr(row, 17, "Unknown")
    ensures r.Some? ==>
              r.value.currency != "" && r.value.category != "" && r.value.city != "" && r.value.state != ""
  {
    if |row| < 2 then None
    else
      Some(Order(
        orderId := CellOr(row, 1, ""),
        date := Some(ParseOrderDate(CellOr(row, 2, ""), parsers, now)),
        status := CellOr(row, 3, ""),
        quantity := IntOrElse(ParseInt(CellOr(row, 13, "0"), true), 1),
        amount := Num(OrElse(ParseFloat(CellOr(row, 15, "0")), 1.0)),
        currency := CellOr(row, 14, "INR"),
        category := CellOr(row, 9, "Uncategorized"),
        city := CellOr(row, 16, "Unknown"),
        state := CellOr(row, 17, "Unknown")))
  }

  /**
   * `parseInt(row[13] || "0", 10) || 1` and `parseFloat(row[15] || "0") || 1`:
   * a quantity or amount that reads as 0 or NaN becomes 1, any other is kept.
   */
  lemma AdaptRowNumbers(row: seq<string>, parsers: DateParsers, now: ValidDate)
    requires |row| >= 2
    ensures var q := ParseInt(CellOr(row, 13, "0"), true);
            (q.None? || q == Some(0) ==> AdaptRow(row, parsers, now).value.quantity == 1)
            && (q.Some? && q.value != 0 ==> AdaptRow(row, parsers, now).value.quantity == q.value)
    ensures var a := ParseFloat(CellOr(row, 15, "0"));
            (!Truthy(a) ==> AdaptRow(row, parsers, now).value.amount == Num(1.0))
            && (Truthy(a) ==> AdaptRow(row, parsers, now).value.amount == a)
  {
  }

  /** The values present in `xs`, in order. */
  function Somes(xs: seq<Option<Order>>): (r: seq<Order>)
    ensures |r| <= |xs|
    ensures forall x :: x in r <==> Some(x) in xs
  {
    if |xs| == 0 then []
    else
      var front := xs[..|xs| - 1];
      var last := xs[|xs| - 1];
      assert xs == front + [last];
      Somes(front) + (if last.Some? then [last.value] else [])
  }

  /** Each order appears as often as it did wrapped in `Some`. */
  lemma {:induction false} SomesCounts(xs: seq<Option<Order>>)
    ensures forall x :: multiset(Somes(xs))[x] == multiset(xs)[Some(x)]
  {
    if |xs| > 0 {
      var front, last := xs[..|xs| - 1], xs[|xs| - 1];
      assert xs == front + [last];
      assert multiset(xs) == multiset(front) + multiset{last};
      assert Somes(xs) == Somes(front) + (if last.Some? then [last.value] else []);
      SomesCounts(front);
    }
  }

  /** Dropping the `None`s of two runs is dropping each run's and concatenating. */
  lemma {:induction false} SomesAppend(xs: seq<Option<Order>>, ys: seq<Option<Order>>)
    ensures Somes(xs + ys) == Somes(xs) + Somes(ys)
    decreases |ys|
  {
    if |ys| == 0 {
      assert xs + ys == xs;
    } else {
      assert (xs + ys)[..|xs + ys| - 1] == xs + ys[..|ys| - 1];
      SomesAppend(xs, ys[..|ys| - 1]);
    }
  }

  /** Every data row run through the adapter. */
  function Adapted(rows: seq<seq<string>>, parsers: DateParsers, now: ValidDate): (rs: seq<Option<Order>>)
    ensures |rs| == |rows| && forall i :: 0 <= i < |rows| ==> rs[i] == AdaptRow(rows[i], parsers, now)
  {
    if |rows| == 0 then []
    else Adapted(rows[..|rows| - 1], parsers, now) + [AdaptRow(rows[|rows| - 1], parsers, now)]
  }

  /** `.map(...).filter(order => order !== null)`: the adapted rows in row order. */
  function AdaptRows(rows: seq<seq<string>>, parsers: DateParsers, now: ValidDate): (os: seq<Order>)
    ensures |os| <= |rows|
    ensures forall o :: o in os <==> Some(o) in Adapted(rows, parsers, now)
  {
    Somes(Adapted(rows, parsers, now))
  }

  /** The number of rows with at least two cells: the rows the adapter keeps. */
  function LongRows(rows: seq<seq<string>>): nat {
    if |rows| == 0 then 0
    else LongRows(rows[..|rows| - 1]) + (if |rows[|rows| - 1]| >= 2 then 1 else 0)
  }

  /**
   * The adapted orders come in row order: those of two runs of rows are
   * those of each run, one after the other.
   */
  lemma {:induction false} AdaptRowsAppend(xs: seq<seq<string>>, ys: seq<seq<string>>, parsers: DateParsers, now: ValidDate)
    ensures AdaptRows(xs + ys, parsers, now) == AdaptRows(xs, parsers, now) + AdaptRows(ys, parsers, now)
  {
    AdaptedAppend(xs, ys, parsers, now);
    SomesAppend(Adapted(xs, parsers, now), Adapted(ys, parsers, now));
  }

  /** The adapter runs row by row: two runs of rows adapt to the two runs' results. */
  lemma {:induction false} AdaptedAppend(xs: seq<seq<string>>, ys: seq<seq<string>>, parsers: DateParsers, now: ValidDate)
    ensures Adapted(xs + ys, parsers, now) == Adapted(xs, parsers, now) + Adapted(ys, parsers, now)
    decreases |ys|
  {
    if |ys| == 0 {
      assert xs + ys == xs;
    } else {
      assert (xs + ys)[..|xs + ys| - 1] == xs + ys[..|ys| - 1];
      AdaptedAppend(xs, ys[..|ys| - 1], parsers, now);
    }
  }

  /** One row gives one order when it has two cells or more, and none otherwise. */
  lemma {:induction false} AdaptOneRow(row: seq<string>, parsers: DateParsers, now: ValidDate)
    ensures |row| >= 2 ==> AdaptRows([row], parsers, now) == [AdaptRow(row, parsers, now).value]
    ensures |row| < 2 ==> AdaptRows([row], parsers, now) == []
  {
    var a := Adapted([row], parsers, now);
    assert a == [AdaptRow(row, parsers, now)];
    assert a[..0] == [];
  }

  /** Each adapted order occurs exactly as often as the adapter produced it: none is dropped or repeated. */
  lemma {:induction false} AdaptRowsMultiplicity(rows: seq<seq<string>>, parsers: DateParsers, now: ValidDate)
    ensures forall o :: multiset(AdaptRows(rows, parsers, now))[o] == multiset(Adapted(rows, parsers, now))[Some(o)]
  {
    SomesCounts(Adapted(rows, parsers, now));
  }

  /** Exactly one order per row with at least two cells. */
  lemma {:induction false} AdaptRowsCount(rows: seq<seq<string>>, parsers: DateParsers, now: ValidDate)
    ensures |AdaptRows(rows, parsers, now)| == LongRows(rows)
  {
    if |rows| > 0 {
      var front, last := rows[..|rows| - 1], rows[|rows| - 1];
      assert rows == front + [last];
      AdaptRowsAppend(front, [last], parsers, now);
      AdaptOneRow(last, parsers, now);
      AdaptRowsCount(front, parsers, now);
    }
  }

  /** Why an upload is rejected. */
  datatype LoadError =
    | InvalidHeader   // no header row, or fewer than 10 header cells
    | NoValidOrders   // the header is fine but no row became an order

  /**
   * `handleDataLoaded` up to the point where it stores the orders: the first
   * row is the header and must have at least ten cells; the rest are adapted
   * row by row, and an upload that yields no order is rejected.
   */
  function LoadOrders(csvRows: seq<seq<string>>, parsers: DateParsers, now: ValidDate): (r: Result<seq<Order>, LoadError>)
    ensures r == Failure(InvalidHeader) <==> |csvRows| == 0 || |csvRows[0]| < 10
    ensures r == Failure(NoValidOrders) <==>
              |csvRows| > 0 && |csvRows[0]| >= 10 && forall i :: 1 <= i < |csvRows| ==> |csvRows[i]| < 2
    ensures r.Success? ==> 0 < |r.value| < |csvRows|
    ensures r.Success? ==> r.value == AdaptRows(csvRows[1..], parsers, now)
  {
    if |csvRows| == 0 || |csvRows[0]| < 10 then Failure(InvalidHeader)
    else
      var rows := csvRows[1..];
      var os := AdaptRows(rows, parsers, now);
      NoOrdersMeansShortRows(rows, parsers, now);
      assert (forall i :: 0 <= i < |rows| ==> |rows[i]| < 2) <==> (forall i :: 1 <= i < |csvRows| ==> |csvRows[i]| < 2) by {
        assert forall i :: 1 <= i < |csvRows| ==> csvRows[i] == rows[i - 1];
      }
      if |os| == 0 then Failure(NoValidOrders) else Success(os)
  }

  /** The adapter drops exactly the rows of fewer than two cells. */
  lemma {:induction false} NoOrdersMeansShortRows(rows: seq<seq<string>>, parsers: DateParsers, now: ValidDate)
    ensures |AdaptRows(rows, parsers, now)| == 0 <==> forall i :: 0 <= i < |rows| ==> |rows[i]| < 2
  {
    AdaptRowsCount(rows, parsers, now);
    NoLongRows(rows);
  }

  /** No row counts as long exactly when every row has fewer than two cells. */
  lemma {:induction false} NoLongRows(rows: seq<seq<string>>)
    ensures LongRows(rows) == 0 <==> forall i :: 0 <= i < |rows| ==> |rows[i]| < 2
  {
    if |rows| > 0 {
      var front := rows[..|rows| - 1];
      NoLongRows(front);
      assert forall i :: 0 <= i < |front| ==> front[i] == rows[i];
    }
  }


  /**
   * Every row keeps its status, "Cancelled" included: the adapter does not
   * filter on status, so a loaded upload holds an order for each such row.
   */
  lemma CancelledRowsLoad(csvRows: seq<seq<string>>, parsers: DateParsers, now: ValidDate, i: nat, status: string)
    requires |csvRows| > 0 && |csvRows[0]| >= 10
    requires 1 <= i < |csvRows| && |csvRows[i]| > 3 && csvRows[i][3] == status && status != ""
    ensures LoadOrders(csvRows, parsers, now).Success?
    ensures exists o :: o in LoadOrders(csvRows, parsers, now).value && o.status == status
  {
    var rows := csvRows[1..];
    assert rows[i - 1] == csvRows[i];
    StatusKept(rows, parsers, now, i - 1, status);
    var o :| o in AdaptRows(rows, parsers, now) && o.status == status;
    assert |AdaptRows(rows, parsers, now)| > 0;
    OrdersLoad(csvRows, parsers, now);
  }

  /** A valid header and at least one adapted row make the upload succeed with exactly those orders. */
  lemma OrdersLoad(csvRows: seq<seq<string>>, parsers: DateParsers, now: ValidDate)
    requires |csvRows| > 0 && |csvRows[0]| >= 10
    requires |AdaptRows(csvRows[1..], parsers, now)| > 0
    ensures LoadOrders(csvRows, parsers, now) == Success(AdaptRows(csvRows[1..], parsers, now))
  {
  }

  lemma StatusKept(rows: seq<seq<string>>, parsers: DateParsers, now: ValidDate, k: nat, status: string)
    requires k < |rows| && |rows[k]| > 3 && rows[k][3] == status && status != ""
    ensures exists o :: o in AdaptRows(rows, parsers, now) && o.status == status
  {
    var r := AdaptRow(rows[k], parsers, now);
    assert r.Some? && r.value.status == status;
    assert Adapted(rows, parsers, now)[k] == Some(r.value);
    assert r.value in AdaptRows(rows, parsers, now);
  }

  // ---------------------------------------------------------------------
  // Filters
  // ---------------------------------------------------------------------

  /**
   * The filter state: the two ends of the date range (`dateRange?.from`,
   * `dateRange?.to`, absent when unset) and the selected category and region
   * (`null` when unset).
   */
  datatype Filters = Filters(
    from: Option<ValidDate>,
    to: Option<ValidDate>,
    category: Option<string>,
    region: Option<string>)

  /** `.filter(keep)`: the orders that satisfy `keep`, in order. */
  function Select(os: seq<Order>, keep: Order -> bool): (r: seq<Order>)
    ensures |r| <= |os|
  {
    if |os| == 0 then []
    else
      var front := os[..|os| - 1];
      var last := os[|os| - 1];
      assert os == front + [last];
      Select(front, keep) + (if keep(last) then [last] else [])
  }

  /** The selected orders are exactly the members of `os` that meet the condition. */
  lemma {:induction false} SelectMembers(os: seq<Order>, keep: Order -> bool)
    ensures forall o :: o in Select(os, keep) <==> o in os && keep(o)
  {
    if |os| > 0 {
      var front := os[..|os| - 1];
      SelectMembers(front, keep);
      assert os == front + [os[|os| - 1]];
    }
  }

  /** The date condition: a valid date within the range, both ends included. */
  predicate InDateRange(o: Order, from: ValidDate, to: ValidDate) {
    o.date.Some? && NotAfter(from, o.date.value) && NotAfter(o.date.value, to)
  }

  /** A selection is in force when it is a non-empty string. */
  predicate Selected(choice: Option<string>) {
    choice.Some? && choice.value != ""
  }

  /** The date condition when both ends are set; no condition otherwise. */
  predicate DateOk(o: Order, f: Filters) {
    f.from.Some? && f.to.Some? ==> InDateRange(o, f.from.value, f.to.value)
  }

  /** `order.category === selectedCategory` when a category is selected. */
  predicate CategoryOk(o: Order, f: Filters) {
    Selected(f.category) ==> o.category == f.category.value
  }

  /** `order.state === selectedRegion` when a region is selected. */
  predicate RegionOk(o: Order, f: Filters) {
    Selected(f.region) ==> o.state == f.region.value
  }

  /** What an order must satisfy to stay: every condition in force. */
  predicate Matches(o: Order, f: Filters) {
    DateOk(o, f) && CategoryOk(o, f) && RegionOk(o, f)
  }

  /** The conditions as the functions `.filter` takes. */
  function DateTest(f: Filters): Order -> bool {
    (o: Order) => DateOk(o, f)
  }

  function CategoryTest(f: Filters): Order -> bool {
    (o: Order) => CategoryOk(o, f)
  }

  function RegionTest(f: Filters): Order -> bool {
    (o: Order) => RegionOk(o, f)
  }

  function DateAndCategoryTest(f: Filters): Order -> bool {
    (o: Order) => DateOk(o, f) && CategoryOk(o, f)
  }

  function MatchTest(f: Filters): Order -> bool {
    (o: Order) => Matches(o, f)
  }

  function ByDate(os: seq<Order>, f: Filters): seq<Order> {
    if f.from.Some? && f.to.Some? then Select(os, (o: Order) => InDateRange(o, f.from.value, f.to.value)) else os
  }

  function ByCategory(os: seq<Order>, f: Filters): seq<Order> {
    if Selected(f.category) then Select(os, (o: Order) => o.category == f.category.value) else os
  }

  function ByRegion(os: seq<Order>, f: Filters): seq<Order> {
    if Selected(f.region) then Select(os, (o: Order) => o.state == f.region.value) else os
  }

  /**
   * The filtering of lines 93-105 and 133-143: first by date when both ends
   * are set, then by category and by region when selected.
   */
  function ApplyFilters(os: seq<Order>, f: Filters): (r: seq<Order>)
    ensures |r| <= |os|
    ensures forall o :: o in r <==> o in os && Matches(o, f)
  {
    DateThenCategory(os, f);
    ByRegionSelects(ByCategory(ByDate(os, f), f), f);
    SelectTwice(os, DateAndCategoryTest(f), RegionTest(f), MatchTest(f));
    SelectMembers(os, MatchTest(f));
    ByRegion(ByCategory(ByDate(os, f), f), f)
  }

  /** Filtering twice is filtering once by both conditions. */
  lemma {:induction false} SelectTwice(os: seq<Order>, p: Order -> bool, q: Order -> bool, both: Order -> bool)
    requires forall o :: both(o) == (p(o) && q(o))
    ensures Select(Select(os, p), q) == Select(os, both)
  {
    if |os| > 0 {
      var front := os[..|os| - 1];
      var last := os[|os| - 1];
      SelectTwice(front, p, q, both);
      var inner := Select(os, p);
      assert inner == Select(front, p) + (if p(last) then [last] else []);
      SelectAppend(Select(front, p), if p(last) then [last] else [], q);
      assert Select([last], q) == (if q(last) then [last] else []) by {
        assert [last][..0] == [];
      }
    }
  }

  lemma {:induction false} SelectAppend(a: seq<Order>, b: seq<Order>, q: Order -> bool)
    ensures Select(a + b, q) == Select(a, q) + Select(b, q)
    decreases |b|
  {
    if |b| > 0 {
      var b' := b[..|b| - 1];
      assert (a + b)[..|a + b| - 1] == a + b';
      SelectAppend(a, b', q);
    } else {
      assert a + b == a;
    }
  }

  /** Conditions that agree on every order select the same orders. */
  lemma {:induction false} SelectSame(os: seq<Order>, p: Order -> bool, q: Order -> bool)
    requires forall o :: p(o) == q(o)
    ensures Select(os, p) == Select(os, q)
  {
    if |os| > 0 {
      SelectSame(os[..|os| - 1], p, q);
    }
  }

  /** A condition every order meets keeps them all. */
  lemma {:induction false} SelectAll(os: seq<Order>, p: Order -> bool)
    requires forall o :: p(o)
    ensures Select(os, p) == os
  {
    if |os| > 0 {
      SelectAll(os[..|os| - 1], p);
      assert os == os[..|os| - 1] + [os[|os| - 1]];
    }
  }

  lemma ByDateSelects(os: seq<Order>, f: Filters)
    ensures ByDate(os, f) == Select(os, DateTest(f))
  {
    if f.from.Some? && f.to.Some? {
      SelectSame(os, (o: Order) => InDateRange(o, f.from.value, f.to.value), DateTest(f));
    } else {
      SelectAll(os, DateTest(f));
    }
  }

  lemma ByCategorySelects(os: seq<Order>, f: Filters)
    ensures ByCategory(os, f) == Select(os, CategoryTest(f))
  {
    if Selected(f.category) {
      SelectSame(os, (o: Order) => o.category == f.category.value, CategoryTest(f));
    } else {
      SelectAll(os, CategoryTest(f));
    }
  }

  lemma ByRegionSelects(os: seq<Order>, f: Filters)
    ensures ByRegion(os, f) == Select(os, RegionTest(f))
  {
    if Selected(f.region) {
      SelectSame(os, (o: Order) => o.state == f.region.value, RegionTest(f));
    } else {
      SelectAll(os, RegionTest(f));
    }
  }

  /** The successive filters keep exactly the orders that meet every condition in force, in order. */
  lemma FiltersAreConjunction(os: seq<Order>, f: Filters)
    ensures ApplyFilters(os, f) == Select(os, MatchTest(f))
  {
    DateThenCategory(os, f);
    var byCategory := ByCategory(ByDate(os, f), f);
    ByRegionSelects(byCategory, f);
    SelectTwice(os, DateAndCategoryTest(f), RegionTest(f), MatchTest(f));
  }

  lemma DateThenCategory(os: seq<Order>, f: Filters)
    ensures ByCategory(ByDate(os, f), f) == Select(os, DateAndCategoryTest(f))
  {
    ByDateSelects(os, f);
    ByCategorySelects(ByDate(os, f), f);
    SelectTwice(os, DateTest(f), CategoryTest(f), DateAndCategoryTest(f));
  }

  // ---------------------------------------------------------------------
  // Summary cards
  // ---------------------------------------------------------------------

  datatype Summary = Summary(
    totalSales: real,
    totalTransactions: nat,
    avgOrderValue: real,
    salesTrend: int,
    transactionsTrend: int,
    aovTrend: int)

  /** `Math.round`: the nearest integer, halves rounded up. */
  function Round(x: real): (r: int)
    ensures r as real <= x + 0.5 < r as real + 1.0
  {
    (x + 0.5).Floor
  }

  /** `(after - before) / before * 100`, the change in percent. */
  function PercentChange(before: real, after: real): (p: real)
    requires before > 0.0
    ensures after > before ==> p > 0.0
    ensures after == before ==> p == 0.0
    ensures after < before ==> p < 0.0
  {
    (after - before) / before * 100.0
  }

  /** A trend card: the rounded change in percent, 0 when there is nothing to compare with. */
  function Trend(before: real, after: real): int {
    if before > 0.0 then Round(PercentChange(before, after)) else 0
  }

  /** A trend has the sign of the change; a flat or baseless one is 0. */
  lemma TrendSign(before: real, after: real)
    ensures before <= 0.0 ==> Trend(before, after) == 0
    ensures before > 0.0 && after == before ==> Trend(before, after) == 0
    ensures before > 0.0 && after > before ==> Trend(before, after) >= 0
    ensures before > 0.0 && after < before ==> Trend(before, after) <= 0
  {
  }

  /** The first half of the days, `metrics.slice(0, midpoint)`. */
  function FirstHalf(ms: seq<DailyMetric>): seq<DailyMetric> {
    ms[..|ms| / 2]
  }

  /** The second half, the larger one for an odd count: `metrics.slice(midpoint)`. */
  function SecondHalf(ms: seq<DailyMetric>): seq<DailyMetric> {
    ms[|ms| / 2..]
  }

  /** Every daily metric counts at least one order, as `calculateDailyMetrics` guarantees. */
  predicate CountsPositive(ms: seq<DailyMetric>) {
    forall i :: 0 <= i < |ms| ==> ms[i].transactionCount > 0
  }

  /**
   * `calculateSummary`: totals over all days and their ratio, and for each of
   * sales, transactions and average order value the trend from the first
   * half of the days to the second; the halves' averages are computed from
   * the halves' totals.
   */
  function Summarize(ms: seq<DailyMetric>): (s: Summary)
    requires CountsPositive(ms)
    ensures |ms| == 0 ==> s == Summary(0.0, 0, 0.0, 0, 0, 0)
    ensures s.totalSales == DailySales(ms) && s.totalTransactions == DailyTransactions(ms)
    ensures s.totalTransactions >= |ms|
    ensures s.avgOrderValue == AverageOf(s.totalSales, s.totalTransactions)
  {
    if |ms| == 0 then Summary(0.0, 0, 0.0, 0, 0, 0)
    else
      var first, second := FirstHalf(ms), SecondHalf(ms);
      var total := DailySales(ms);
      var count := DailyTransactions(ms);
      AtLeastOnePerDay(ms);
      Summary(
        total,
        count,
        AverageOf(total, count),
        Trend(DailySales(first), DailySales(second)),
        Trend(DailyTransactions(first) as real, DailyTransactions(second) as real),
        Trend(AverageOf(DailySales(first), DailyTransactions(first)),
              AverageOf(DailySales(second), DailyTransactions(second))))
  }

  lemma {:induction false} AtLeastOnePerDay(ms: seq<DailyMetric>)
    requires CountsPositive(ms)
    ensures DailyTransactions(ms) >= |ms|
  {
    if |ms| > 0 {
      AtLeastOnePerDay(ms[..|ms| - 1]);
    }
  }

  lemma {:induction false} DailySumsSplit(a: seq<DailyMetric>, b: seq<DailyMetric>)
    ensures DailySales(a + b) == DailySales(a) + DailySales(b)
    ensures DailyTransactions(a + b) == DailyTransactions(a) + DailyTransactions(b)
    decreases |b|
  {
    if |b| > 0 {
      assert (a + b)[..|a + b| - 1] == a + b[..|b| - 1];
      DailySumsSplit(a, b[..|b| - 1]);
    } else {
      assert a + b == a;
    }
  }

  /** The two halves split the days: together they are all of them, and their totals add up. */
  lemma HalvesPartition(ms: seq<DailyMetric>)
    ensures FirstHalf(ms) + SecondHalf(ms) == ms
    ensures |SecondHalf(ms)| - |FirstHalf(ms)| in {0, 1}
    ensures DailySales(FirstHalf(ms)) + DailySales(SecondHalf(ms)) == DailySales(ms)
    ensures DailyTransactions(FirstHalf(ms)) + DailyTransactions(SecondHalf(ms)) == DailyTransactions(ms)
  {
    DailySumsSplit(FirstHalf(ms), SecondHalf(ms));
    assert FirstHalf(ms) + SecondHalf(ms) == ms;
  }

  /** A single day has an empty first half, so no trend is shown. */
  lemma SingleDayNoTrend(m: DailyMetric)
    requires m.transactionCount > 0
    ensures Summarize([m]).salesTrend == 0
    ensures Summarize([m]).transactionsTrend == 0
    ensures Summarize([m]).aovTrend == 0
  {
    assert FirstHalf([m]) == [];
  }

  /** Days that all share one average order value show no average-order-value trend. */
  lemma SteadyAverageNoTrend(ms: seq<DailyMetric>, aov: real)
    requires CountsPositive(ms)
    requires forall i :: 0 <= i < |ms| ==> ms[i].totalSales == aov * ms[i].transactionCount as real
    ensures Summarize(ms).aovTrend == 0
  {
    if |ms| > 0 {
      SummaryAovTrend(ms);
      SteadyHalfAverages(ms, aov);
      TrendSign(aov, aov);
      TrendSign(0.0, aov);
    }
  }

  /** Steady days: the second half averages `aov`, and so does the first unless it is empty. */
  lemma SteadyHalfAverages(ms: seq<DailyMetric>, aov: real)
    requires |ms| > 0 && CountsPositive(ms)
    requires forall i :: 0 <= i < |ms| ==> ms[i].totalSales == aov * ms[i].transactionCount as real
    ensures AverageOf(DailySales(SecondHalf(ms)), DailyTransactions(SecondHalf(ms))) == aov
    ensures AverageOf(DailySales(FirstHalf(ms)), DailyTransactions(FirstHalf(ms)))
         == if |FirstHalf(ms)| > 0 then aov else 0.0
  {
    var first := FirstHalf(ms);
    SteadyHalves(ms, aov);
    HalfAverage(SecondHalf(ms), aov);
    if |first| > 0 {
      HalfAverage(first, aov);
    } else {
      assert first == [];
    }
  }

  /** The average-order-value trend compares the averages of the two halves. */
  lemma SummaryAovTrend(ms: seq<DailyMetric>)
    requires |ms| > 0 && CountsPositive(ms)
    ensures Summarize(ms).aovTrend
         == Trend(AverageOf(DailySales(FirstHalf(ms)), DailyTransactions(FirstHalf(ms))),
                  AverageOf(DailySales(SecondHalf(ms)), DailyTransactions(SecondHalf(ms))))
  {
  }

  /** The sales trend compares the second half's sales with the first half's. */
  lemma SummarySalesTrend(ms: seq<DailyMetric>)
    requires CountsPositive(ms)
    ensures Summarize(ms).salesTrend == Trend(DailySales(FirstHalf(ms)), DailySales(SecondHalf(ms)))
  {
  }

  /** The transactions trend compares the second half's order count with the first half's. */
  lemma SummaryTransactionsTrend(ms: seq<DailyMetric>)
    requires CountsPositive(ms)
    ensures Summarize(ms).transactionsTrend
         == Trend(DailyTransactions(FirstHalf(ms)) as real, DailyTransactions(SecondHalf(ms)) as real)
  {
  }

  /**
   * The sales trend card: 0 when the first half sold nothing, and otherwise
   * the sign of the second half's sales minus the first half's, where the
   * two halves' sales add up to the total.
   */
  lemma SalesTrendSign(ms: seq<DailyMetric>)
    requires CountsPositive(ms)
    ensures var first, second := DailySales(FirstHalf(ms)), DailySales(SecondHalf(ms));
            && first + second == DailySales(ms)
            && (first <= 0.0 ==> Summarize(ms).salesTrend == 0)
            && (first > 0.0 && second == first ==> Summarize(ms).salesTrend == 0)
            && (first > 0.0 && second > first ==> Summarize(ms).salesTrend >= 0)
            && (first > 0.0 && second < first ==> Summarize(ms).salesTrend <= 0)
  {
    SummarySalesTrend(ms);
    HalvesPartition(ms);
    TrendSign(DailySales(FirstHalf(ms)), DailySales(SecondHalf(ms)));
  }

  /**
   * The transactions trend card: with fewer than two days the first half is
   * empty and the trend is 0; otherwise it has the sign of the second half's
   * order count minus the first half's.
   */
  lemma TransactionsTrendSign(ms: seq<DailyMetric>)
    requires CountsPositive(ms)
    ensures var first, second := DailyTransactions(FirstHalf(ms)), DailyTransactions(SecondHalf(ms));
            && first + second == DailyTransactions(ms)
            && (first > 0 <==> |ms| >= 2)
            && (|ms| < 2 ==> Summarize(ms).transactionsTrend == 0)
            && (|ms| >= 2 && second == first ==> Summarize(ms).transactionsTrend == 0)
            && (|ms| >= 2 && second > first ==> Summarize(ms).transactionsTrend >= 0)
            && (|ms| >= 2 && second < first ==> Summarize(ms).transactionsTrend <= 0)
  {
    var first := FirstHalf(ms);
    SummaryTransactionsTrend(ms);
    HalvesPartition(ms);
    HalvesCountOrders(ms);
    AtLeastOnePerDay(first);
    if |first| == 0 {
      assert first == [];
    }
    TrendSign(DailyTransactions(first) as real, DailyTransactions(SecondHalf(ms)) as real);
  }

  /** Every day of the first half counts an order, as every day of `ms` does. */
  lemma HalvesCountOrders(ms: seq<DailyMetric>)
    requires CountsPositive(ms)
    ensures CountsPositive(FirstHalf(ms))
  {
  }

  /** Both halves of steady days are steady, and count orders on every day. */
  lemma SteadyHalves(ms: seq<DailyMetric>, aov: real)
    requires CountsPositive(ms)
    requires forall i :: 0 <= i < |ms| ==> ms[i].totalSales == aov * ms[i].transactionCount as real
    ensures CountsPositive(FirstHalf(ms)) && CountsPositive(SecondHalf(ms))
    ensures forall i :: 0 <= i < |FirstHalf(ms)| ==>
              FirstHalf(ms)[i].totalSales == aov * FirstHalf(ms)[i].transactionCount as real
    ensures forall i :: 0 <= i < |SecondHalf(ms)| ==>
              SecondHalf(ms)[i].totalSales == aov * SecondHalf(ms)[i].transactionCount as real
  {
    var h := |ms| / 2;
    forall i | 0 <= i < |SecondHalf(ms)|
      ensures SecondHalf(ms)[i].transactionCount > 0
      ensures SecondHalf(ms)[i].totalSales == aov * SecondHalf(ms)[i].transactionCount as real
    {
      assert SecondHalf(ms)[i] == ms[h + i];
    }
  }

  /** A non-empty run of days with one average order value has that average overall. */
  lemma {:induction false} HalfAverage(ms: seq<DailyMetric>, aov: real)
    requires |ms| > 0 && CountsPositive(ms)
    requires forall i :: 0 <= i < |ms| ==> ms[i].totalSales == aov * ms[i].transactionCount as real
    ensures AverageOf(DailySales(ms), DailyTransactions(ms)) == aov
  {
    var count := DailyTransactions(ms);
    SalesFollowCounts(ms, aov);
    AtLeastOnePerDay(ms);
    AverageOfMultiple(aov, count);
    assert DailySales(ms) == aov * count as real;
  }

  lemma {:induction false} SalesFollowCounts(ms: seq<DailyMetric>, aov: real)
    requires forall i :: 0 <= i < |ms| ==> ms[i].totalSales == aov * ms[i].transactionCount as real
    ensures DailySales(ms) == aov * DailyTransactions(ms) as real
  {
    if |ms| > 0 {
      var front := ms[..|ms| - 1];
      SalesFollowCounts(front, aov);
      var c := DailyTransactions(front) as real;
      var d := ms[|ms| - 1].transactionCount as real;
      assert aov * c + aov * d == aov * (c + d);
    }
  }

  lemma AverageOfMultiple(aov: real, count: nat)
    requires count > 0
    ensures AverageOf(aov * count as real, count) == aov
  {
  }

  /** The uploads `handleDataLoaded` accepts: a header of ten or more cells and a data row of two or more. */
  predicate AcceptedUpload(csvRows: seq<seq<string>>) {
    && |csvRows| > 0 && |csvRows[0]| >= 10
    && exists i :: 1 <= i < |csvRows| && |csvRows[i]| >= 2
  }

  /**
   * End to end: the summary of the metrics `handleDataLoaded` itself stores
   * counts every loaded order once and adds up every amount, since each
   * adapted order has a valid date. The date filter's effect later replaces
   * those metrics with the filtered ones.
   */
  lemma SummaryOfLoadedOrders(csvRows: seq<seq<string>>, parsers: DateParsers, now: ValidDate)
    requires AcceptedUpload(csvRows)
    ensures LoadOrders(csvRows, parsers, now).Success?
    ensures CountsPositive(DailyMetrics(LoadOrders(csvRows, parsers, now).value))
    ensures Summarize(DailyMetrics(LoadOrders(csvRows, parsers, now).value)).totalTransactions
            == |LoadOrders(csvRows, parsers, now).value|
    ensures Summarize(DailyMetrics(LoadOrders(csvRows, parsers, now).value)).totalSales
            == TotalAmount(LoadOrders(csvRows, parsers, now).value)
  {
    LoadedOrdersDated(csvRows, parsers, now);
    SummaryOfDatedOrders(LoadOrders(csvRows, parsers, now).value);
  }

  /** Orders that all have valid dates are all counted by the summary, with all their amounts. */
  lemma SummaryOfDatedOrders(os: seq<Order>)
    requires forall i :: 0 <= i < |os| ==> DayKey(os[i]).Some?
    ensures CountsPositive(DailyMetrics(os))
    ensures Summarize(DailyMetrics(os)).totalTransactions == |os|
    ensures Summarize(DailyMetrics(os)).totalSales == TotalAmount(os)
  {
    EveryOrderKeyed(os, DayKey);
    var ms := DailyMetrics(os);
    assert CountsPositive(ms);
  }

  /** Every loaded order has a valid date. */
  lemma LoadedOrdersDated(csvRows: seq<seq<string>>, parsers: DateParsers, now: ValidDate)
    requires AcceptedUpload(csvRows)
    ensures LoadOrders(csvRows, parsers, now).Success?
    ensures forall i :: 0 <= i < |LoadOrders(csvRows, parsers, now).value| ==>
              DayKey(LoadOrders(csvRows, parsers, now).value[i]).Some?
  {
    var os := LoadOrders(csvRows, parsers, now).value;
    AdaptedHaveDates(csvRows[1..], parsers, now);
    forall i | 0 <= i < |os| ensures DayKey(os[i]).Some? {
      assert os[i] in os;
    }
  }

  lemma AdaptedHaveDates(rows: seq<seq<string>>, parsers: DateParsers, now: ValidDate)
    ensures forall o :: o in AdaptRows(rows, parsers, now) ==> DayKey(o).Some?
  {
    forall o | o in AdaptRows(rows, parsers, now) ensures DayKey(o).Some? {
      var rs := Adapted(rows, parsers, now);
      var i :| 0 <= i < |rs| && rs[i] == Some(o);
    }
  }
}
