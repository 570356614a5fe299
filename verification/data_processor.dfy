/**
 * The aggregators of `utils/data-processor.ts` and its own CSV loader.
 * Each aggregator groups orders by a key with running totals (see
 * `Grouping`) and sorts the groups; the metrics are those groups with the
 * key named after what it is and, for days and months, the average order
 * value added.
 */
module DataProcessor {
  import opened Wrappers
  import opened Text
  import opened JsNumber
  import opened Calendar
  import opened Orders
  import opened Grouping

  datatype DailyMetric = DailyMetric(date: ValidDate, totalSales: real, transactionCount: nat, averageOrderValue: real)

  datatype MonthlyMetric = MonthlyMetric(month: Month, totalSales: real, transactionCount: nat, averageOrderValue: real)

  datatype CategoryMetric = CategoryMetric(category: string, totalSales: real, transactionCount: nat)

  datatype RegionMetric = RegionMetric(region: string, totalSales: real, transactionCount: nat)

  /** `count > 0 ? sales / count : 0`. */
  function AverageOf(sales: real, count: nat): (a: real)
    ensures count > 0 ==> a * count as real == sales
    ensures count == 0 ==> a == 0.0
  {
    if count > 0 then sales / count as real else 0.0
  }

  // ---------------------------------------------------------------------
  // Grouping keys and sort ranks
  // ---------------------------------------------------------------------

  /** The day of an order; orders with an invalid date are skipped. */
  function DayKey(o: Order): Option<ValidDate> {
    o.date
  }

  /** The month of an order; orders with an invalid date are skipped. */
  function MonthKey(o: Order): Option<Month> {
    match o.date
    case None => None
    case Some(d) => Some(MonthOf(d))
  }

  /** `order.category || "Uncategorized"`: never empty, and the category itself when it has one. */
  function CategoryName(o: Order): (c: string)
    ensures c != ""
    ensures o.category != "" ==> c == o.category
  {
    if o.category == "" then "Uncategorized" else o.category
  }

  /** `order.state || "Unknown"`: never empty, and the state itself when it has one. */
  function RegionName(o: Order): (s: string)
    ensures s != ""
    ensures o.state != "" ==> s == o.state
  {
    if o.state == "" then "Unknown" else o.state
  }

  /** Every order has a category. */
  function CategoryKey(o: Order): Option<string> {
    Some(CategoryName(o))
  }

  /** Every order has a region. */
  function RegionKey(o: Order): Option<string> {
    Some(RegionName(o))
  }

  /** Sort key of the daily report: `date.getTime()`, ascending. */
  function DayOrder(g: Group<ValidDate>): real {
    DayRank(g.key) as real
  }

  /** Sort key of the monthly report: the first day of the month, ascending. */
  function MonthOrder(g: Group<Month>): real {
    MonthRank(g.key) as real
  }

  /** Sort key of the category and region reports: comparator `b.totalSales - a.totalSales`. */
  function SalesDescending(g: Group<string>): real {
    -g.totalSales
  }

  // ---------------------------------------------------------------------
  // Totals over reports
  // ---------------------------------------------------------------------

  function DailySales(ms: seq<DailyMetric>): real {
    if |ms| == 0 then 0.0 else DailySales(ms[..|ms| - 1]) + ms[|ms| - 1].totalSales
  }

  function DailyTransactions(ms: seq<DailyMetric>): nat {
    if |ms| == 0 then 0 else DailyTransactions(ms[..|ms| - 1]) + ms[|ms| - 1].transactionCount
  }

  function MonthlySales(ms: seq<MonthlyMetric>): real {
    if |ms| == 0 then 0.0 else MonthlySales(ms[..|ms| - 1]) + ms[|ms| - 1].totalSales
  }

  function MonthlyTransactions(ms: seq<MonthlyMetric>): nat {
    if |ms| == 0 then 0 else MonthlyTransactions(ms[..|ms| - 1]) + ms[|ms| - 1].transactionCount
  }

  function Dates(ms: seq<DailyMetric>): (ds: seq<ValidDate>)
    ensures |ds| == |ms| && forall i :: 0 <= i < |ms| ==> ds[i] == ms[i].date
  {
    seq(|ms|, i requires 0 <= i < |ms| => ms[i].date)
  }

  function Months(ms: seq<MonthlyMetric>): (mo: seq<Month>)
    ensures |mo| == |ms| && forall i :: 0 <= i < |ms| ==> mo[i] == ms[i].month
  {
    seq(|ms|, i requires 0 <= i < |ms| => ms[i].month)
  }

  function Categories(ms: seq<CategoryMetric>): (cs: seq<string>)
    ensures |cs| == |ms| && forall i :: 0 <= i < |ms| ==> cs[i] == ms[i].category
  {
    seq(|ms|, i requires 0 <= i < |ms| => ms[i].category)
  }

  function Regions(ms: seq<RegionMetric>): (rs: seq<string>)
    ensures |rs| == |ms| && forall i :: 0 <= i < |ms| ==> rs[i] == ms[i].region
  {
    seq(|ms|, i requires 0 <= i < |ms| => ms[i].region)
  }

  function CategoryTransactions(ms: seq<CategoryMetric>): nat {
    if |ms| == 0 then 0 else CategoryTransactions(ms[..|ms| - 1]) + ms[|ms| - 1].transactionCount
  }

  function RegionTransactions(ms: seq<RegionMetric>): nat {
    if |ms| == 0 then 0 else RegionTransactions(ms[..|ms| - 1]) + ms[|ms| - 1].transactionCount
  }

  function CategorySales(ms: seq<CategoryMetric>): real {
    if |ms| == 0 then 0.0 else CategorySales(ms[..|ms| - 1]) + ms[|ms| - 1].totalSales
  }

  function RegionSales(ms: seq<RegionMetric>): real {
    if |ms| == 0 then 0.0 else RegionSales(ms[..|ms| - 1]) + ms[|ms| - 1].totalSales
  }

  /** Sum of every order's amount, NaN counted as zero. */
  function TotalAmount(orders: seq<Order>): real {
    if |orders| == 0 then 0.0 else TotalAmount(orders[..|orders| - 1]) + AmountOf(orders[|orders| - 1])
  }

  // ---------------------------------------------------------------------
  // Daily
  // ---------------------------------------------------------------------

  function ToDaily(g: Group<ValidDate>): DailyMetric {
    DailyMetric(g.key, g.totalSales, g.count, AverageOf(g.totalSales, g.count))
  }

  function DailyOf(gs: seq<Group<ValidDate>>): (ms: seq<DailyMetric>)
    ensures |ms| == |gs| && forall i :: 0 <= i < |gs| ==> ms[i] == ToDaily(gs[i])
  {
    seq(|gs|, i requires 0 <= i < |gs| => ToDaily(gs[i]))
  }

  /**
   * `calculateDailyMetrics`: one metric per day on which some order has a
   * valid date, in chronological order, carrying that day's sales, its
   * number of orders and their ratio; orders with invalid dates are skipped
   * and every other order is counted exactly once.
   */
  function DailyMetrics(orders: seq<Order>): (r: seq<DailyMetric>)
    ensures forall i, j :: 0 <= i < j < |r| ==> Before(r[i].date, r[j].date)
    ensures forall i :: 0 <= i < |r| ==> r[i].totalSales == SalesOf(orders, DayKey, AmountOf, r[i].date)
    ensures forall i :: 0 <= i < |r| ==> r[i].transactionCount == CountOf(orders, DayKey, r[i].date) > 0
    ensures forall i :: 0 <= i < |r| ==>
              r[i].averageOrderValue == AverageOf(r[i].totalSales, r[i].transactionCount)
    ensures forall d :: d in Dates(r) <==> exists i :: 0 <= i < |orders| && orders[i].date == Some(d)
    ensures DailyTransactions(r) == KeyedCount(orders, DayKey)
    ensures DailySales(r) == KeyedSales(orders, DayKey, AmountOf)
  {
    var gs := GroupAndSort(orders, DayKey, AmountOf, DayOrder);
    DaysAscend(orders, gs);
    DailyValues(orders, gs);
    DailyFacts(orders, gs);
    DailyTotals(gs);
    DailyOf(gs)
  }

  /** Each daily metric carries its group's day, sales, order count and their ratio. */
  lemma DailyValues(orders: seq<Order>, gs: seq<Group<ValidDate>>)
    requires forall i, j :: 0 <= i < j < |gs| ==> Before(gs[i].key, gs[j].key)
    requires forall i :: 0 <= i < |gs| ==> gs[i].totalSales == SalesOf(orders, DayKey, AmountOf, gs[i].key)
    requires forall i :: 0 <= i < |gs| ==> gs[i].count == CountOf(orders, DayKey, gs[i].key) > 0
    ensures var r := DailyOf(gs);
            forall i, j :: 0 <= i < j < |r| ==> Before(r[i].date, r[j].date)
    ensures var r := DailyOf(gs);
            forall i :: 0 <= i < |r| ==> r[i].totalSales == SalesOf(orders, DayKey, AmountOf, r[i].date)
    ensures var r := DailyOf(gs);
            forall i :: 0 <= i < |r| ==> r[i].transactionCount == CountOf(orders, DayKey, r[i].date) > 0
    ensures var r := DailyOf(gs);
            forall i :: 0 <= i < |r| ==> r[i].averageOrderValue == AverageOf(r[i].totalSales, r[i].transactionCount)
  {
  }

  /** The days of the metrics are exactly the days on which some order falls. */
  lemma DailyFacts(orders: seq<Order>, gs: seq<Group<ValidDate>>)
    requires forall k :: k in Keys(gs) <==> CountOf(orders, DayKey, k) > 0
    ensures forall d :: d in Dates(DailyOf(gs)) <==> exists i :: 0 <= i < |orders| && orders[i].date == Some(d)
  {
    assert Dates(DailyOf(gs)) == Keys(gs);
    DayCoverage(orders);
  }

  /** Stable order by timestamp leaves no two groups on one day, so days strictly ascend. */
  lemma DaysAscend(orders: seq<Order>, gs: seq<Group<ValidDate>>)
    requires forall i, j :: 0 <= i < j < |gs| ==>
               DayOrder(gs[i]) < DayOrder(gs[j])
               || (DayOrder(gs[i]) == DayOrder(gs[j])
                   && FirstIndex(orders, DayKey, gs[i].key) < FirstIndex(orders, DayKey, gs[j].key))
    ensures forall i, j :: 0 <= i < j < |gs| ==> Before(gs[i].key, gs[j].key)
  {
    forall i, j | 0 <= i < j < |gs| ensures Before(gs[i].key, gs[j].key) {
      RankOrder(gs[i].key, gs[j].key);
    }
  }

  lemma DayCoverage(orders: seq<Order>)
    ensures forall d :: CountOf(orders, DayKey, d) > 0 <==> exists i :: 0 <= i < |orders| && orders[i].date == Some(d)
  {
    forall d ensures CountOf(orders, DayKey, d) > 0 <==> exists i :: 0 <= i < |orders| && orders[i].date == Some(d) {
      if exists i :: 0 <= i < |orders| && orders[i].date == Some(d) {
        var i :| 0 <= i < |orders| && orders[i].date == Some(d);
        assert DayKey(orders[i]) == Some(d);
      }
    }
  }

  lemma {:induction false} DailyTotals(gs: seq<Group<ValidDate>>)
    ensures DailyTransactions(DailyOf(gs)) == SumCounts(gs)
    ensures DailySales(DailyOf(gs)) == SumSales(gs)
  {
    if |gs| > 0 {
      var ms := DailyOf(gs);
      assert ms[..|ms| - 1] == DailyOf(gs[..|gs| - 1]);
      DailyTotals(gs[..|gs| - 1]);
    }
  }

  /** Orders that all fall on one day make a single metric holding all of them. */
  lemma {:induction false} SingleDay(orders: seq<Order>, d: ValidDate)
    requires |orders| > 0
    requires forall i :: 0 <= i < |orders| ==> orders[i].date == Some(d)
    ensures DailyMetrics(orders)
            == [DailyMetric(d, TotalAmount(orders), |orders|, AverageOf(TotalAmount(orders), |orders|))]
  {
    var r := DailyMetrics(orders);
    assert Dates(r) != [] by {
      assert orders[0].date == Some(d);
    }
    OnlyDay(orders, r, d);
    OneKey(orders, d);
    assert r == [r[0]];
  }

  lemma OnlyDay(orders: seq<Order>, r: seq<DailyMetric>, d: ValidDate)
    requires forall i :: 0 <= i < |orders| ==> orders[i].date == Some(d)
    requires forall e :: e in Dates(r) <==> exists i :: 0 <= i < |orders| && orders[i].date == Some(e)
    ensures forall i :: 0 <= i < |r| ==> r[i].date == d
  {
    forall i | 0 <= i < |r| ensures r[i].date == d {
      assert Dates(r)[i] == r[i].date;
      var k :| 0 <= k < |orders| && orders[k].date == Some(r[i].date);
    }
  }

  /** When every order is on day `d`, that day's sales and count are all of them. */
  lemma {:induction false} OneKey(orders: seq<Order>, d: ValidDate)
    requires forall i :: 0 <= i < |orders| ==> orders[i].date == Some(d)
    ensures SalesOf(orders, DayKey, AmountOf, d) == TotalAmount(orders)
    ensures CountOf(orders, DayKey, d) == |orders|
  {
    if |orders| > 0 {
      var front := orders[..|orders| - 1];
      assert forall i :: 0 <= i < |front| ==> front[i] == orders[i];
      OneKey(front, d);
    }
  }

  /**
   * Two orders of the same day, of 406 and 329, make a single daily metric
   * of 735 from 2 transactions with an average of 367.5.
   */
  lemma DailyExample(a: Order, b: Order, d: ValidDate)
    requires a.date == Some(d) && b.date == Some(d)
    requires a.amount == Num(406.0) && b.amount == Num(329.0)
    ensures DailyMetrics([a, b]) == [DailyMetric(d, 735.0, 2, 367.5)]
  {
    SingleDay([a, b], d);
    PairTotal(a, b);
  }

  /** The two amounts of the example add up to 735. */
  lemma PairTotal(a: Order, b: Order)
    requires a.amount == Num(406.0) && b.amount == Num(329.0)
    ensures TotalAmount([a, b]) == 735.0
  {
    assert [a][..0] == [];
    assert TotalAmount([a]) == 406.0;
    assert [a, b][..1] == [a];
  }

  // ---------------------------------------------------------------------
  // Monthly
  // ---------------------------------------------------------------------

  function ToMonthly(g: Group<Month>): MonthlyMetric {
    MonthlyMetric(g.key, g.totalSales, g.count, AverageOf(g.totalSales, g.count))
  }

  function MonthlyOf(gs: seq<Group<Month>>): (ms: seq<MonthlyMetric>)
    ensures |ms| == |gs| && forall i :: 0 <= i < |gs| ==> ms[i] == ToMonthly(gs[i])
  {
    seq(|gs|, i requires 0 <= i < |gs| => ToMonthly(gs[i]))
  }

  /**
   * `calculateMonthlyMetrics`: one metric per calendar month in which some
   * order has a valid date, months in chronological order, with that month's
   * sales, number of orders and their ratio.
   */
  function MonthlyMetrics(orders: seq<Order>): (r: seq<MonthlyMetric>)
    ensures forall i, j :: 0 <= i < j < |r| ==>
              Before(Date(r[i].month.year, r[i].month.month, 1), Date(r[j].month.year, r[j].month.month, 1))
    ensures forall i :: 0 <= i < |r| ==> r[i].totalSales == SalesOf(orders, MonthKey, AmountOf, r[i].month)
    ensures forall i :: 0 <= i < |r| ==> r[i].transactionCount == CountOf(orders, MonthKey, r[i].month) > 0
    ensures forall i :: 0 <= i < |r| ==>
              r[i].averageOrderValue == AverageOf(r[i].totalSales, r[i].transactionCount)
    ensures forall m :: m in Months(r) <==>
              exists i :: 0 <= i < |orders| && orders[i].date.Some? && MonthOf(orders[i].date.value) == m
    ensures MonthlyTransactions(r) == KeyedCount(orders, MonthKey)
    ensures MonthlySales(r) == KeyedSales(orders, MonthKey, AmountOf)
  {
    var gs := GroupAndSort(orders, MonthKey, AmountOf, MonthOrder);
    MonthsAscend(orders, gs);
    MonthlyValues(orders, gs);
    MonthlyFacts(orders, gs);
    MonthlyTotals(gs);
    MonthlyOf(gs)
  }

  lemma {:induction false} MonthlyTotals(gs: seq<Group<Month>>)
    ensures MonthlyTransactions(MonthlyOf(gs)) == SumCounts(gs)
    ensures MonthlySales(MonthlyOf(gs)) == SumSales(gs)
  {
    if |gs| > 0 {
      var ms := MonthlyOf(gs);
      assert ms[..|ms| - 1] == MonthlyOf(gs[..|gs| - 1]);
      MonthlyTotals(gs[..|gs| - 1]);
    }
  }

  /**
   * The monthly report conserves what the daily report does: both count
   * every order with a valid date once and add up exactly their amounts.
   */
  lemma {:induction false} MonthlyMatchesDaily(orders: seq<Order>)
    ensures MonthlyTransactions(MonthlyMetrics(orders)) == DailyTransactions(DailyMetrics(orders))
    ensures MonthlySales(MonthlyMetrics(orders)) == DailySales(DailyMetrics(orders))
  {
    SameKeyedOrders(orders);
  }

  /** An order has a month key exactly when it has a day key. */
  lemma {:induction false} SameKeyedOrders(orders: seq<Order>)
    ensures KeyedCount(orders, MonthKey) == KeyedCount(orders, DayKey)
    ensures KeyedSales(orders, MonthKey, AmountOf) == KeyedSales(orders, DayKey, AmountOf)
  {
    if |orders| > 0 {
      SameKeyedOrders(orders[..|orders| - 1]);
    }
  }

  /** Each monthly metric carries its group's month, sales, order count and their ratio. */
  lemma MonthlyValues(orders: seq<Order>, gs: seq<Group<Month>>)
    requires forall i, j :: 0 <= i < j < |gs| ==>
               Before(Date(gs[i].key.year, gs[i].key.month, 1), Date(gs[j].key.year, gs[j].key.month, 1))
    requires forall i :: 0 <= i < |gs| ==> gs[i].totalSales == SalesOf(orders, MonthKey, AmountOf, gs[i].key)
    requires forall i :: 0 <= i < |gs| ==> gs[i].count == CountOf(orders, MonthKey, gs[i].key) > 0
    ensures var r := MonthlyOf(gs);
            forall i, j :: 0 <= i < j < |r| ==>
              Before(Date(r[i].month.year, r[i].month.month, 1), Date(r[j].month.year, r[j].month.month, 1))
    ensures var r := MonthlyOf(gs);
            forall i :: 0 <= i < |r| ==> r[i].totalSales == SalesOf(orders, MonthKey, AmountOf, r[i].month)
    ensures var r := MonthlyOf(gs);
            forall i :: 0 <= i < |r| ==> r[i].transactionCount == CountOf(orders, MonthKey, r[i].month) > 0
    ensures var r := MonthlyOf(gs);
            forall i :: 0 <= i < |r| ==> r[i].averageOrderValue == AverageOf(r[i].totalSales, r[i].transactionCount)
  {
  }

  /** The months of the metrics are exactly the months in which some order falls. */
  lemma MonthlyFacts(orders: seq<Order>, gs: seq<Group<Month>>)
    requires forall k :: k in Keys(gs) <==> CountOf(orders, MonthKey, k) > 0
    ensures forall m :: m in Months(MonthlyOf(gs)) <==>
              exists i :: 0 <= i < |orders| && orders[i].date.Some? && MonthOf(orders[i].date.value) == m
  {
    assert Months(MonthlyOf(gs)) == Keys(gs);
    MonthCoverage(orders);
  }

  /** Every month key comes from a valid date, so month ranks order the groups chronologically. */
  lemma MonthsAscend(orders: seq<Order>, gs: seq<Group<Month>>)
    requires forall i :: 0 <= i < |gs| ==> CountOf(orders, MonthKey, gs[i].key) > 0
    requires forall i, j :: 0 <= i < j < |gs| ==>
               MonthOrder(gs[i]) < MonthOrder(gs[j])
               || (MonthOrder(gs[i]) == MonthOrder(gs[j])
                   && FirstIndex(orders, MonthKey, gs[i].key) < FirstIndex(orders, MonthKey, gs[j].key))
    ensures forall i, j :: 0 <= i < j < |gs| ==>
              Before(Date(gs[i].key.year, gs[i].key.month, 1), Date(gs[j].key.year, gs[j].key.month, 1))
  {
    forall i | 0 <= i < |gs| ensures 1 <= gs[i].key.month <= 12 {
      assert CountOf(orders, MonthKey, gs[i].key) > 0;
      var k :| 0 <= k < |orders| && MonthKey(orders[k]) == Some(gs[i].key);
    }
    forall i, j | 0 <= i < j < |gs|
      ensures Before(Date(gs[i].key.year, gs[i].key.month, 1), Date(gs[j].key.year, gs[j].key.month, 1))
    {
      MonthRankOrder(gs[i].key, gs[j].key);
    }
  }

  lemma MonthCoverage(orders: seq<Order>)
    ensures forall m :: CountOf(orders, MonthKey, m) > 0 <==>
              exists i :: 0 <= i < |orders| && orders[i].date.Some? && MonthOf(orders[i].date.value) == m
  {
    forall m ensures CountOf(orders, MonthKey, m) > 0 <==>
                     exists i :: 0 <= i < |orders| && orders[i].date.Some? && MonthOf(orders[i].date.value) == m
    {
      if CountOf(orders, MonthKey, m) > 0 {
        var i :| 0 <= i < |orders| && MonthKey(orders[i]) == Some(m);
      }
      if exists i :: 0 <= i < |orders| && orders[i].date.Some? && MonthOf(orders[i].date.value) == m {
        var i :| 0 <= i < |orders| && orders[i].date.Some? && MonthOf(orders[i].date.value) == m;
        assert MonthKey(orders[i]) == Some(m);
      }
    }
  }

  // ---------------------------------------------------------------------
  // Categories and regions
  // ---------------------------------------------------------------------

  function CategoryOf(gs: seq<Group<string>>): (ms: seq<CategoryMetric>)
    ensures |ms| == |gs|
    ensures forall i :: 0 <= i < |gs| ==> ms[i] == CategoryMetric(gs[i].key, gs[i].totalSales, gs[i].count)
  {
    seq(|gs|, i requires 0 <= i < |gs| => CategoryMetric(gs[i].key, gs[i].totalSales, gs[i].count))
  }

  function RegionOf(gs: seq<Group<string>>): (ms: seq<RegionMetric>)
    ensures |ms| == |gs|
    ensures forall i :: 0 <= i < |gs| ==> ms[i] == RegionMetric(gs[i].key, gs[i].totalSales, gs[i].count)
  {
    seq(|gs|, i requires 0 <= i < |gs| => RegionMetric(gs[i].key, gs[i].totalSales, gs[i].count))
  }

  /**
   * `calculateCategoryMetrics`: one metric per category, an empty category
   * reported as "Uncategorized"; highest sales first, equal sales in the order
   * their categories first appear; every order counted exactly once.
   */
  function CategoryMetrics(orders: seq<Order>): (r: seq<CategoryMetric>)
    ensures forall i, j :: 0 <= i < j < |r| ==>
              r[i].totalSales > r[j].totalSales
              || (r[i].totalSales == r[j].totalSales
                  && FirstIndex(orders, CategoryKey, r[i].category) < FirstIndex(orders, CategoryKey, r[j].category))
    ensures forall i :: 0 <= i < |r| ==> r[i].totalSales == SalesOf(orders, CategoryKey, AmountOf, r[i].category)
    ensures forall i :: 0 <= i < |r| ==> r[i].transactionCount == CountOf(orders, CategoryKey, r[i].category) > 0
    ensures forall c :: c in Categories(r) <==> exists i :: 0 <= i < |orders| && CategoryName(orders[i]) == c
    ensures "" !in Categories(r)
    ensures CategoryTransactions(r) == |orders|
    ensures CategorySales(r) == TotalAmount(orders)
  {
    var gs := GroupAndSort(orders, CategoryKey, AmountOf, SalesDescending);
    CategoryRanked(orders, gs);
    CategoryValues(orders, gs);
    CategoryFacts(orders, gs);
    CategorySums(orders, gs);
    CategoryOf(gs)
  }

  /** Ascending `-totalSales` ranks the metrics by descending sales, ties in first-appearance order. */
  lemma CategoryRanked(orders: seq<Order>, gs: seq<Group<string>>)
    requires forall i, j :: 0 <= i < j < |gs| ==>
               SalesDescending(gs[i]) < SalesDescending(gs[j])
               || (SalesDescending(gs[i]) == SalesDescending(gs[j])
                   && FirstIndex(orders, CategoryKey, gs[i].key) < FirstIndex(orders, CategoryKey, gs[j].key))
    ensures var r := CategoryOf(gs);
            forall i, j :: 0 <= i < j < |r| ==>
              r[i].totalSales > r[j].totalSales
              || (r[i].totalSales == r[j].totalSales
                  && FirstIndex(orders, CategoryKey, r[i].category) < FirstIndex(orders, CategoryKey, r[j].category))
  {
    SalesDescend(orders, CategoryKey, gs);
  }

  /** Each metric carries its group's sales and order count. */
  lemma CategoryValues(orders: seq<Order>, gs: seq<Group<string>>)
    requires forall i :: 0 <= i < |gs| ==> gs[i].totalSales == SalesOf(orders, CategoryKey, AmountOf, gs[i].key)
    requires forall i :: 0 <= i < |gs| ==> gs[i].count == CountOf(orders, CategoryKey, gs[i].key) > 0
    ensures var r := CategoryOf(gs);
            forall i :: 0 <= i < |r| ==> r[i].totalSales == SalesOf(orders, CategoryKey, AmountOf, r[i].category)
    ensures var r := CategoryOf(gs);
            forall i :: 0 <= i < |r| ==> r[i].transactionCount == CountOf(orders, CategoryKey, r[i].category) > 0
  {
  }

  /** The groups are exactly the categories that occur, and the empty name is not among them. */
  lemma CategoryFacts(orders: seq<Order>, gs: seq<Group<string>>)
    requires forall k :: k in Keys(gs) <==> CountOf(orders, CategoryKey, k) > 0
    ensures forall c :: c in Categories(CategoryOf(gs)) <==> exists i :: 0 <= i < |orders| && CategoryName(orders[i]) == c
    ensures "" !in Categories(CategoryOf(gs))
  {
    assert Categories(CategoryOf(gs)) == Keys(gs);
    CategoryCoverage(orders);
  }

  lemma CategorySums(orders: seq<Order>, gs: seq<Group<string>>)
    requires SumCounts(gs) == KeyedCount(orders, CategoryKey)
    requires SumSales(gs) == KeyedSales(orders, CategoryKey, AmountOf)
    ensures CategoryTransactions(CategoryOf(gs)) == |orders|
    ensures CategorySales(CategoryOf(gs)) == TotalAmount(orders)
  {
    CategoryTotals(gs);
    EveryOrderKeyed(orders, CategoryKey);
  }

  /** Ascending `-totalSales` is descending sales. */
  lemma SalesDescend(orders: seq<Order>, keyOf: Order -> Option<string>, gs: seq<Group<string>>)
    requires forall i, j :: 0 <= i < j < |gs| ==>
               SalesDescending(gs[i]) < SalesDescending(gs[j])
               || (SalesDescending(gs[i]) == SalesDescending(gs[j])
                   && FirstIndex(orders, keyOf, gs[i].key) < FirstIndex(orders, keyOf, gs[j].key))
    ensures forall i, j :: 0 <= i < j < |gs| ==>
              gs[i].totalSales > gs[j].totalSales
              || (gs[i].totalSales == gs[j].totalSales
                  && FirstIndex(orders, keyOf, gs[i].key) < FirstIndex(orders, keyOf, gs[j].key))
  {
  }

  lemma CategoryCoverage(orders: seq<Order>)
    ensures forall c :: CountOf(orders, CategoryKey, c) > 0 <==> exists i :: 0 <= i < |orders| && CategoryName(orders[i]) == c
    ensures CountOf(orders, CategoryKey, "") == 0
  {
    forall c ensures CountOf(orders, CategoryKey, c) > 0 <==> exists i :: 0 <= i < |orders| && CategoryName(orders[i]) == c {
      if exists i :: 0 <= i < |orders| && CategoryName(orders[i]) == c {
        var i :| 0 <= i < |orders| && CategoryName(orders[i]) == c;
        assert CategoryKey(orders[i]) == Some(c);
      }
    }
  }

  lemma {:induction false} CategoryTotals(gs: seq<Group<string>>)
    ensures CategoryTransactions(CategoryOf(gs)) == SumCounts(gs)
    ensures CategorySales(CategoryOf(gs)) == SumSales(gs)
  {
    if |gs| > 0 {
      var ms := CategoryOf(gs);
      assert ms[..|ms| - 1] == CategoryOf(gs[..|gs| - 1]);
      CategoryTotals(gs[..|gs| - 1]);
    }
  }

  /** When every order has a key, every order is counted and every amount added. */
  lemma {:induction false} EveryOrderKeyed<K>(orders: seq<Order>, keyOf: Order -> Option<K>)
    requires forall i :: 0 <= i < |orders| ==> keyOf(orders[i]).Some?
    ensures KeyedCount(orders, keyOf) == |orders|
    ensures KeyedSales(orders, keyOf, AmountOf) == TotalAmount(orders)
  {
    if |orders| > 0 {
      var front := orders[..|orders| - 1];
      assert forall i :: 0 <= i < |front| ==> front[i] == orders[i];
      EveryOrderKeyed(front, keyOf);
    }
  }

  /**
   * `calculateRegionMetrics`: one metric per shipping state, an empty state
   * reported as "Unknown"; highest sales first, equal sales in the order
   * their states first appear; every order counted exactly once.
   */
  function RegionMetrics(orders: seq<Order>): (r: seq<RegionMetric>)
    ensures forall i, j :: 0 <= i < j < |r| ==>
              r[i].totalSales > r[j].totalSales
              || (r[i].totalSales == r[j].totalSales
                  && FirstIndex(orders, RegionKey, r[i].region) < FirstIndex(orders, RegionKey, r[j].region))
    ensures forall i :: 0 <= i < |r| ==> r[i].totalSales == SalesOf(orders, RegionKey, AmountOf, r[i].region)
    ensures forall i :: 0 <= i < |r| ==> r[i].transactionCount == CountOf(orders, RegionKey, r[i].region) > 0
    ensures forall s :: s in Regions(r) <==> exists i :: 0 <= i < |orders| && RegionName(orders[i]) == s
    ensures "" !in Regions(r)
    ensures RegionTransactions(r) == |orders|
    ensures RegionSales(r) == TotalAmount(orders)
  {
    var gs := GroupAndSort(orders, RegionKey, AmountOf, SalesDescending);
    RegionRanked(orders, gs);
    RegionValues(orders, gs);
    RegionFacts(orders, gs);
    RegionSums(orders, gs);
    RegionOf(gs)
  }

  /** Ascending `-totalSales` ranks the metrics by descending sales, ties in first-appearance order. */
  lemma RegionRanked(orders: seq<Order>, gs: seq<Group<string>>)
    requires forall i, j :: 0 <= i < j < |gs| ==>
               SalesDescending(gs[i]) < SalesDescending(gs[j])
               || (SalesDescending(gs[i]) == SalesDescending(gs[j])
                   && FirstIndex(orders, RegionKey, gs[i].key) < FirstIndex(orders, RegionKey, gs[j].key))
    ensures var r := RegionOf(gs);
            forall i, j :: 0 <= i < j < |r| ==>
              r[i].totalSales > r[j].totalSales
              || (r[i].totalSales == r[j].totalSales
                  && FirstIndex(orders, RegionKey, r[i].region) < FirstIndex(orders, RegionKey, r[j].region))
  {
    SalesDescend(orders, RegionKey, gs);
  }

  /** Each metric carries its group's sales and order count. */
  lemma RegionValues(orders: seq<Order>, gs: seq<Group<string>>)
    requires forall i :: 0 <= i < |gs| ==> gs[i].totalSales == SalesOf(orders, RegionKey, AmountOf, gs[i].key)
    requires forall i :: 0 <= i < |gs| ==> gs[i].count == CountOf(orders, RegionKey, gs[i].key) > 0
    ensures var r := RegionOf(gs);
            forall i :: 0 <= i < |r| ==> r[i].totalSales == SalesOf(orders, RegionKey, AmountOf, r[i].region)
    ensures var r := RegionOf(gs);
            forall i :: 0 <= i < |r| ==> r[i].transactionCount == CountOf(orders, RegionKey, r[i].region) > 0
  {
  }

  /** The groups are exactly the regions that occur, and the empty name is not among them. */
  lemma RegionFacts(orders: seq<Order>, gs: seq<Group<string>>)
    requires forall k :: k in Keys(gs) <==> CountOf(orders, RegionKey, k) > 0
    ensures forall c :: c in Regions(RegionOf(gs)) <==> exists i :: 0 <= i < |orders| && RegionName(orders[i]) == c
    ensures "" !in Regions(RegionOf(gs))
  {
    assert Regions(RegionOf(gs)) == Keys(gs);
    RegionCoverage(orders);
  }

  lemma RegionSums(orders: seq<Order>, gs: seq<Group<string>>)
    requires SumCounts(gs) == KeyedCount(orders, RegionKey)
    requires SumSales(gs) == KeyedSales(orders, RegionKey, AmountOf)
    ensures RegionTransactions(RegionOf(gs)) == |orders|
    ensures RegionSales(RegionOf(gs)) == TotalAmount(orders)
  {
    RegionTotals(gs);
    EveryOrderKeyed(orders, RegionKey);
  }

  lemma RegionCoverage(orders: seq<Order>)
    ensures forall s :: CountOf(orders, RegionKey, s) > 0 <==> exists i :: 0 <= i < |orders| && RegionName(orders[i]) == s
    ensures CountOf(orders, RegionKey, "") == 0
  {
    forall s ensures CountOf(orders, RegionKey, s) > 0 <==> exists i :: 0 <= i < |orders| && RegionName(orders[i]) == s {
      if exists i :: 0 <= i < |orders| && RegionName(orders[i]) == s {
        var i :| 0 <= i < |orders| && RegionName(orders[i]) == s;
        assert RegionKey(orders[i]) == Some(s);
      }
    }
  }

  lemma {:induction false} RegionTotals(gs: seq<Group<string>>)
    ensures RegionTransactions(RegionOf(gs)) == SumCounts(gs)
    ensures RegionSales(RegionOf(gs)) == SumSales(gs)
  {
    if |gs| > 0 {
      var ms := RegionOf(gs);
      assert ms[..|ms| - 1] == RegionOf(gs[..|gs| - 1]);
      RegionTotals(gs[..|gs| - 1]);
    }
  }

  // ---------------------------------------------------------------------
  // parseCSVData
  // ---------------------------------------------------------------------

  /** `header.trim()` of every header. */
  function TrimAll(headers: seq<string>): (names: seq<string>)
    ensures |names| == |headers| && forall j :: 0 <= j < |headers| ==> names[j] == Trim(headers[j])
  {
    seq(|headers|, j requires 0 <= j < |headers| => Trim(headers[j]))
  }

  /**
   * The column `record[name]` reads among trimmed header names: the last one
   * equal to `name` (later headers overwrite earlier ones), or none.
   */
  function LastIndexOf(names: seq<string>, name: string): (r: Option<nat>)
    ensures r.Some? ==> r.value < |names| && names[r.value] == name
    ensures r.Some? ==> forall j :: r.value < j < |names| ==> names[j] != name
    ensures r.None? <==> name !in names
  {
    if |names| == 0 then None
    else if names[|names| - 1] == name then Some(|names| - 1)
    else
      var front := names[..|names| - 1];
      assert forall j :: 0 <= j < |front| ==> front[j] == names[j];
      assert names == front + [names[|names| - 1]];
      LastIndexOf(front, name)
  }

  /** `record[name]`: the trimmed cell of that column, "" past the end of the row, undefined without the column. */
  function Field(headers: seq<string>, values: seq<string>, name: string): Option<string> {
    match LastIndexOf(TrimAll(headers), name)
    case None => None
    case Some(j) => Some(if j < |values| then Trim(values[j]) else "")
  }

  /** `record[name] || fallback`. */
  function FieldOr(headers: seq<string>, values: seq<string>, name: string, fallback: string): (r: string)
    ensures Field(headers, values, name).None? || Field(headers, values, name) == Some("") ==> r == fallback
    ensures Field(headers, values, name).Some? && Field(headers, values, name) != Some("")
            ==> r == Field(headers, values, name).value
    ensures r != "" || fallback == ""
  {
    match Field(headers, values, name)
    case None => fallback
    case Some(v) => if v != "" then v else fallback
  }

  /**
   * The date of a record. A missing `Date` column makes `dateStr.includes`
   * throw, and the handler uses the current instant; otherwise the text is
   * read as "MM-dd-yy" when it holds a dash, "MM/dd/yy" when it holds a
   * slash, and by the `Date` constructor else.
   */
  function RecordDate(dateText: Option<string>, parsers: DateParsers, now: ValidDate): (r: Option<ValidDate>)
    ensures dateText.None? ==> r == Some(now)
    ensures dateText.Some? && '-' in dateText.value ==> r == parsers.parse(dateText.value, MonthDayYearDash)
    ensures dateText.Some? && '-' !in dateText.value && '/' in dateText.value
            ==> r == parsers.parse(dateText.value, MonthDayYearSlash)
    ensures dateText.Some? && '-' !in dateText.value && '/' !in dateText.value ==> r == parsers.generic(dateText.value)
  {
    match dateText
    case None => Some(now)
    case Some(s) =>
      if '-' in s then parsers.parse(s, MonthDayYearDash)
      else if '/' in s then parsers.parse(s, MonthDayYearSlash)
      else parsers.generic(s)
  }

  /** One data line read against the header line. */
  function RecordOrder(headers: seq<string>, line: string, parsers: DateParsers, now: ValidDate): (o: Order)
    ensures o.amount.Num?
    ensures o.currency != ""
    ensures o.date == RecordDate(Field(headers, Split(line, ','), "Date"), parsers, now)
    ensures o.orderId == FieldOr(headers, Split(line, ','), "Order ID", "")
    ensures o.status == FieldOr(headers, Split(line, ','), "Status", "")
    ensures o.currency == FieldOr(headers, Split(line, ','), "currency", "INR")
    ensures o.category == FieldOr(headers, Split(line, ','), "Category", "")
    ensures o.city == FieldOr(headers, Split(line, ','), "ship-city", "")
    ensures o.state == FieldOr(headers, Split(line, ','), "ship-state", "")
    ensures var q := ParseInt(FieldOr(headers, Split(line, ','), "Qty", "0"), false);
            (q.None? || q == Some(0) ==> o.quantity == 0) && (q.Some? && q.value != 0 ==> o.quantity == q.value)
    ensures var a := ParseFloat(FieldOr(headers, Split(line, ','), "Amount", "0"));
            (!Truthy(a) ==> o.amount == Num(0.0)) && (Truthy(a) ==> o.amount == a)
  {
    var values := Split(line, ',');
    Order(
      orderId := FieldOr(headers, values, "Order ID", ""),
      date := RecordDate(Field(headers, values, "Date"), parsers, now),
      status := FieldOr(headers, values, "Status", ""),
      quantity := IntOrElse(ParseInt(FieldOr(headers, values, "Qty", "0"), false), 0),
      amount := Num(OrElse(ParseFloat(FieldOr(headers, values, "Amount", "0")), 0.0)),
      currency := FieldOr(headers, values, "currency", "INR"),
      category := FieldOr(headers, values, "Category", ""),
      city := FieldOr(headers, values, "ship-city", ""),
      state := FieldOr(headers, values, "ship-state", ""))
  }

  /** The loader's filter: not cancelled, positive amount, positive quantity. */
  predicate Kept(o: Order) {
    o.status != "Cancelled" && o.amount.Num? && o.amount.value > 0.0 && o.quantity > 0
  }

  /** Every data line read against the header line, in line order. */
  function Records(headers: seq<string>, rows: seq<string>, parsers: DateParsers, now: ValidDate): (os: seq<Order>)
    ensures |os| == |rows|
    ensures forall i :: 0 <= i < |rows| ==> os[i] == RecordOrder(headers, rows[i], parsers, now)
  {
    seq(|rows|, i requires 0 <= i < |rows| => RecordOrder(headers, rows[i], parsers, now))
  }

  /** `.filter(...)` with the loader's condition, keeping the order of the rest. */
  function KeepOrders(os: seq<Order>): (r: seq<Order>)
    ensures |r| <= |os|
    ensures forall i :: 0 <= i < |r| ==> Kept(r[i])
    ensures forall o :: o in r <==> o in os && Kept(o)
  {
    if |os| == 0 then []
    else
      var front := os[..|os| - 1];
      var last := os[|os| - 1];
      assert os == front + [last];
      KeepOrders(front) + (if Kept(last) then [last] else [])
  }

  /** The filter drops no copy of a kept order and keeps no copy of any other. */
  lemma {:induction false} KeepOrdersCounts(os: seq<Order>)
    ensures forall o :: multiset(KeepOrders(os))[o] == if Kept(o) then multiset(os)[o] else 0
  {
    if |os| > 0 {
      var front, last := os[..|os| - 1], os[|os| - 1];
      assert os == front + [last];
      assert multiset(os) == multiset(front) + multiset{last};
      assert KeepOrders(os) == KeepOrders(front) + (if Kept(last) then [last] else []);
      KeepOrdersCounts(front);
    }
  }

  /** Filtering two runs of orders is filtering each and concatenating, so no order moves. */
  lemma {:induction false} KeepOrdersAppend(xs: seq<Order>, ys: seq<Order>)
    ensures KeepOrders(xs + ys) == KeepOrders(xs) + KeepOrders(ys)
    decreases |ys|
  {
    if |ys| == 0 {
      assert xs + ys == xs;
    } else {
      assert (xs + ys)[..|xs + ys| - 1] == xs + ys[..|ys| - 1];
      KeepOrdersAppend(xs, ys[..|ys| - 1]);
    }
  }

  /** `csvData.trim().split("\n")`: never empty, the first line being the header line. */
  function CsvLines(csv: string): (lines: seq<string>)
    ensures |lines| == Occurrences(Trim(csv), '\n') + 1
  {
    Split(Trim(csv), '\n')
  }

  /** The orders of every data line before filtering. */
  function DataRecords(csv: string, parsers: DateParsers, now: ValidDate): (os: seq<Order>)
    ensures |os| == |CsvLines(csv)| - 1
    ensures forall i :: 1 <= i < |CsvLines(csv)| ==>
              os[i - 1] == RecordOrder(Split(CsvLines(csv)[0], ','), CsvLines(csv)[i], parsers, now)
  {
    var lines := CsvLines(csv);
    Records(Split(lines[0], ','), lines[1..], parsers, now)
  }

  /**
   * `parseCSVData`: every data line becomes an order, and only those that
   * are not cancelled and have a positive amount and quantity remain, so
   * there are at most as many orders as data lines.
   */
  function ParseCsvData(csv: string, parsers: DateParsers, now: ValidDate): (r: seq<Order>)
    ensures |r| <= |CsvLines(csv)| - 1
    ensures forall i :: 0 <= i < |r| ==>
              r[i].status != "Cancelled" && r[i].amount.Num? && r[i].amount.value > 0.0 && r[i].quantity > 0
    ensures forall o :: o in r <==> o in DataRecords(csv, parsers, now) && Kept(o)
    ensures forall o :: multiset(r)[o] == if Kept(o) then multiset(DataRecords(csv, parsers, now))[o] else 0
  {
    KeepOrdersCounts(DataRecords(csv, parsers, now));
    KeepOrders(DataRecords(csv, parsers, now))
  }

  /** Without a `Date` column every order is dated at the current instant. */
  lemma NoDateColumnMeansNow(csv: string, parsers: DateParsers, now: ValidDate)
    requires "Date" !in TrimAll(Split(CsvLines(csv)[0], ','))
    ensures forall i :: 0 <= i < |ParseCsvData(csv, parsers, now)| ==> ParseCsvData(csv, parsers, now)[i].date == Some(now)
  {
    var r := ParseCsvData(csv, parsers, now);
    var all := DataRecords(csv, parsers, now);
    RecordsDatedNow(csv, parsers, now);
    forall i | 0 <= i < |r| ensures r[i].date == Some(now) {
      assert r[i] in r;
      assert r[i] in all;
    }
  }

  /** Without a `Date` column every record, kept or not, is dated at the current instant. */
  lemma RecordsDatedNow(csv: string, parsers: DateParsers, now: ValidDate)
    requires "Date" !in TrimAll(Split(CsvLines(csv)[0], ','))
    ensures forall k :: 0 <= k < |DataRecords(csv, parsers, now)| ==> DataRecords(csv, parsers, now)[k].date == Some(now)
  {
    var lines := CsvLines(csv);
    var headers := Split(lines[0], ',');
    var all := DataRecords(csv, parsers, now);
    forall k | 0 <= k < |all| ensures all[k].date == Some(now) {
      assert all[k] == RecordOrder(headers, lines[k + 1], parsers, now);
      assert Field(headers, Split(lines[k + 1], ','), "Date") == None;
    }
  }
}
