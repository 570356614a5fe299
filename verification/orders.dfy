/** The order record every part of the dashboard works on. */
module Orders {
  import opened Wrappers
  import opened Calendar
  import opened JsNumber

  /**
   * One order line. `date` is `None` for an invalid JavaScript `Date`;
   * `amount` may in principle be NaN, which the aggregators count as zero.
   */
  datatype Order = Order(
    orderId: string,
    date: Option<ValidDate>,
    status: string,
    quantity: int,
    amount: Number,
    currency: string,
    category: string,
    city: string,
    state: string)

  /** The date-fns format strings the loaders try. */
  datatype DateFormat =
    | MonthDayYearDash   // "MM-dd-yy"
    | DayMonthYearDash   // "dd-MM-yy"
    | YearMonthDayDash   // "yyyy-MM-dd"
    | MonthDayYearSlash  // "MM/dd/yy"
    | DayMonthYearSlash  // "dd/MM/yy"

  /**
   * The date parsers the loaders call, taken as given: `parse` is date-fns
   * `parse(text, format, now)` and `generic` is `new Date(text)`, each giving
   * `None` for an invalid date. Both are fixed for the current instant.
   */
  datatype DateParsers = DateParsers(
    parse: (string, DateFormat) -> Option<ValidDate>,
    generic: string -> Option<ValidDate>)

  /** `isNaN(order.amount) ? 0 : order.amount`, the amount every aggregator adds up. */
  function AmountOf(o: Order): (a: real)
    ensures o.amount.Num? ==> a == o.amount.value
    ensures o.amount.NaN? ==> a == 0.0
  {
    ValueOrZero(o.amount)
  }
}
