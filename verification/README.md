# sales-report: the data path of the sales dashboard, in Dafny

The sales-report dashboard turns an uploaded Amazon order report (CSV) into
summary cards and per-day, per-month, per-category and per-region metrics.
This project models the pure part of that path and proves what it promises:

- **The CSV worker** (`CsvWorker`, with properties in `CsvProperties`). It
  normalises CRLF to LF and splits the text into lines. It skips blank lines
  and tokenizes each remaining line with a quote-aware character scan: `""`
  inside quotes is a literal quote, any other `"` flips the quote state, and
  a comma separates only outside quotes. It reports progress `i / totalLines`
  after every non-blank line whose index is a multiple of 100 or the last
  index; a blank last line reports nothing. Its reply is either the
  progress messages followed by the rows, or one failure message.
- **The number and string semantics the code relies on** (`Text`,
  `JsNumber`): `trim`, `split`, `join`, `parseInt` with and without an
  explicit radix, `parseFloat`, and `x || fallback` on numbers.
- **Calendar days** (`Calendar`): valid dates, their chronological order, `subDays`.
- **Orders** (`Orders`). The date parsers are a parameter: `date-fns` `parse` by format, and the `Date` constructor.
- **The aggregators** (`Grouping`, `DataProcessor`).
  - Each aggregator is modelled as a group-by with running totals. A map
    keeps insertion order, updates a key in place and appends a new key at
    the end.
  - The groups are then sorted with a stable sort: by day, by month, or by
    descending sales.
  - `parseCSVData`, the loader of the data module, is modelled as well: its
    header lookup, defaults, date formats and filter.
- **The dashboard logic** (`Dashboard`):
  - the row adapter in `handleDataLoaded`: the header check, the date
    fallback chain, and the defaults for missing or zero cells;
  - the date-range, category and region filters;
  - `calculateSummary`: totals, the average order value, and the three
    half-over-half trends.

The model is functional: every operation is a Dafny function, except the
tokenizer's two loops, which are methods proved equal to their functional
specification. The clock, `date-fns` and the `Date` constructor are parameters
(`now`, `DateParsers`). JavaScript numbers are exact reals, with `NaN` kept as
a separate case where the code tests for it.

The two loading paths differ:

- The adapter's default for a zero or unparsable amount or quantity is 1; `parseCSVData`'s is 0.
- The adapter does not drop cancelled orders; only `parseCSVData` filters on status.
- `parseCSVData` calls `Number.parseInt` without a radix, so it honours a `0x` prefix.
- `handleDataLoaded` calls `parseInt(…, 10)`, which reads `0x1F` as 0.

## Model

| member | source | states |
|---|---|---|
| CsvWorker.Lines | workers/csv-worker.ts:23 | there is one line per LF in the text plus one; CRLF normalisation never adds or removes a line |
| CsvWorker.NormalizeKeepsLf | workers/csv-worker.ts:23 | replacing every CRLF by LF keeps exactly the number of LF characters |
| CsvWorker.ScanLine | workers/csv-worker.ts:30-52 | a scan ends with the fields already closed, followed by one field per separating comma, plus the final field that is always pushed |
| CsvWorker.TokenizeLine | workers/csv-worker.ts:30-52 | a line gives one field more than it has commas outside quotes; the scan starts outside quotes |
| CsvWorker.SplitFields | workers/csv-worker.ts:30-52 | the character loop computes exactly the functional scan of the line, `""`-escape skip included |
| CsvWorker.NonBlankMembers | workers/csv-worker.ts:26-28 | the lines that produce rows are exactly the lines that are not empty and not whitespace-only |
| CsvWorker.RowsStep | workers/csv-worker.ts:26-53 | visiting one more line appends its tokenized row exactly when the line is not blank |
| CsvWorker.RowsUpToNonBlank | workers/csv-worker.ts:26-53 | the rows produced by the first i lines are the tokenized non-blank lines among them, in order |
| CsvWorker.ParseCsv | workers/csv-worker.ts:21-61 | the line loop returns exactly one tokenized row per non-blank line, in order, and exactly the progress values of the reporting lines |
| CsvWorker.FailureReply | workers/csv-worker.ts:10-17 | a failure message is the fixed prefix followed by the error's message, or by "Unknown error parsing CSV file" for a thrown non-Error |
| CsvWorker.OnMessage | workers/csv-worker.ts:1-19 | the worker posts only progress messages, then exactly one terminal reply; it is a success carrying the rows exactly when the request holds text; the progress values are those of the tokenizer |
| Text.Trim | workers/csv-worker.ts:28 | `trim()` is empty exactly when the line is blank |
| Text.Split | workers/csv-worker.ts:23 | there is one piece per separator plus one, and no piece contains the separator |
| Text.SplitJoin | workers/csv-worker.ts:23 | splitting the join of separator-free pieces gives the pieces back |
| Text.JoinSplit | workers/csv-worker.ts:23 | joining the pieces of a split gives the string back |
| CsvProperties.UnquotedLineIsSplit | workers/csv-worker.ts:34-52 | a line without quotes tokenizes to its plain split on commas |
| CsvProperties.PlainFieldsRoundTrip | workers/csv-worker.ts:34-52 | joining fields that hold no comma and no quote with commas and tokenizing gives the fields back |
| CsvProperties.QuotedFieldsRoundTrip | workers/csv-worker.ts:37-46 | quoting every field (doubling its quotes) and joining with commas tokenizes back to the original fields, commas and quotes included |
| CsvProperties.QuotedCommaExample | workers/csv-worker.ts:37-46 | `"a,b"` is one field `a,b` |
| CsvProperties.EscapedQuoteExample | workers/csv-worker.ts:38-40 | `"a""b"` is one field `a"b` |
| CsvProperties.ScanEscaped | workers/csv-worker.ts:37-43 | inside quotes an escaped field followed by a closing quote contributes the unescaped field and leaves quotes |
| CsvProperties.LoneQuote | workers/csv-worker.ts:41-43 | an unmatched quote in mid-field is dropped and the rest of the line is one field |
| CsvProperties.MidFieldQuotes | workers/csv-worker.ts:37-43 | quotes around the middle of a field are dropped and the field stays whole |
| CsvProperties.ScanDropsQuotes | workers/csv-worker.ts:34-52 | from any scan state, text without a `""` pair adds no quote to any field: each such quote only toggles the state |
| CsvProperties.LoneQuotesDropped | workers/csv-worker.ts:37-43 | in a line without a `""` pair, every quote, wherever it is, is dropped: no field holds a quote |
| CsvProperties.OpenQuoteLine | workers/csv-worker.ts:37-52 | a line that opens a quote and never closes it is one field holding the rest of the line |
| CsvProperties.QuoteStateResetsPerLine | workers/csv-worker.ts:30-33 | an unclosed quote does not carry into the next line: the following lines tokenize as if alone |
| CsvProperties.RowsShape | workers/csv-worker.ts:23-53 | there is one row per non-blank line; every row has at least one field, and no field contains a line break |
| CsvProperties.NonBlankConcat | workers/csv-worker.ts:26-28 | blank-line skipping distributes over concatenation of line lists |
| CsvProperties.LeadingLine | workers/csv-worker.ts:23-53 | the first non-blank line of the text gives the first row, and the remaining lines give the rest |
| CsvProperties.NormalizeJoin | workers/csv-worker.ts:23 | lines joined with CRLF or with LF normalise to the LF join |
| CsvProperties.CrlfSameAsLf | workers/csv-worker.ts:23 | a CRLF file and the same file with LF endings give the same rows, for lines that contain no LF and do not end in CR (a line ending in CR would merge with the following LF) |
| CsvProperties.LfRows | workers/csv-worker.ts:23-28 | splitting an LF join gives back the lines, and the rows are those of the non-blank lines |
| CsvProperties.ProgressIncreasing | workers/csv-worker.ts:55-57 | progress values are non-negative, below the share of lines visited, and strictly increasing |
| CsvProperties.ProgressExactlyReported | workers/csv-worker.ts:55-57 | every progress value is `j / total` for a reporting line j, and every reporting line's value is reported |
| CsvProperties.ProgressBounds | workers/csv-worker.ts:55-57 | every reported progress value lies in [0, 1) and they strictly increase |
| JsNumber.OrElse | components/dashboard.tsx:234-235 | `n \|\| fallback` keeps a non-zero number and replaces 0 and NaN by the fallback |
| JsNumber.IntOrElse | components/dashboard.tsx:234 | the integer form of `parseInt(…) \|\| fallback` agrees with `OrElse` on its numeric value |
| JsNumber.ParseIntReadsDecimal | components/dashboard.tsx:227 | after leading whitespace and an optional minus, `parseInt` reads the decimal digits and ignores the rest |
| JsNumber.ParseIntHexPrefix | utils/data-processor.ts:71 | without a radix, `0x` followed by hex digits reads as a base-16 number |
| JsNumber.ParseIntDecimalStopsAtX | components/dashboard.tsx:227 | with radix 10, `0x…` reads as 0 |
| JsNumber.ParseFloatReadsDecimal | components/dashboard.tsx:228 | `parseFloat` reads `whole.frac` and ignores what follows |
| JsNumber.ParseFloatOfInteger | components/dashboard.tsx:228 | `parseFloat` of the decimal text of n is n |
| JsNumber.NoDigitsIsNaN | components/dashboard.tsx:227-228 | text with no digit at all makes both parses NaN |
| Calendar.SubDays | components/dashboard.tsx:222 | going back n days stays at the same day for n = 0 and gives an earlier day otherwise |
| Calendar.SubThenAdd | components/dashboard.tsx:222 | going back n days and forward n days returns to the same day |
| Calendar.RankOrder | utils/data-processor.ts:131 | the timestamp rank orders valid days chronologically and is injective |
| Calendar.MonthRankOrder | utils/data-processor.ts:177-181 | the month rank orders months as their first days are ordered, and is injective |
| Calendar.MonthOrderFollowsDays | utils/data-processor.ts:177-181 | days in different months are ordered as their months are |
| Grouping.Upsert | utils/data-processor.ts:108-114 | adding to an existing key changes only that group's totals in place, and a new key is appended last with count 1; keys stay distinct |
| Grouping.UpsertTotals | utils/data-processor.ts:108-114 | one upsert adds one transaction and exactly its amount to the grand totals |
| Grouping.Accumulate | utils/data-processor.ts:100-118 | the grouping has one group per key that occurs, carrying that key's sum of amounts and count; groups are in first-occurrence order; items without a key are skipped |
| Grouping.AccumulateTotals | utils/data-processor.ts:100-118 | the group counts add up to the number of keyed items, and the group sales to their amounts |
| Grouping.SortBy | utils/data-processor.ts:131 | sorting permutes the groups |
| Grouping.SortByStable | utils/data-processor.ts:131 | the sort is stable: equal ranks keep their insertion order |
| Grouping.SortKeepsKeys | utils/data-processor.ts:120-131 | sorting keeps exactly the same keys |
| Grouping.SortKeepsTotals | utils/data-processor.ts:120-131 | sorting keeps the grand totals |
| Grouping.GroupAndSort | utils/data-processor.ts:100-131 | the sorted groups carry each occurring key's sum and a positive count; they are ordered by rank, ties by first occurrence; they cover all keyed items |
| DataProcessor.AverageOf | utils/data-processor.ts:122 | the average times the count is the sales, and it is 0 when the count is 0 |
| DataProcessor.CategoryName | utils/data-processor.ts:195 | the category is never empty, and is the order's own category when it has one |
| DataProcessor.RegionName | utils/data-processor.ts:228 | the region is never empty, and is the order's own state when it has one |
| DataProcessor.DailyMetrics | utils/data-processor.ts:91-132 | there is one metric per day on which an order has a valid date, days strictly ascending; each carries that day's sales, a positive count and their ratio; the totals equal those of the validly dated orders |
| DataProcessor.SingleDay | utils/data-processor.ts:91-132 | orders that all fall on one day give exactly one metric holding all their amounts and all of them as transactions |
| DataProcessor.DailyExample | utils/data-processor.ts:91-132 | two orders of 406 and 329 on one day give one metric: 735, 2 transactions, 367.5 average |
| DataProcessor.MonthlyMetrics | utils/data-processor.ts:134-182 | there is one metric per month in which an order has a valid date, months strictly ascending; each carries the month's sales, a positive count and their ratio; the counts add up to the number of validly dated orders and the sales to their amounts |
| DataProcessor.MonthlyMatchesDaily | utils/data-processor.ts:91-182 | the monthly report counts the same orders and the same total sales as the daily report |
| DataProcessor.CategoryMetrics | utils/data-processor.ts:184-215 | there is one metric per category name, sales descending with ties in first-occurrence order; every order is counted once under its category ("Uncategorized" when empty) and all amounts are kept |
| DataProcessor.RegionMetrics | utils/data-processor.ts:217-248 | there is one metric per state, sales descending with ties in first-occurrence order; every order is counted once under its state ("Unknown" when empty) and all amounts are kept |
| DataProcessor.EveryOrderKeyed | utils/data-processor.ts:193-206 | when every order has a key, the keyed count is the number of orders and the keyed sales their total amount |
| DataProcessor.LastIndexOf | utils/data-processor.ts:51-53 | a repeated header name reads the last column with that name; an absent name reads nothing |
| DataProcessor.FieldOr | utils/data-processor.ts:74-82 | `record[name] \|\| fallback` gives the fallback for a missing column or an empty cell, and the trimmed cell otherwise |
| DataProcessor.RecordDate | utils/data-processor.ts:55-68 | a dash selects "MM-dd-yy", else a slash selects "MM/dd/yy", else the Date constructor is used; a missing Date column gives the current instant |
| DataProcessor.RecordOrder | utils/data-processor.ts:47-84 | a data line becomes an order dated by its Date column. Order ID, Status, Category, ship-city and ship-state are those columns, or "" when missing or empty; currency defaults to "INR". The quantity is the integer read from Qty, or 0 when that reads as 0 or NaN; the amount is the number read from Amount, or 0 likewise |
| DataProcessor.KeepOrders | utils/data-processor.ts:85-88 | the filter keeps exactly the orders that are not cancelled and have a positive amount and quantity, and never more orders than it was given |
| DataProcessor.KeepOrdersCounts | utils/data-processor.ts:85-88 | every copy of a kept order survives the filter, and no copy of any other does |
| DataProcessor.KeepOrdersAppend | utils/data-processor.ts:85-88 | filtering two runs of orders gives the filtered runs one after the other, so the filter keeps the input order |
| DataProcessor.CsvLines | utils/data-processor.ts:42 | the trimmed text has one line per LF plus one |
| DataProcessor.DataRecords | utils/data-processor.ts:41-84 | every line after the header becomes the record read against the header line, in order |
| DataProcessor.ParseCsvData | utils/data-processor.ts:41-89 | the loaded orders are exactly the kept records, each as many times as it occurs among the records; there are at most as many as data lines, and none is cancelled or has a non-positive amount or quantity |
| DataProcessor.NoDateColumnMeansNow | utils/data-processor.ts:55-68 | without a Date column every loaded order is dated now |
| Dashboard.CellOr | components/dashboard.tsx:231-239 | `row[k] \|\| fallback` gives the cell when present and non-empty, else the fallback |
| Dashboard.FirstSuccess | components/dashboard.tsx:179-225 | the result is the first successful attempt, or the fallback when none succeeds |
| Dashboard.ParseOrderDate | components/dashboard.tsx:179-225 | the first format attempt wins when it succeeds; the date is always one of the attempts' results or 15 days before now, and is the latter when every attempt fails |
| Dashboard.ParseOrderDateIsFirstSuccess | components/dashboard.tsx:179-225 | the nested try/catch chain equals taking the first successful parse among the format attempts, then the Date constructor, then 15 days before now |
| Dashboard.SentinelDate | components/dashboard.tsx:221-223 | when every parse fails the order is dated 15 days before now |
| Dashboard.AdaptRow | components/dashboard.tsx:171-240 | a row becomes an order exactly when it has at least two cells; the order has the chain's date, the row's id and status, a non-zero quantity and amount; currency, category, city and state are the cells of columns 14, 9, 16 and 17 when present and non-empty, and otherwise "INR", "Uncategorized", "Unknown" and "Unknown" |
| Dashboard.AdaptRowNumbers | components/dashboard.tsx:227-235 | a quantity or amount that reads as 0 or NaN becomes 1, and any other value is kept |
| Dashboard.Somes | components/dashboard.tsx:245 | the kept values are exactly the present ones |
| Dashboard.SomesCounts | components/dashboard.tsx:245 | each value is kept as many times as it is present |
| Dashboard.SomesAppend | components/dashboard.tsx:245 | dropping the nulls of two runs gives the two runs' values one after the other |
| Dashboard.AdaptRows | components/dashboard.tsx:171-245 | the orders are exactly the adapted rows that were not dropped |
| Dashboard.AdaptedAppend | components/dashboard.tsx:171-240 | the adapter works row by row: two runs of rows adapt to the two runs' results |
| Dashboard.AdaptRowsAppend | components/dashboard.tsx:171-245 | the orders of two runs of rows are the orders of each run, one after the other |
| Dashboard.AdaptOneRow | components/dashboard.tsx:171-245 | one row yields its adapted order when it has two cells or more, and nothing otherwise |
| Dashboard.AdaptRowsCount | components/dashboard.tsx:171-245 | there is exactly one order per row of two or more cells |
| Dashboard.AdaptRowsMultiplicity | components/dashboard.tsx:171-245 | each order occurs among the loaded orders exactly as often as the adapter produced it, so none is dropped or repeated |
| Dashboard.LoadOrders | components/dashboard.tsx:160-247 | an upload is rejected for a missing or short header (under 10 cells), and for having no row of two or more cells; otherwise it yields the adapted rows |
| Dashboard.NoOrdersMeansShortRows | components/dashboard.tsx:171-245 | the adapter yields nothing exactly when every row has fewer than two cells |
| Dashboard.CancelledRowsLoad | components/dashboard.tsx:230-240 | a row with status "Cancelled" is loaded as an order with that status |
| Dashboard.OrdersLoad | components/dashboard.tsx:164-247 | a header of ten or more cells and at least one adapted row make the upload succeed with exactly the adapted orders |
| Dashboard.SelectMembers | components/dashboard.tsx:93-143 | a filter keeps exactly the orders that meet its condition |
| Dashboard.ByDateSelects | components/dashboard.tsx:94-105 | the date filter applies only when both ends are set, and then keeps the validly dated orders within the range, ends included |
| Dashboard.ByCategorySelects | components/dashboard.tsx:133-137 | the category filter applies only when a category is selected |
| Dashboard.ByRegionSelects | components/dashboard.tsx:139-143 | the region filter applies only when a region is selected |
| Dashboard.ApplyFilters | components/dashboard.tsx:93-143 | no more orders than were given, and exactly those that meet the date range (when both ends are set), the category and the region (when selected); the fallback of lines 107-130 is not modelled |
| Dashboard.FiltersAreConjunction | components/dashboard.tsx:93-143 | the successive filters keep exactly the orders that meet every condition in force, in order |
| Dashboard.SelectTwice | components/dashboard.tsx:133-143 | filtering by one condition and then another is filtering once by both |
| Dashboard.Round | components/dashboard.tsx:331-333 | `Math.round` gives the nearest integer, with halves rounded up |
| Dashboard.PercentChange | components/dashboard.tsx:332 | the change in percent has the sign of the change |
| Dashboard.TrendSign | components/dashboard.tsx:329-356 | a trend is 0 with no positive baseline, 0 when flat, and otherwise has the sign of the change |
| Dashboard.Summarize | components/dashboard.tsx:302-366 | no days give all zeros; otherwise the totals are the sums over all days, the average order value is their ratio, and the transactions are at least the number of days |
| Dashboard.HalvesPartition | components/dashboard.tsx:322-328 | the two halves are the days split at the midpoint, the second half is the same size or one longer, and their totals add up to the overall ones |
| Dashboard.SingleDayNoTrend | components/dashboard.tsx:322-356 | a single day has an empty first half and so shows no trend at all |
| Dashboard.SalesTrendSign | components/dashboard.tsx:322-334 | the sales trend compares the second half of the days with the first; the halves' sales add up to the total; the sales trend is 0 when the first half sold nothing or the halves are equal, and otherwise has the sign of second minus first |
| Dashboard.TransactionsTrendSign | components/dashboard.tsx:336-349 | the transactions trend compares the second half's order count with the first half's; the halves' counts add up to the total; the first half counts orders exactly when there are two or more days; the trend is 0 with fewer than two days or equal halves, and otherwise has the sign of second minus first |
| Dashboard.SteadyAverageNoTrend | components/dashboard.tsx:351-356 | days that share one average order value show no average-order-value trend |
| Dashboard.SummaryOfLoadedOrders | components/dashboard.tsx:283-320 | an upload with a header of ten or more cells and a data row of two or more cells is accepted; the metrics `handleDataLoaded` itself stores (283-293) summarise to a count of every loaded order once and the sum of all their amounts. The date filter then replaces these metrics, as the list of what is left out explains |
| Dashboard.SummaryOfDatedOrders | components/dashboard.tsx:302-320 | for validly dated orders the summary's totals are the number of orders and their total amount |

## Left out

- Charts, the CSV uploader component, the stats cards and the header.
  They are presentation only.
- Dashboard.ApplyFilters: models the date filter of components/dashboard.tsx:93-105
  alone. When that filter leaves no order but there are orders, lines 107-130
  take over. They take the earliest of now and the valid order dates, and the
  latest of the epoch and those dates. If the earliest is before the latest,
  the range is reset to the 30 days ending at the latest, and the filtering
  runs again. Otherwise line 129 drops the date filter (`filteredOrders = orders`), and
  every order reaches the category and region filters. So
  `ApplyFilters`, `ByDate`, `ByDateSelects` and `FiltersAreConjunction`
  describe the dashboard only when the date filter keeps at least one order,
  or when there are no orders.
- React state handling. The model does not cover the date-range reset of
  components/dashboard.tsx:120-127, the sample-data fallback after an upload with no orders (247-262), or the
  min/max date range set after an upload (266-281). They are state
  transitions around the modelled pure functions. In particular, once an
  upload changes `orders` and the date range, the effect of lines 90-158 runs
  again. It replaces the daily metrics stored at 283-293 with those of
  `ApplyFilters` over the range in force: the 30 days ending at the latest
  order, or, when 276-281 does not reset it, the initial range from 10 days
  before now to now (59-62). So the summary the dashboard settles on
  leaves out the orders outside that range, which `SummaryOfLoadedOrders`
  does not describe. The model's `LoadOrders`
  returns `NoValidOrders` where the code switches to sample data.
- The internals of `date-fns` `parse`, `format` and the `Date` constructor.
  They are a parameter (`DateParsers`): a function per format, and a generic
  parser. Invalid Date is modelled as `None`.
- Time zones and times of day. Dates are calendar days.
  - `setHours(12, 0, 0, 0)` does not change the day, so it is not modelled.
  - The daily key's re-parse `new Date("yyyy-MM-dd")` (UTC) is not modelled.
  - The monthly "MMM yyyy" label and its re-parse for sorting are not modelled.
- Floating point. Numbers are exact reals, so rounding in sums and averages is not modelled.
- Logging (`console.warn`, `console.error`) and `alert`.
- The worker's `postMessage` transport. The destructuring of `event.data`
  in workers/csv-worker.ts:2 runs outside the `try`. A null `event.data`
  would therefore throw before any reply, which `CsvWorker.OnMessage` does not
  model. Its requests always carry a `text` field.
- Dashboard.ByDate: compares calendar days rather than "yyyy-MM-dd" strings.
  The two orders agree for years 0 to 9999 only, which the model does not
  prove.
- Dashboard.Summarize: requires every daily metric to count at least one
  order. The daily metrics always do (`SummaryOfDatedOrders`). Without this,
  JavaScript would divide by zero and give `Infinity`, which the model does not represent.
- JsNumber.ParseFloat: does not read `Infinity`, and gives exact real
  values. Its contract states when the result is NaN; the values it reads
  are stated by `ParseFloatReadsDecimal` and `ParseFloatOfInteger`.
- JsNumber.ParseInt: does not model the precision loss of very long digit strings.
- DataProcessor.MonthlyMetrics: keys months by (year, month) rather than by
  the formatted label, and sorts by the first day of the month. This is the
  order the label re-parse gives for valid dates.
- DataProcessor.DailyMetrics: the `try`/`catch` around each order is not modelled.
  With exact arithmetic nothing in its body can throw.
