# Sales dashboard aggregations, modelled in Dafny

The dashboard reads an "Orders" sheet of order lines. Each line has an order
date, a ship date, sales, profit, quantity, discount, product id and product
name. Two pages compute tables from these lines, and this project models those
tables as pure functions over a sequence of order records:

- **Year summary** (`summarize_sales_data`, home page):
  - keeps one year's orders;
  - gives one row per month with orders, holding the month's summed sales and
    profit, its English name and its profit ratio;
  - gives the ten products, keyed by (Product ID, Product Name), with the
    largest summed quantity.
- **Month summary** (`aggregate_sales_data`, home page): keeps one
  (year, month) and gives one row per order date, holding the summed sales and
  profit, the number of order lines, the profit ratio and the day of the month.
- **Weekly timeline** (graphs page):
  - computes the days to ship of every order line and keeps 2016;
  - buckets the orders by (calendar year, ISO 8601 week number);
  - per bucket, takes the earliest order date, the mean days to ship and mean
    discount, the summed profit, quantity and sales, and the profit ratio;
  - moves each bucket's date to the Monday that starts its week, and sorts by
    that date.

Modules:

- `Calendar`: proleptic Gregorian dates and their day numbers. Day 1 is
  1 January of year 1, as Python's `toordinal` counts. It also has day
  differences, the weekday, the Monday of a week and the ISO 8601 week date
  (section 4.1.4 of ISO 8601:2004).
- `Tables`: the generic table operations the pipelines use: row filtering,
  sums, means, group-by over an integer key range, first-occurrence distinct
  values and a stable sort.
- `Orders`: the order record, its columns, days to ship and the profit ratio.
- `Summary`: the two home-page summaries.
- `Timeline`: the weekly timeline.

A profit ratio is `None` when sales are zero and `Some(profit / sales)`
otherwise.

## Model

| member | source | states |
|---|---|---|
| Orders.DaysToShip | pages/graph.py:15 | Days to ship is the signed whole-day difference from order date to ship date. It is zero exactly when the order ships on its order date, and positive exactly when it ships later. Stepping back n days from the ship date gives the order date when n >= 0. Stepping back -n days from the order date gives the ship date when n <= 0. |
| Orders.ProfitRatio | pages/main.py:22 | The ratio is defined exactly when sales are non-zero, and then ratio × sales = profit. |
| Calendar.DaysBetween | pages/graph.py:15 | The signed whole-day difference n from a to b is zero iff the dates are equal, and positive iff a is earlier. Stepping back n days from b gives a when n >= 0; stepping back -n days from a gives b when n <= 0. |
| Calendar.WeekStart | pages/graph.py:38 | The start of a date's weekly period is a Monday, at most six days before the date, and the offset is the date's weekday. |
| Calendar.WeekStartUnique | pages/graph.py:38 | Any Monday at most six days before a date is that date's week start. |
| Calendar.IsoCalendar | pages/graph.py:21 | The ISO calendar of every date is its ISO 8601 week date: the ISO year whose week 1 (the Monday-started week holding 4 January) the date falls in, the week number counted from that Monday, and the weekday. |
| Calendar.IsoWeekRange | pages/graph.py:21 | ISO week numbers lie in 1..53. |
| Summary.YearOrders | pages/main.py:16 | The year's rows are exactly the table's rows whose order date falls in that year, each as many times as the table has it. |
| Summary.SummaryIgnoresOtherYears | pages/main.py:16 | Inserting rows of other years anywhere into the table leaves both results of the year summary unchanged. |
| Summary.MonthlySales | pages/main.py:17-22 | At most 12 rows, in strictly ascending month order. Each row's month is in 1..12 and has orders. Its sales and profit are the sums over that month's rows, its name is the month's English name, and its ratio is profit / sales. |
| Summary.MonthRowsMultiset | pages/main.py:17-20 | A month's rows are the table's rows of that year and month, each as many times as the table has it. |
| Summary.MonthlySalesComplete | pages/main.py:17-20 | Every month in which the year has an order has a row. |
| Summary.MonthlySalesCount | pages/main.py:20 | There are as many rows as distinct months among the year's orders. |
| Summary.MonthlySalesConserve | pages/main.py:20 | Monthly sales and monthly profit sum to the year's totals: nothing dropped, nothing counted twice. |
| Summary.MonthName | pages/main.py:21 | The name of a month number 1..12 is one of the twelve English month names; MonthNameRoundTrip shows it identifies the month. |
| Summary.MonthNumber | pages/main.py:21 | A name maps back to a month number in 1..12 with that English name, and to None exactly when it is not a month name. |
| Summary.MonthNameRoundTrip | pages/main.py:21 | The month name identifies its month: MonthNumber(MonthName(m)) = m. |
| Summary.ProductTotals | pages/main.py:25 | One row per distinct (Product ID, Product Name) of the rows, no product twice, each with its summed quantity. |
| Summary.ProductTotalsComplete | pages/main.py:25 | Every product of the rows has a row. |
| Summary.ProductSet | pages/main.py:25 | There are as many product rows as distinct products. |
| Summary.RankedProducts | pages/main.py:26 | The year's product totals ordered by descending quantity: sorted, and a permutation of the product totals. |
| Summary.TopProducts | pages/main.py:25-26 | At most ten rows, with non-increasing quantities. Each row is a product of the year with that product's summed quantity. |
| Summary.TopProductsCount | pages/main.py:25-26 | The top table has min(10, number of distinct products of the year) rows. |
| Summary.TopProductsDistinct | pages/main.py:25-26 | No product appears twice in the top table. |
| Summary.TopProductsOmitted | pages/main.py:26 | A product of the year missing from the top table sold no more than the last kept row. |
| Summary.TopTen | pages/main.py:26 | The first min(10, n) entries of the ranking, unchanged. |
| Summary.TopTenOmitted | pages/main.py:26 | In a list ordered by descending quantity, an entry outside the first ten has no larger quantity than the tenth. |
| Summary.SummarizeSalesData | pages/main.py:14-28 | The year summary has at most 12 monthly rows and at most 10 product rows. |
| Summary.MonthOrders | pages/main.py:37 | The month's rows are exactly the table's rows whose order date falls in the given year and month, each as many times as the table has it. |
| Summary.DateOrdersMultiset | pages/main.py:38-42 | A date's rows, which Count counts and the daily sums add up, are the table's rows of that date, each as many times as the table has it. |
| Summary.AggregateSalesData | pages/main.py:38-45 | One row per order date, in strictly ascending date order, all in the given year and month. Each row's Count is the number of the table's order lines on that date (positive), and its sales and profit are their sums. Its ratio is profit / sales, and its Day is the date's day of month (in 1..31). |
| Summary.AggregateComplete | pages/main.py:37-42 | Every date of the month that has an order has a row. |
| Summary.AggregateConserve | pages/main.py:38-42 | Counts sum to the month's number of order lines, and daily sales and profit sum to the month's totals. |
| Summary.DayGroupsPartition | pages/main.py:38 | The per-date groups together hold the month's order lines, each exactly once. |
| Timeline.Rows2016 | pages/graph.py:18 | The timeline's rows are exactly the table's rows whose order date falls in 2016, each as many times as the table has it. |
| Timeline.WeekRowsMultiset | pages/graph.py:21 | A week's rows are the table's 2016 rows of that ISO week, each as many times as the table has it. |
| Timeline.WeekGroupsPartition | pages/graph.py:21 | The week groups together hold the 2016 rows, each exactly once. |
| Timeline.TimelineIgnoresOtherYears | pages/graph.py:18 | Inserting rows of other years anywhere leaves the timeline unchanged. |
| Timeline.BucketKeyIsWeek | pages/graph.py:21 | Two 2016 rows share the (calendar year, ISO week) key exactly when they share the ISO week. |
| Timeline.WeekMonday2016 | pages/graph.py:21 | For a 2016 date, the ISO week is in 1..53 and fixes the Monday of the date's week. Week 53 holds exactly 1-3 January. |
| Timeline.SameBucketSameMonday | pages/graph.py:21 | Two 2016 dates share a week number exactly when they share a Monday, so normalised dates never merge two buckets. |
| Timeline.DecemberNotWeek53 | pages/graph.py:21 | No December 2016 date falls in week 53, so the 1-3 January bucket is separate from every December bucket. |
| Timeline.EarliestOrderDate | pages/graph.py:26 | The bucket date is the order date of one of the bucket's rows, and no row of the bucket is earlier. |
| Timeline.WeekGroups | pages/graph.py:21 | One group per ISO week with 2016 orders, in ascending week order. Each group holds exactly that week's 2016 rows. |
| Timeline.WeeklyBuckets | pages/graph.py:25-34 | One bucket per week group. Date is the earliest order date; Days_to_Ship and Discount are means; Profit, Quantity and Sales are sums over the week's rows; the ratio is profit / sales. |
| Timeline.Normalise | pages/graph.py:38 | The new date is a Monday, on or at most six days before the old date, and nothing but the date changes. |
| Timeline.WeeklyTimeline | pages/graph.py:38-39 | One row per bucket. Every date is a Monday, dates are strictly ascending, and each row is a normalised bucket. |
| Timeline.MondaysDistinct | pages/graph.py:38 | Different buckets get different Mondays. |
| Timeline.TimelineRow | pages/graph.py:25-38 | Every timeline row is the bucket of a week w with 2016 orders. Its date is the Monday of that week's earliest order date; its means, sums and ratio are over that week's rows. |
| Timeline.TimelineCount | pages/graph.py:21 | There are as many timeline rows as distinct ISO weeks among the 2016 orders. |
| Timeline.TimelineConserve | pages/graph.py:29-31 | Timeline Sales, Profit and Quantity sum to the totals over the 2016 rows. |
| Timeline.TimelineDiscountWithin | pages/graph.py:28 | When every 2016 order's discount lies in lo..hi, so does every timeline row's mean discount; other years' orders are unconstrained. |
| Timeline.TimelineShipDaysWithin | pages/graph.py:27 | When every 2016 order ships between 0 and `most` days after ordering, each row's mean days to ship lies in 0..most; other years' orders are unconstrained. |
| Tables.SelectMultiset | pages/main.py:16 | A filter keeps every row with the wanted key exactly as often as the table has it, and drops every other row. |
| Tables.GroupBy | pages/main.py:20 | Groups have keys in the range and strictly ascending keys. Each group is non-empty and holds exactly the rows with its key. |
| Tables.GroupByPartitions | pages/main.py:20 | When every key is in range, the groups together are a permutation of the rows. |
| Tables.GroupCountAll | pages/main.py:20 | When every key is in range, there are as many groups as distinct keys. |
| Tables.TotalPermutation | pages/main.py:20 | A sum does not depend on row order. |
| Tables.Mean | pages/graph.py:27-28 | The mean of a non-empty column times the number of rows is the column's total. |
| Tables.MeanBounds | pages/graph.py:27-28 | A mean lies between any lower and upper bound of the column. |
| Tables.SortBy | pages/main.py:26 | The result is sorted by the key and has the input's rows. |
| Tables.SortByPermutes | pages/main.py:26 | Sorting is a permutation of its input. |
| Tables.SortByStrict | pages/graph.py:39 | Sorting rows with pairwise distinct keys gives strictly ascending keys. |

## Left out

- Loading the spreadsheet with `pd.read_excel`: the model takes the order lines as a sequence.
- All page layout and figure construction: the Dash layouts, the app shell, the sidebar and the cards.
- The date-to-string formatting on the table page.
- The card text formatting and rounding.
- IEEE floating point: sums, means and ratios are over `real`. pandas' inf/NaN for zero sales becomes `None`.
- The debug print of the timeline dates.
- The commented-out monthly grouping and returns series.
- The dropdowns with empty options, and the bubble chart's hard-coded demo frame: neither derives anything from the orders.
- Time of day: dates are whole days.
- Missing values: the model's records have no missing (NaN) fields, so none of the following is modelled. A row with a missing Order Date has a NaN year and is dropped by the year filters (pages/main.py:16, pages/main.py:37, pages/graph.py:18) before any grouping. A row with a missing Ship Date passes the 2016 filter and stays in its week bucket: its Days to Ship is NaN and the mean skips it, while the sums and the Discount mean still count it.
- Features the code does not contain: the date-range filter, the granularity switch, the bubble breakdown, the returns join and the add-row form.
- Tables.SortBy: `sort_values` uses an unstable quicksort, so the order among products with equal quantity is unspecified. The model sorts stably, and every property stated about the top table holds for any tie order.
- Summary.MonthName: requires a month number in 1..12. Pandas' month column never holds anything else, and `calendar.month_name[0]` (the empty string) is unreachable.
- Timeline.WeekGroups: groups by the ISO week alone, because every remaining row has calendar year 2016. Timeline.BucketKeyIsWeek shows only that two 2016 rows have equal (year, week) keys exactly when they have equal ISO weeks.
- Summary.SummarizeSalesData: its own contract gives only the row bounds. The properties of its two parts are stated on MonthlySales and TopProducts.
