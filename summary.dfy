/** The home page's two summaries: the year summary (monthly sales and profit,
    and the ten products sold in the largest quantity) and the month summary
    (sales, profit and order lines per order date). */
module Summary {
  import opened Calendar
  import opened Tables
  import opened Orders

  // ---------------------------------------------------------------- months

  /** The English month names, January first. */
  const MonthNames: seq<string> := ["January", "February", "March", "April", "May", "June",
    "July", "August", "September", "October", "November", "December"]

  /** The English name of month m. */
  function MonthName(m: int): (name: string)
    requires 1 <= m <= 12
    ensures name in MonthNames
  {
    MonthNames[m - 1]
  }

  /** The first position of x in s, or -1 when x does not occur. */
  function Position(s: seq<string>, x: string): (i: int)
    ensures -1 <= i < |s|
    ensures i == -1 <==> x !in s
    ensures i >= 0 ==> s[i] == x && x !in s[..i]
  {
    if s == [] then -1
    else if s[0] == x then 0
    else
      var j := Position(s[1..], x);
      assert s[1..] == s[..|s|][1..];
      if j == -1 then -1
      else
        assert s[..j + 1] == [s[0]] + s[1..][..j];
        j + 1
  }

  /** The month number whose English name is `name`, if there is one. */
  function MonthNumber(name: string): (m: Option<int>)
    ensures m.Some? ==> 1 <= m.value <= 12 && MonthName(m.value) == name
    ensures m.None? <==> name !in MonthNames
  {
    var i := Position(MonthNames, name);
    if i < 0 then None else Some(i + 1)
  }

  /** The month names tell the months apart: a month's name leads back to it. */
  lemma MonthNameRoundTrip(m: int)
    requires 1 <= m <= 12
    ensures MonthNumber(MonthName(m)) == Some(m)
  {
    assert NoDuplicates(MonthNames) by {
      forall a, b | 0 <= a < b < 12 ensures MonthNames[a] != MonthNames[b] {
        DifferentNames(a, b);
      }
    }
  }

  /** No two month names are alike: they differ in length, first letter or third letter. */
  lemma DifferentNames(a: int, b: int)
    requires 0 <= a < b < 12
    ensures MonthNames[a] != MonthNames[b]
  {
    var x, y := MonthNames[a], MonthNames[b];
    assert |x| != |y| || x[0] != y[0] || x[2] != y[2];
  }

  // ---------------------------------------------------------- year summary

  /** The orders placed in calendar year `year`, in table order, each as
      often as the table has it. */
  function YearOrders(rows: seq<Record>, year: int): (r: seq<Record>)
    ensures forall i :: 0 <= i < |r| ==> r[i] in rows && r[i].orderDate.year == year
    ensures forall i :: 0 <= i < |rows| && rows[i].orderDate.year == year ==> rows[i] in r
    ensures forall x :: multiset(r)[x] == if x.orderDate.year == year then multiset(rows)[x] else 0
  {
    SelectMultiset(rows, OrderYear, year);
    Select(rows, OrderYear, year)
  }

  /** The orders of that year placed in month m. */
  function MonthRows(rows: seq<Record>, year: int, m: int): seq<Record> {
    Select(YearOrders(rows, year), OrderMonth, m)
  }

  /** A month's rows are the table's orders of that year and month, each as
      often as the table has it. */
  lemma MonthRowsMultiset(rows: seq<Record>, year: int, m: int)
    ensures forall x :: multiset(MonthRows(rows, year, m))[x] ==
              (if x.orderDate.year == year && x.orderDate.month == m then multiset(rows)[x] else 0)
  {
    SelectMultiset(YearOrders(rows, year), OrderMonth, m);
  }

  /** One row of the monthly table. */
  datatype MonthSummary = MonthSummary(month: int, monthName: string, sales: real, profit: real, profitRatio: Option<real>)

  function MonthSales(s: MonthSummary): real { s.sales }
  function MonthProfit(s: MonthSummary): real { s.profit }

  function SummarizeMonth(g: Group<Record>): MonthSummary
    requires 1 <= g.key <= 12
  {
    var sales := Total(g.rows, SalesOf);
    var profit := Total(g.rows, ProfitOf);
    MonthSummary(g.key, MonthName(g.key), sales, profit, ProfitRatio(profit, sales))
  }

  function SummarizeMonths(gs: seq<Group<Record>>): (ms: seq<MonthSummary>)
    requires forall i :: 0 <= i < |gs| ==> 1 <= gs[i].key <= 12
    ensures |ms| == |gs|
    ensures forall i :: 0 <= i < |gs| ==> ms[i] == SummarizeMonth(gs[i])
  {
    if gs == [] then []
    else
      var tail := gs[1..];
      assert forall i :: 0 <= i < |tail| ==> tail[i] == gs[i + 1];
      [SummarizeMonth(gs[0])] + SummarizeMonths(tail)
  }

  function MonthGroups(rows: seq<Record>, year: int): (gs: seq<Group<Record>>)
    ensures forall i :: 0 <= i < |gs| ==> 1 <= gs[i].key <= 12
  {
    GroupBy(YearOrders(rows, year), OrderMonth, 1, 12)
  }

  /** Sales and profit of the year, month by month: one row per month with
      orders, in ascending month order, holding that month's sums, its name
      and its profit ratio. */
  function MonthlySales(rows: seq<Record>, year: int): (ms: seq<MonthSummary>)
    ensures |ms| <= 12
    ensures forall i :: 0 <= i < |ms| ==>
      && 1 <= ms[i].month <= 12
      && MonthRows(rows, year, ms[i].month) != []
      && ms[i].monthName == MonthName(ms[i].month)
      && ms[i].sales == Total(MonthRows(rows, year, ms[i].month), SalesOf)
      && ms[i].profit == Total(MonthRows(rows, year, ms[i].month), ProfitOf)
      && ms[i].profitRatio == ProfitRatio(ms[i].profit, ms[i].sales)
    ensures forall i, j :: 0 <= i < j < |ms| ==> ms[i].month < ms[j].month
  {
    SummarizeMonths(MonthGroups(rows, year))
  }

  /** Every month in which the year has an order has its row. */
  lemma MonthlySalesComplete(rows: seq<Record>, year: int, r: Record)
    requires r in rows && r.orderDate.year == year
    ensures exists i :: 0 <= i < |MonthlySales(rows, year)| && MonthlySales(rows, year)[i].month == r.orderDate.month
  {
    var gs := MonthGroups(rows, year);
    var yr := YearOrders(rows, year);
    var k :| 0 <= k < |rows| && rows[k] == r;
    var j :| 0 <= j < |yr| && yr[j] == r;
    var i := GroupByComplete(yr, OrderMonth, 1, 12, j);
    assert MonthlySales(rows, year)[i].month == gs[i].key;
  }

  /** The monthly table has one row per distinct month of the year's orders. */
  lemma MonthlySalesCount(rows: seq<Record>, year: int)
    ensures |MonthlySales(rows, year)| == |Image(YearOrders(rows, year), OrderMonth)|
  {
    var yr := YearOrders(rows, year);
    assert forall i :: 0 <= i < |yr| ==> 1 <= OrderMonth(yr[i]) <= 12;
    GroupCountAll(yr, OrderMonth, 1, 12);
    assert |MonthlySales(rows, year)| == |MonthGroups(rows, year)|;
  }

  lemma {:induction false} SummarizeMonthsTotals(gs: seq<Group<Record>>)
    requires forall i :: 0 <= i < |gs| ==> 1 <= gs[i].key <= 12
    ensures Total(SummarizeMonths(gs), MonthSales) == Total(Flatten(gs), SalesOf)
    ensures Total(SummarizeMonths(gs), MonthProfit) == Total(Flatten(gs), ProfitOf)
  {
    if gs != [] {
      SummarizeMonthsTotals(gs[1..]);
      assert SummarizeMonths(gs)[1..] == SummarizeMonths(gs[1..]);
      TotalAppend(gs[0].rows, Flatten(gs[1..]), SalesOf);
      TotalAppend(gs[0].rows, Flatten(gs[1..]), ProfitOf);
    }
  }

  /** Summed over all months, sales and profit are the year's totals: no
      order is dropped or counted twice. */
  lemma MonthlySalesConserve(rows: seq<Record>, year: int)
    ensures Total(MonthlySales(rows, year), MonthSales) == Total(YearOrders(rows, year), SalesOf)
    ensures Total(MonthlySales(rows, year), MonthProfit) == Total(YearOrders(rows, year), ProfitOf)
  {
    var yr := YearOrders(rows, year);
    var gs := MonthGroups(rows, year);
    SummarizeMonthsTotals(gs);
    GroupByPartitions(yr, OrderMonth, 1, 12);
    TotalPermutation(Flatten(gs), yr, SalesOf);
    TotalPermutation(Flatten(gs), yr, ProfitOf);
  }

  // ----------------------------------------------------------- top products

  /** One row of the product table: a product and the quantity sold. */
  datatype ProductTotal = ProductTotal(product: ProductKey, quantity: int)

  function TotalProduct(p: ProductTotal): ProductKey { p.product }

  /** Sort key for descending quantity. */
  function NegQuantity(p: ProductTotal): int { -p.quantity }

  /** Quantity of product k sold over the rows. */
  function ProductQuantity(rows: seq<Record>, k: ProductKey): int {
    Tally(Select(rows, ProductOf, k), QuantityOf)
  }

  function ProductsOf(rows: seq<Record>): (ks: seq<ProductKey>)
    ensures |ks| == |rows|
    ensures forall i :: 0 <= i < |rows| ==> ks[i] == ProductOf(rows[i])
  {
    if rows == [] then [] else [ProductOf(rows[0])] + ProductsOf(rows[1..])
  }

  function ProductTotalsFor(rows: seq<Record>, ks: seq<ProductKey>): (ps: seq<ProductTotal>)
    ensures |ps| == |ks|
    ensures forall i :: 0 <= i < |ks| ==> ps[i] == ProductTotal(ks[i], ProductQuantity(rows, ks[i]))
  {
    if ks == [] then [] else [ProductTotal(ks[0], ProductQuantity(rows, ks[0]))] + ProductTotalsFor(rows, ks[1..])
  }

  /** One row per distinct product of the rows, with its summed quantity. */
  function ProductTotals(rows: seq<Record>): (ps: seq<ProductTotal>)
    ensures KeysDistinct(ps, TotalProduct)
    ensures forall i :: 0 <= i < |ps| ==>
      ps[i].quantity == ProductQuantity(rows, ps[i].product) && ps[i].product in ProductsOf(rows)
  {
    var ks := Distinct(ProductsOf(rows));
    var ps := ProductTotalsFor(rows, ks);
    forall i, j | 0 <= i < j < |ps| ensures TotalProduct(ps[i]) != TotalProduct(ps[j]) {
      assert ps[i].product == ks[i] && ps[j].product == ks[j];
    }
    ps
  }

  /** Every product of the rows has its row. */
  lemma ProductTotalsComplete(rows: seq<Record>, i: int)
    requires 0 <= i < |rows|
    ensures exists j :: 0 <= j < |ProductTotals(rows)| && ProductTotals(rows)[j].product == ProductOf(rows[i])
  {
    var ks := Distinct(ProductsOf(rows));
    assert ProductsOf(rows)[i] in ks;
    var j :| 0 <= j < |ks| && ks[j] == ProductOf(rows[i]);
    assert ProductTotals(rows)[j].product == ks[j];
  }

  /** The product rows are as many as the distinct products. */
  lemma ProductSet(yr: seq<Record>)
    ensures |ProductTotals(yr)| == |Image(yr, ProductOf)|
  {
    var ks := Distinct(ProductsOf(yr));
    DistinctCardinality(ks);
    var a := set k | k in ks;
    var b := Image(yr, ProductOf);
    forall k | k in a ensures k in b {
      var i :| 0 <= i < |ProductsOf(yr)| && ProductsOf(yr)[i] == k;
      assert ProductOf(yr[i]) == k;
    }
    forall k | k in b ensures k in a {
      var r :| r in yr && ProductOf(r) == k;
      var i :| 0 <= i < |yr| && yr[i] == r;
      assert ProductsOf(yr)[i] == k;
    }
    assert a == b;
  }

  /** The products of the year's orders by descending quantity. */
  function RankedProducts(rows: seq<Record>, year: int): (ps: seq<ProductTotal>)
    ensures SortedBy(ps, NegQuantity)
    ensures multiset(ps) == multiset(ProductTotals(YearOrders(rows, year)))
  {
    SortByPermutes(ProductTotals(YearOrders(rows, year)), NegQuantity);
    SortBy(ProductTotals(YearOrders(rows, year)), NegQuantity)
  }

  function Min(a: int, b: int): int { if a < b then a else b }

  /** The ten products with the largest quantity sold in the year (fewer when
      fewer were sold), largest first, each with its summed quantity. */
  function TopProducts(rows: seq<Record>, year: int): (top: seq<ProductTotal>)
    ensures |top| <= 10
    ensures forall i, j :: 0 <= i < j < |top| ==> top[i].quantity >= top[j].quantity
    ensures forall i :: 0 <= i < |top| ==>
      top[i].quantity == ProductQuantity(YearOrders(rows, year), top[i].product)
      && Select(YearOrders(rows, year), ProductOf, top[i].product) != []
  {
    var yr := YearOrders(rows, year);
    var ranked := SortBy(ProductTotals(yr), NegQuantity);
    TopTenOfRanking(yr, ranked);
    TopTen(ranked)
  }

  /** Each of the first ten ranked products is a product of the rows, with
      the rows' quantity. */
  lemma TopTenOfRanking(yr: seq<Record>, ranked: seq<ProductTotal>)
    requires ranked == SortBy(ProductTotals(yr), NegQuantity)
    ensures |TopTen(ranked)| <= 10
    ensures forall i, j :: 0 <= i < j < |TopTen(ranked)| ==> TopTen(ranked)[i].quantity >= TopTen(ranked)[j].quantity
    ensures forall i :: 0 <= i < |TopTen(ranked)| ==>
      TopTen(ranked)[i].quantity == ProductQuantity(yr, TopTen(ranked)[i].product)
      && Select(yr, ProductOf, TopTen(ranked)[i].product) != []
  {
    var top := TopTen(ranked);
    assert SortedBy(ranked, NegQuantity);
    forall i | 0 <= i < |top|
      ensures top[i].quantity == ProductQuantity(yr, top[i].product)
      ensures Select(yr, ProductOf, top[i].product) != []
    {
      ProductOfTotal(yr, ranked, top[i]);
    }
  }

  /** A ranked product is a product of the rows, with the rows' quantity. */
  lemma ProductOfTotal(yr: seq<Record>, ranked: seq<ProductTotal>, p: ProductTotal)
    requires ranked == SortBy(ProductTotals(yr), NegQuantity)
    requires p in ranked
    ensures p.quantity == ProductQuantity(yr, p.product)
    ensures Select(yr, ProductOf, p.product) != []
  {
    var ps := ProductTotals(yr);
    var i :| 0 <= i < |ranked| && ranked[i] == p;
    var j :| 0 <= j < |ps| && ps[j] == p;
    var k :| 0 <= k < |ProductsOf(yr)| && ProductsOf(yr)[k] == p.product;
    assert ProductOf(yr[k]) == p.product;
  }

  /** The top table has min(10, number of distinct products) rows. */
  lemma TopProductsCount(rows: seq<Record>, year: int)
    ensures |TopProducts(rows, year)| == Min(10, |Image(YearOrders(rows, year), ProductOf)|)
  {
    ProductSet(YearOrders(rows, year));
  }

  /** The top table names each product at most once. */
  lemma TopProductsDistinct(rows: seq<Record>, year: int)
    ensures forall i, j :: 0 <= i < j < |TopProducts(rows, year)| ==>
      TopProducts(rows, year)[i].product != TopProducts(rows, year)[j].product
  {
    var yr := YearOrders(rows, year);
    SortByKeepsKeysDistinct(ProductTotals(yr), NegQuantity, TotalProduct);
  }

  /** A product of the year that did not make the table sold no more than the
      last product that did. */
  lemma TopProductsOmitted(rows: seq<Record>, year: int, r: Record)
    requires r in rows && r.orderDate.year == year
    requires forall i :: 0 <= i < |TopProducts(rows, year)| ==> TopProducts(rows, year)[i].product != ProductOf(r)
    ensures TopProducts(rows, year) != []
    ensures ProductQuantity(YearOrders(rows, year), ProductOf(r)) <= TopProducts(rows, year)[|TopProducts(rows, year)| - 1].quantity
  {
    var yr := YearOrders(rows, year);
    var k :| 0 <= k < |rows| && rows[k] == r;
    var m :| 0 <= m < |yr| && yr[m] == r;
    var i := ProductRank(yr, m);
    var ranked := RankedProducts(rows, year);
    assert TopProducts(rows, year) == TopTen(ranked);
    forall t | 0 <= t < |TopTen(ranked)| ensures ranked[t].product != ranked[i].product {
      assert TopTen(ranked)[t] == ranked[t];
    }
    TopTenOmitted(ranked, i);
  }

  /** The first ten entries of a ranking (all of them when fewer). */
  function TopTen(ranked: seq<ProductTotal>): (top: seq<ProductTotal>)
    ensures |top| == Min(10, |ranked|)
    ensures forall t :: 0 <= t < |top| ==> top[t] == ranked[t]
  {
    ranked[..Min(10, |ranked|)]
  }

  /** In a list by descending quantity, an entry left out of the first ten sold
      no more than the last of them. */
  lemma TopTenOmitted(ranked: seq<ProductTotal>, i: int)
    requires SortedBy(ranked, NegQuantity) && 0 <= i < |ranked|
    requires forall t :: 0 <= t < |TopTen(ranked)| ==> ranked[t].product != ranked[i].product
    ensures TopTen(ranked) != []
    ensures ranked[i].quantity <= TopTen(ranked)[|TopTen(ranked)| - 1].quantity
  {
    assert NegQuantity(ranked[9]) <= NegQuantity(ranked[i]);
  }

  /** The position of the product of row m among the ranked products, which
      carry its quantity. */
  lemma ProductRank(yr: seq<Record>, m: int) returns (i: int)
    requires 0 <= m < |yr|
    ensures 0 <= i < |SortBy(ProductTotals(yr), NegQuantity)|
    ensures SortBy(ProductTotals(yr), NegQuantity)[i].product == ProductOf(yr[m])
    ensures SortBy(ProductTotals(yr), NegQuantity)[i].quantity == ProductQuantity(yr, ProductOf(yr[m]))
  {
    var ps := ProductTotals(yr);
    var ranked := SortBy(ps, NegQuantity);
    ProductTotalsComplete(yr, m);
    var j :| 0 <= j < |ps| && ps[j].product == ProductOf(yr[m]);
    assert ps[j] in ranked;
    i :| 0 <= i < |ranked| && ranked[i] == ps[j];
  }

  /** Both results of the year summary. */
  datatype YearSummary = YearSummary(monthly: seq<MonthSummary>, topProducts: seq<ProductTotal>)

  /** The year summary of `year`: monthly sums and the top ten products. */
  function SummarizeSalesData(rows: seq<Record>, year: int): (s: YearSummary)
    ensures |s.monthly| <= 12 && |s.topProducts| <= 10
  {
    YearSummary(MonthlySales(rows, year), TopProducts(rows, year))
  }

  /** Orders of other years do not change the year summary. */
  lemma SummaryIgnoresOtherYears(before: seq<Record>, others: seq<Record>, after: seq<Record>, year: int)
    requires forall r :: r in others ==> r.orderDate.year != year
    ensures SummarizeSalesData(before + others + after, year) == SummarizeSalesData(before + after, year)
  {
    YearOrdersIgnoresOtherYears(before, others, after, year);
  }

  lemma YearOrdersIgnoresOtherYears(before: seq<Record>, others: seq<Record>, after: seq<Record>, year: int)
    requires forall r :: r in others ==> r.orderDate.year != year
    ensures YearOrders(before + others + after, year) == YearOrders(before + after, year)
  {
    SelectNone(others, OrderYear, year);
    SelectAppend(before, others, OrderYear, year);
    assert Select(before + others, OrderYear, year) == Select(before, OrderYear, year);
    SelectAppend(before + others, after, OrderYear, year);
    SelectAppend(before, after, OrderYear, year);
  }

  // ---------------------------------------------------------- month summary

  /** The orders placed in month m of year y, in table order, each as often
      as the table has it. */
  function MonthOrders(rows: seq<Record>, y: int, m: int): (r: seq<Record>)
    ensures forall i :: 0 <= i < |r| ==> r[i] in rows && r[i].orderDate.year == y && r[i].orderDate.month == m
    ensures forall i :: 0 <= i < |rows| && rows[i].orderDate.year == y && rows[i].orderDate.month == m ==> rows[i] in r
    ensures forall x :: multiset(r)[x] ==
              (if x.orderDate.year == y && x.orderDate.month == m then multiset(rows)[x] else 0)
  {
    SelectMultiset(rows, YearMonthOf, (y, m));
    Select(rows, YearMonthOf, (y, m))
  }

  /** The orders placed on date d. */
  function DateOrders(rows: seq<Record>, d: Date): seq<Record> {
    Select(rows, OrderDateOf, d)
  }

  /** A date's rows are the table's orders of that date, each as often as the
      table has it. */
  lemma DateOrdersMultiset(rows: seq<Record>, d: Date)
    ensures forall x :: multiset(DateOrders(rows, d))[x] == if x.orderDate == d then multiset(rows)[x] else 0
  {
    SelectMultiset(rows, OrderDateOf, d);
  }

  /** One row of the daily table. */
  datatype DaySummary = DaySummary(orderDate: Date, sales: real, profit: real, count: int, profitRatio: Option<real>, day: int)

  function DaySales(s: DaySummary): real { s.sales }
  function DayProfit(s: DaySummary): real { s.profit }
  function DayCount(s: DaySummary): int { s.count }

  function SummarizeDay(g: Group<Record>): DaySummary
    requires g.rows != []
  {
    var sales := Total(g.rows, SalesOf);
    var profit := Total(g.rows, ProfitOf);
    var date := g.rows[0].orderDate;
    DaySummary(date, sales, profit, |g.rows|, ProfitRatio(profit, sales), date.day)
  }

  function SummarizeDays(gs: seq<Group<Record>>): (ds: seq<DaySummary>)
    requires forall i :: 0 <= i < |gs| ==> gs[i].rows != []
    ensures |ds| == |gs|
    ensures forall i :: 0 <= i < |gs| ==> ds[i] == SummarizeDay(gs[i])
  {
    if gs == [] then [] else [SummarizeDay(gs[0])] + SummarizeDays(gs[1..])
  }

  function DayGroups(rows: seq<Record>, y: int, m: int): (gs: seq<Group<Record>>)
    ensures forall i :: 0 <= i < |gs| ==> gs[i].rows != []
  {
    GroupBy(MonthOrders(rows, y, m), OrderDay, 1, 31)
  }

  /** The rows of a day group are the orders of the table on that group's date. */
  lemma DayGroupRows(rows: seq<Record>, y: int, m: int, i: int)
    requires 0 <= i < |DayGroups(rows, y, m)|
    ensures var g := DayGroups(rows, y, m)[i];
      && g.rows[0].orderDate.year == y && g.rows[0].orderDate.month == m && g.rows[0].orderDate.day == g.key
      && g.rows == DateOrders(rows, g.rows[0].orderDate)
  {
    var g := DayGroups(rows, y, m)[i];
    GroupRow(MonthOrders(rows, y, m), OrderDay, 1, 31, i);
    var d := g.rows[0].orderDate;
    SelectSelect(rows, YearMonthOf, (y, m), OrderDay, g.key, OrderDateOf, d);
  }

  /** Sales, profit and the number of order lines per order date of month m of
      year y: one row per date with orders, in ascending date order; each row's
      Count is the number of the table's order lines on that date, its sums are
      over them, and its Day is the date's day of the month. */
  function AggregateSalesData(rows: seq<Record>, y: int, m: int): (ds: seq<DaySummary>)
    ensures forall i :: 0 <= i < |ds| ==>
      && ds[i].orderDate.year == y && ds[i].orderDate.month == m
      && ds[i].day == ds[i].orderDate.day && 1 <= ds[i].day <= 31
      && ds[i].count == |DateOrders(rows, ds[i].orderDate)| > 0
      && ds[i].sales == Total(DateOrders(rows, ds[i].orderDate), SalesOf)
      && ds[i].profit == Total(DateOrders(rows, ds[i].orderDate), ProfitOf)
      && ds[i].profitRatio == ProfitRatio(ds[i].profit, ds[i].sales)
    ensures forall i, j :: 0 <= i < j < |ds| ==> DayNumber(ds[i].orderDate) < DayNumber(ds[j].orderDate)
  {
    var gs := DayGroups(rows, y, m);
    var ds := SummarizeDays(gs);
    forall i | 0 <= i < |ds|
      ensures ds[i].orderDate.year == y && ds[i].orderDate.month == m && ds[i].orderDate.day == gs[i].key
      ensures ds[i].count == |DateOrders(rows, ds[i].orderDate)|
      ensures ds[i].sales == Total(DateOrders(rows, ds[i].orderDate), SalesOf)
      ensures ds[i].profit == Total(DateOrders(rows, ds[i].orderDate), ProfitOf)
    {
      DayGroupRows(rows, y, m, i);
    }
    forall i, j | 0 <= i < j < |ds| ensures DayNumber(ds[i].orderDate) < DayNumber(ds[j].orderDate) {
      DayNumberOrder(ds[i].orderDate, ds[j].orderDate);
    }
    ds
  }

  /** Every date of the month that has an order has its row. */
  lemma AggregateComplete(rows: seq<Record>, y: int, m: int, r: Record)
    requires r in rows && r.orderDate.year == y && r.orderDate.month == m
    ensures exists i :: 0 <= i < |AggregateSalesData(rows, y, m)| && AggregateSalesData(rows, y, m)[i].orderDate == r.orderDate
  {
    var mo := MonthOrders(rows, y, m);
    var gs := DayGroups(rows, y, m);
    var k :| 0 <= k < |rows| && rows[k] == r;
    var j :| 0 <= j < |mo| && mo[j] == r;
    var i := GroupByComplete(mo, OrderDay, 1, 31, j);
    DayGroupRows(rows, y, m, i);
    assert AggregateSalesData(rows, y, m)[i].orderDate == r.orderDate;
  }

  lemma {:induction false} SummarizeDaysTotals(gs: seq<Group<Record>>)
    requires forall i :: 0 <= i < |gs| ==> gs[i].rows != []
    ensures Total(SummarizeDays(gs), DaySales) == Total(Flatten(gs), SalesOf)
    ensures Total(SummarizeDays(gs), DayProfit) == Total(Flatten(gs), ProfitOf)
    ensures Tally(SummarizeDays(gs), DayCount) == |Flatten(gs)|
  {
    if gs != [] {
      SummarizeDaysTotals(gs[1..]);
      assert SummarizeDays(gs)[1..] == SummarizeDays(gs[1..]);
      TotalAppend(gs[0].rows, Flatten(gs[1..]), SalesOf);
      TotalAppend(gs[0].rows, Flatten(gs[1..]), ProfitOf);
    }
  }

  /** The Counts add up to the month's number of order lines, and the daily
      sales and profit to the month's totals. */
  lemma AggregateConserve(rows: seq<Record>, y: int, m: int)
    ensures Tally(AggregateSalesData(rows, y, m), DayCount) == |MonthOrders(rows, y, m)|
    ensures Total(AggregateSalesData(rows, y, m), DaySales) == Total(MonthOrders(rows, y, m), SalesOf)
    ensures Total(AggregateSalesData(rows, y, m), DayProfit) == Total(MonthOrders(rows, y, m), ProfitOf)
  {
    var mo := MonthOrders(rows, y, m);
    var gs := DayGroups(rows, y, m);
    SummarizeDaysTotals(gs);
    DayGroupsPartition(rows, y, m);
    assert |multiset(Flatten(gs))| == |Flatten(gs)|;
    TotalPermutation(Flatten(gs), mo, SalesOf);
    TotalPermutation(Flatten(gs), mo, ProfitOf);
  }

  /** The day groups together hold the month's orders, each once. */
  lemma DayGroupsPartition(rows: seq<Record>, y: int, m: int)
    ensures multiset(Flatten(DayGroups(rows, y, m))) == multiset(MonthOrders(rows, y, m))
  {
    var mo := MonthOrders(rows, y, m);
    forall x | x in mo ensures 1 <= OrderDay(x) <= 31 {
      assert DaysInMonth(x.orderDate.year, x.orderDate.month) <= 31;
    }
    GroupByPartitions(mo, OrderDay, 1, 31);
  }
}
