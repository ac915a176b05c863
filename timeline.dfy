/** The graphs page's weekly timeline of 2016: days to ship per order line,
    the 2016 orders bucketed by (calendar year, ISO week number), per-bucket
    sums, means and earliest order date, the profit ratio, each bucket's date
    moved to the Monday of its week, and the buckets sorted by that date. */
module Timeline {
  import opened Calendar
  import opened Tables
  import opened Orders

  /** The only year the timeline shows. */
  const TimelineYear := 2016

  /** The orders placed in 2016, in table order, each as often as the table
      has it. */
  function Rows2016(rows: seq<Record>): (r: seq<Record>)
    ensures forall i :: 0 <= i < |r| ==> r[i] in rows && r[i].orderDate.year == TimelineYear
    ensures forall i :: 0 <= i < |rows| && rows[i].orderDate.year == TimelineYear ==> rows[i] in r
    ensures forall x :: multiset(r)[x] == if x.orderDate.year == TimelineYear then multiset(rows)[x] else 0
  {
    SelectMultiset(rows, OrderYear, TimelineYear);
    Select(rows, OrderYear, TimelineYear)
  }

  /** The ISO week number of a row's order date. */
  function WeekOf(r: Record): int {
    IsoCalendar(r.orderDate).week
  }

  /** The bucket key: calendar year (not ISO year) and ISO week number. */
  function BucketKey(r: Record): (int, int) {
    (r.orderDate.year, WeekOf(r))
  }

  // ------------------------------------------------------ weeks of 2016

  /** Day number of the Monday that starts ISO week w as it is numbered in
      calendar year 2016: week 53 is the week of 28 December 2015, which holds
      1 .. 3 January 2016; week 1 starts on 4 January 2016. */
  function Monday2016(w: int): int {
    if w == 53 then 735960 else 735967 + 7 * (w - 1)
  }

  lemma Mondays2016()
    ensures DaysBeforeYear(2016) == 735963 && YearLength(2016) == 366
    ensures IsoWeekOneMonday(2015) == 735596
    ensures IsoWeekOneMonday(2016) == 735967
    ensures IsoWeekOneMonday(2017) == 736331
  {
    assert DayNumber(CivilDate(2015, 1, 1)) == 735599;
    assert DayNumber(CivilDate(2016, 1, 1)) == 735964;
    assert DayNumber(CivilDate(2017, 1, 1)) == 736330;
  }

  /** The week arithmetic of 2016 on plain day numbers. */
  lemma {:induction false} WeekOfOrdinal2016(t: int)
    requires 735963 < t <= 736329
    ensures var iso := IsoWeekDate(2016, t, 735596, 735967, 736331);
      && 1 <= iso.week <= 53
      && (iso.week == 53 <==> t <= 735966)
      && t - WeekdayOfOrdinal(t) == Monday2016(iso.week)
  {
    OffsetFromMonday(t, 735967);
    if t < 735967 {
      assert t == 735964 || t == 735965 || t == 735966;
    }
  }

  /** In 2016 the week number fixes the Monday of the week: the Monday of a
      2016 order date is Monday2016 of its ISO week number, and week 53 holds
      exactly 1 .. 3 January. */
  lemma WeekMonday2016(d: Date)
    requires d.year == TimelineYear
    ensures 1 <= IsoCalendar(d).week <= 53
    ensures DayNumber(WeekStart(d)) == Monday2016(IsoCalendar(d).week)
    ensures IsoCalendar(d).week == 53 <==> d.month == 1 && d.day <= 3
  {
    Mondays2016();
    DayNumberWithinYear(d);
    WeekOfOrdinal2016(DayNumber(d));
    if d.month > 1 {
      DaysBeforeMonthMonotone(2016, 1, d.month);
    }
  }

  /** Two 2016 dates share a bucket exactly when they share the Monday of
      their week; so 1 .. 3 January 2016 form a bucket of their own, apart
      from every December week. */
  lemma SameBucketSameMonday(a: Date, b: Date)
    requires a.year == TimelineYear && b.year == TimelineYear
    ensures IsoCalendar(a).week == IsoCalendar(b).week <==> WeekStart(a) == WeekStart(b)
  {
    WeekMonday2016(a);
    WeekMonday2016(b);
    DayNumberOrder(WeekStart(a), WeekStart(b));
  }

  /** No December 2016 date is in week 53. */
  lemma DecemberNotWeek53(d: Date)
    requires d.year == TimelineYear && d.month == 12
    ensures IsoCalendar(d).week <= 52
  {
    WeekMonday2016(d);
  }

  // ------------------------------------------------------------- buckets

  /** The earliest order date of the rows, found by position. */
  function EarliestIndex(rows: seq<Record>): (i: int)
    requires rows != []
    ensures 0 <= i < |rows|
    ensures forall j :: 0 <= j < |rows| ==> DayNumber(rows[i].orderDate) <= DayNumber(rows[j].orderDate)
  {
    if |rows| == 1 then 0
    else
      var k := EarliestIndex(rows[1..]) + 1;
      assert forall j :: 1 <= j < |rows| ==> rows[j] == rows[1..][j - 1];
      if DayNumber(rows[0].orderDate) <= DayNumber(rows[k].orderDate) then 0 else k
  }

  /** The earliest order date of the rows: the date of one of them, on or
      before every other. */
  function EarliestOrderDate(rows: seq<Record>): (d: Date)
    requires rows != []
    ensures exists i :: 0 <= i < |rows| && rows[i].orderDate == d
    ensures forall j :: 0 <= j < |rows| ==> DayNumber(d) <= DayNumber(rows[j].orderDate)
  {
    rows[EarliestIndex(rows)].orderDate
  }

  /** One row of the timeline. */
  datatype WeekBucket = WeekBucket(
    date: Date,
    daysToShip: real,
    discount: real,
    profit: real,
    quantity: int,
    sales: real,
    profitRatio: Option<real>)

  function BucketSales(b: WeekBucket): real { b.sales }
  function BucketProfit(b: WeekBucket): real { b.profit }
  function BucketQuantity(b: WeekBucket): int { b.quantity }
  function BucketDay(b: WeekBucket): int { DayNumber(b.date) }

  /** The 2016 orders of ISO week w. */
  function WeekRows(rows: seq<Record>, w: int): seq<Record> {
    Select(Rows2016(rows), WeekOf, w)
  }

  /** A week's rows are the table's 2016 orders of that ISO week, each as
      often as the table has it. */
  lemma WeekRowsMultiset(rows: seq<Record>, w: int)
    ensures forall x :: multiset(WeekRows(rows, w))[x] ==
              (if x.orderDate.year == TimelineYear && WeekOf(x) == w then multiset(rows)[x] else 0)
  {
    SelectMultiset(Rows2016(rows), WeekOf, w);
  }

  function WeekGroups(rows: seq<Record>): (gs: seq<Group<Record>>)
    ensures forall i :: 0 <= i < |gs| ==> 1 <= gs[i].key <= 53 && gs[i].rows == WeekRows(rows, gs[i].key) != []
    ensures forall i, j :: 0 <= i < j < |gs| ==> gs[i].key < gs[j].key
  {
    GroupBy(Rows2016(rows), WeekOf, 1, 53)
  }

  function AggregateWeek(g: Group<Record>): WeekBucket
    requires g.rows != []
  {
    var profit := Total(g.rows, ProfitOf);
    var sales := Total(g.rows, SalesOf);
    WeekBucket(EarliestOrderDate(g.rows), Mean(g.rows, DaysToShipOf), Mean(g.rows, DiscountOf),
      profit, Tally(g.rows, QuantityOf), sales, ProfitRatio(profit, sales))
  }

  function AggregateWeeks(gs: seq<Group<Record>>): (bs: seq<WeekBucket>)
    requires forall i :: 0 <= i < |gs| ==> gs[i].rows != []
    ensures |bs| == |gs|
    ensures forall i :: 0 <= i < |gs| ==> bs[i] == AggregateWeek(gs[i])
  {
    if gs == [] then [] else [AggregateWeek(gs[0])] + AggregateWeeks(gs[1..])
  }

  /** One bucket per ISO week with 2016 orders, in ascending week order:
      Profit, Quantity and Sales are sums over the week's rows, Days to Ship
      and Discount their means, Date the earliest order date, and the profit
      ratio Profit / Sales. */
  function WeeklyBuckets(rows: seq<Record>): (bs: seq<WeekBucket>)
    ensures |bs| == |WeekGroups(rows)|
    ensures forall i :: 0 <= i < |bs| ==>
      var rs := WeekRows(rows, WeekGroups(rows)[i].key);
      && rs != []
      && bs[i].date == EarliestOrderDate(rs)
      && bs[i].daysToShip == Mean(rs, DaysToShipOf)
      && bs[i].discount == Mean(rs, DiscountOf)
      && bs[i].profit == Total(rs, ProfitOf)
      && bs[i].quantity == Tally(rs, QuantityOf)
      && bs[i].sales == Total(rs, SalesOf)
      && bs[i].profitRatio == ProfitRatio(bs[i].profit, bs[i].sales)
  {
    AggregateWeeks(WeekGroups(rows))
  }

  /** The bucket with its date moved to the Monday of that date's week. */
  function Normalise(b: WeekBucket): (n: WeekBucket)
    ensures Weekday(n.date) == 0
    ensures DayNumber(n.date) <= DayNumber(b.date) <= DayNumber(n.date) + 6
    ensures n.(date := b.date) == b
  {
    b.(date := WeekStart(b.date))
  }

  function NormaliseAll(bs: seq<WeekBucket>): (ns: seq<WeekBucket>)
    ensures |ns| == |bs|
    ensures forall i :: 0 <= i < |bs| ==> ns[i] == Normalise(bs[i])
  {
    if bs == [] then [] else [Normalise(bs[0])] + NormaliseAll(bs[1..])
  }

  /** The timeline: the buckets dated by the Monday of their week, in
      strictly ascending date order. */
  function WeeklyTimeline(rows: seq<Record>): (ts: seq<WeekBucket>)
    ensures |ts| == |WeekGroups(rows)|
    ensures forall i :: 0 <= i < |ts| ==> Weekday(ts[i].date) == 0
    ensures forall i, j :: 0 <= i < j < |ts| ==> DayNumber(ts[i].date) < DayNumber(ts[j].date)
    ensures forall i :: 0 <= i < |ts| ==> ts[i] in NormaliseAll(WeeklyBuckets(rows))
  {
    var ns := NormaliseAll(WeeklyBuckets(rows));
    MondaysDistinct(rows);
    SortByStrict(ns, BucketDay);
    SortedWeekdays(ns);
    SortBy(ns, BucketDay)
  }

  /** Different weeks of 2016 have different Mondays. */
  lemma MondaysDistinct(rows: seq<Record>)
    ensures KeysDistinct(NormaliseAll(WeeklyBuckets(rows)), BucketDay)
  {
    var ns := NormaliseAll(WeeklyBuckets(rows));
    forall i, j | 0 <= i < j < |ns| ensures BucketDay(ns[i]) != BucketDay(ns[j]) {
      MondayPairDistinct(rows, i, j);
    }
  }

  lemma MondayPairDistinct(rows: seq<Record>, i: int, j: int)
    requires 0 <= i < j < |WeekGroups(rows)|
    ensures BucketDay(NormaliseAll(WeeklyBuckets(rows))[i]) != BucketDay(NormaliseAll(WeeklyBuckets(rows))[j])
  {
    var gs := WeekGroups(rows);
    BucketMonday(rows, i);
    BucketMonday(rows, j);
    Monday2016Injective(gs[i].key, gs[j].key);
  }

  lemma Monday2016Injective(a: int, b: int)
    requires 1 <= a < b <= 53
    ensures Monday2016(a) != Monday2016(b)
  {
  }

  /** The normalised date of bucket i is Monday2016 of its week. */
  lemma BucketMonday(rows: seq<Record>, i: int)
    requires 0 <= i < |WeekGroups(rows)|
    ensures BucketDay(NormaliseAll(WeeklyBuckets(rows))[i]) == Monday2016(WeekGroups(rows)[i].key)
  {
    var g := WeekGroups(rows)[i];
    var k := EarliestIndex(g.rows);
    GroupRow(Rows2016(rows), WeekOf, 1, 53, i);
    assert g.rows[k] in Rows2016(rows);
    WeekMonday2016(g.rows[k].orderDate);
  }

  lemma SortedWeekdays(ns: seq<WeekBucket>)
    requires forall i :: 0 <= i < |ns| ==> Weekday(ns[i].date) == 0
    ensures forall i :: 0 <= i < |SortBy(ns, BucketDay)| ==> Weekday(SortBy(ns, BucketDay)[i].date) == 0
  {
    var ts := SortBy(ns, BucketDay);
    forall i | 0 <= i < |ts| ensures Weekday(ts[i].date) == 0 {
      var j :| 0 <= j < |ns| && ns[j] == ts[i];
    }
  }

  /** Every timeline row is the bucket of one ISO week w with 2016 orders:
      its sums and means are over that week's rows, and its date is the
      Monday on or at most six days before the week's earliest order date. */
  lemma TimelineRow(rows: seq<Record>, i: int) returns (w: int)
    requires 0 <= i < |WeeklyTimeline(rows)|
    ensures 1 <= w <= 53 && WeekRows(rows, w) != []
    ensures var t, rs := WeeklyTimeline(rows)[i], WeekRows(rows, w);
      && t.date == WeekStart(EarliestOrderDate(rs))
      && DayNumber(t.date) <= DayNumber(EarliestOrderDate(rs)) <= DayNumber(t.date) + 6
      && t.daysToShip == Mean(rs, DaysToShipOf)
      && t.discount == Mean(rs, DiscountOf)
      && t.profit == Total(rs, ProfitOf)
      && t.quantity == Tally(rs, QuantityOf)
      && t.sales == Total(rs, SalesOf)
      && t.profitRatio == ProfitRatio(t.profit, t.sales)
  {
    var j := TimelineIsBucket(rows, i);
    w := WeekGroups(rows)[j].key;
  }

  /** Every timeline row is a normalised bucket. */
  lemma TimelineIsBucket(rows: seq<Record>, i: int) returns (j: int)
    requires 0 <= i < |WeeklyTimeline(rows)|
    ensures 0 <= j < |WeeklyBuckets(rows)|
    ensures WeeklyTimeline(rows)[i] == Normalise(WeeklyBuckets(rows)[j])
  {
    var bs := WeeklyBuckets(rows);
    var ns := NormaliseAll(bs);
    var t := WeeklyTimeline(rows)[i];
    assert t in ns;
    j :| 0 <= j < |ns| && ns[j] == t;
    assert ns[j] == Normalise(bs[j]);
  }

  /** There is one timeline row per distinct ISO week of the 2016 orders; as
      they all share the calendar year, that is one per (year, week) key. */
  lemma TimelineCount(rows: seq<Record>)
    ensures |WeeklyTimeline(rows)| == |Image(Rows2016(rows), WeekOf)|
  {
    var r16 := Rows2016(rows);
    forall i | 0 <= i < |r16| ensures 1 <= WeekOf(r16[i]) <= 53 {
      IsoWeekRange(r16[i].orderDate);
    }
    GroupCountAll(r16, WeekOf, 1, 53);
  }

  /** Two 2016 orders share a bucket key exactly when they share the ISO week. */
  lemma BucketKeyIsWeek(rows: seq<Record>, a: Record, b: Record)
    requires a in Rows2016(rows) && b in Rows2016(rows)
    ensures BucketKey(a) == BucketKey(b) <==> WeekOf(a) == WeekOf(b)
  {
    var i :| 0 <= i < |Rows2016(rows)| && Rows2016(rows)[i] == a;
    var j :| 0 <= j < |Rows2016(rows)| && Rows2016(rows)[j] == b;
  }

  lemma {:induction false} AggregateWeeksTotals(gs: seq<Group<Record>>)
    requires forall i :: 0 <= i < |gs| ==> gs[i].rows != []
    ensures Total(AggregateWeeks(gs), BucketSales) == Total(Flatten(gs), SalesOf)
    ensures Total(AggregateWeeks(gs), BucketProfit) == Total(Flatten(gs), ProfitOf)
    ensures Tally(AggregateWeeks(gs), BucketQuantity) == Tally(Flatten(gs), QuantityOf)
  {
    if gs != [] {
      AggregateWeeksTotals(gs[1..]);
      assert AggregateWeeks(gs)[1..] == AggregateWeeks(gs[1..]);
      TotalAppend(gs[0].rows, Flatten(gs[1..]), SalesOf);
      TotalAppend(gs[0].rows, Flatten(gs[1..]), ProfitOf);
      TallyAppend(gs[0].rows, Flatten(gs[1..]), QuantityOf);
    }
  }

  /** Moving the dates changes no sum. */
  lemma {:induction false} NormaliseKeepsTotals(bs: seq<WeekBucket>)
    ensures Total(NormaliseAll(bs), BucketSales) == Total(bs, BucketSales)
    ensures Total(NormaliseAll(bs), BucketProfit) == Total(bs, BucketProfit)
    ensures Tally(NormaliseAll(bs), BucketQuantity) == Tally(bs, BucketQuantity)
  {
    if bs != [] {
      NormaliseKeepsTotals(bs[1..]);
      assert NormaliseAll(bs)[1..] == NormaliseAll(bs[1..]);
    }
  }

  /** Summed over the timeline, Sales, Profit and Quantity are the totals of
      the 2016 orders: bucketing drops and duplicates nothing. */
  lemma TimelineConserve(rows: seq<Record>)
    ensures Total(WeeklyTimeline(rows), BucketSales) == Total(Rows2016(rows), SalesOf)
    ensures Total(WeeklyTimeline(rows), BucketProfit) == Total(Rows2016(rows), ProfitOf)
    ensures Tally(WeeklyTimeline(rows), BucketQuantity) == Tally(Rows2016(rows), QuantityOf)
  {
    var ns := NormaliseAll(WeeklyBuckets(rows));
    BucketsConserve(rows);
    SortByPermutes(ns, BucketDay);
    TotalPermutation(WeeklyTimeline(rows), ns, BucketSales);
    TotalPermutation(WeeklyTimeline(rows), ns, BucketProfit);
    TallyPermutation(WeeklyTimeline(rows), ns, BucketQuantity);
  }

  lemma BucketsConserve(rows: seq<Record>)
    ensures Total(NormaliseAll(WeeklyBuckets(rows)), BucketSales) == Total(Rows2016(rows), SalesOf)
    ensures Total(NormaliseAll(WeeklyBuckets(rows)), BucketProfit) == Total(Rows2016(rows), ProfitOf)
    ensures Tally(NormaliseAll(WeeklyBuckets(rows)), BucketQuantity) == Tally(Rows2016(rows), QuantityOf)
  {
    var r16 := Rows2016(rows);
    var gs := WeekGroups(rows);
    WeekGroupsPartition(rows);
    TotalPermutation(Flatten(gs), r16, SalesOf);
    TotalPermutation(Flatten(gs), r16, ProfitOf);
    TallyPermutation(Flatten(gs), r16, QuantityOf);
    AggregateWeeksTotals(gs);
    NormaliseKeepsTotals(WeeklyBuckets(rows));
  }

  /** The week groups together hold the 2016 orders, each once. */
  lemma WeekGroupsPartition(rows: seq<Record>)
    ensures multiset(Flatten(WeekGroups(rows))) == multiset(Rows2016(rows))
  {
    var r16 := Rows2016(rows);
    forall i | 0 <= i < |r16| ensures 1 <= WeekOf(r16[i]) <= 53 {
      IsoWeekRange(r16[i].orderDate);
    }
    assert forall x :: x in r16 ==> 1 <= WeekOf(x) <= 53;
    GroupByPartitions(r16, WeekOf, 1, 53);
  }

  /** When every 2016 discount lies in lo .. hi, so does every bucket's mean
      discount; orders of other years may lie outside. */
  lemma TimelineDiscountWithin(rows: seq<Record>, lo: real, hi: real, i: int)
    requires forall j :: 0 <= j < |rows| && rows[j].orderDate.year == TimelineYear ==> lo <= rows[j].discount <= hi
    requires 0 <= i < |WeeklyTimeline(rows)|
    ensures lo <= WeeklyTimeline(rows)[i].discount <= hi
  {
    var w := TimelineRow(rows, i);
    var rs := WeekRows(rows, w);
    forall x | x in rs ensures lo <= DiscountOf(x) <= hi {
      InRows(rows, w, x);
    }
    MeanBounds(rs, DiscountOf, lo, hi);
  }

  /** When no 2016 order ships before it is placed nor more than `most` days
      after, every bucket's mean days to ship lies in 0 .. most; orders of
      other years may ship at any time. */
  lemma TimelineShipDaysWithin(rows: seq<Record>, most: int, i: int)
    requires forall j :: 0 <= j < |rows| && rows[j].orderDate.year == TimelineYear ==> 0 <= DaysToShip(rows[j]) <= most
    requires 0 <= i < |WeeklyTimeline(rows)|
    ensures 0.0 <= WeeklyTimeline(rows)[i].daysToShip <= most as real
  {
    var w := TimelineRow(rows, i);
    var rs := WeekRows(rows, w);
    forall x | x in rs ensures 0.0 <= DaysToShipOf(x) <= most as real {
      InRows(rows, w, x);
    }
    MeanBounds(rs, DaysToShipOf, 0.0, most as real);
  }

  lemma InRows(rows: seq<Record>, w: int, x: Record)
    requires x in WeekRows(rows, w)
    ensures exists j :: 0 <= j < |rows| && rows[j] == x && x.orderDate.year == TimelineYear
  {
    var k :| 0 <= k < |WeekRows(rows, w)| && WeekRows(rows, w)[k] == x;
    var m :| 0 <= m < |Rows2016(rows)| && Rows2016(rows)[m] == x;
  }

  /** Orders of other years do not change the timeline. */
  lemma TimelineIgnoresOtherYears(before: seq<Record>, others: seq<Record>, after: seq<Record>)
    requires forall r :: r in others ==> r.orderDate.year != TimelineYear
    ensures WeeklyTimeline(before + others + after) == WeeklyTimeline(before + after)
  {
    Rows2016IgnoresOtherYears(before, others, after);
  }

  lemma Rows2016IgnoresOtherYears(before: seq<Record>, others: seq<Record>, after: seq<Record>)
    requires forall r :: r in others ==> r.orderDate.year != TimelineYear
    ensures Rows2016(before + others + after) == Rows2016(before + after)
  {
    SelectNone(others, OrderYear, TimelineYear);
    SelectAppend(before, others, OrderYear, TimelineYear);
    assert Select(before + others, OrderYear, TimelineYear) == Select(before, OrderYear, TimelineYear);
    SelectAppend(before + others, after, OrderYear, TimelineYear);
    SelectAppend(before, after, OrderYear, TimelineYear);
  }
}
