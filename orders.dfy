/** One order line of the sales sheet, the columns the dashboard reads, and the
    derived per-row values: days to ship and the profit ratio. */
module Orders {
  import opened Calendar
  import opened Tables

  /** A product is identified by its id together with its name. */
  datatype ProductKey = ProductKey(productId: string, productName: string)

  datatype Record = Record(
    orderDate: Date,
    shipDate: Date,
    sales: real,
    profit: real,
    quantity: nat,
    discount: real,
    productId: string,
    productName: string)

  // Column accessors, used as keys and summed columns.

  function SalesOf(r: Record): real { r.sales }
  function ProfitOf(r: Record): real { r.profit }
  function QuantityOf(r: Record): int { r.quantity }
  function DiscountOf(r: Record): real { r.discount }
  function OrderDateOf(r: Record): Date { r.orderDate }
  function OrderYear(r: Record): int { r.orderDate.year }
  function OrderMonth(r: Record): int { r.orderDate.month }
  function OrderDay(r: Record): int { r.orderDate.day }
  function YearMonthOf(r: Record): (int, int) { (r.orderDate.year, r.orderDate.month) }
  function ProductOf(r: Record): ProductKey { ProductKey(r.productId, r.productName) }

  /** Signed whole days from ordering to shipping: zero exactly when the order
      ships on its order date, positive exactly when it ships later. Counting
      that many days back from the ship date gives the order date; when the
      ship date is earlier, counting -n days back from the order date gives
      the ship date. */
  function DaysToShip(r: Record): (n: int)
    ensures n == 0 <==> r.shipDate == r.orderDate
    ensures n > 0 <==> Before(r.orderDate, r.shipDate)
    ensures n >= 0 ==> DaysEarlier(r.shipDate, n) == r.orderDate
    ensures n <= 0 ==> DaysEarlier(r.orderDate, -n) == r.shipDate
  {
    DaysBetween(r.orderDate, r.shipDate)
  }

  function DaysToShipOf(r: Record): real { DaysToShip(r) as real }

  /** Profit divided by sales; undefined (None) when sales are zero. */
  function ProfitRatio(profit: real, sales: real): (r: Option<real>)
    ensures r.Some? <==> sales != 0.0
    ensures r.Some? ==> r.value * sales == profit
  {
    if sales == 0.0 then None else Some(profit / sales)
  }
}
