/**
 Sales aggregation and inventory reconciliation (scripts/generar_json_catalogo.py,
 lines 30-45): sum the quantities of the sales rows per product code, give every
 product row the sum for its code, and subtract it from the initial stock.
 */
module Sales {

  import opened Wrappers
  import opened Tables

  /** Which sales column holds the quantity. */
  datatype QtyColumn = UseQuantity | UseCantidad

  /**
   The quantity column the aggregation uses, or None when there are no usable sales:
   no sales file, no `ProductCode` column, or neither quantity column.
   `Quantity` wins over `Cantidad` when both exist.
   */
  function ChosenColumn(sales: Option<SalesTable>): (r: Option<QtyColumn>)
    ensures r.None? <==> (sales.None? || ProductCodeCol !in sales.value.columns
      || (QuantityCol !in sales.value.columns && CantidadCol !in sales.value.columns))
    ensures r == Some(UseQuantity) <==> (sales.Some? && ProductCodeCol in sales.value.columns
      && QuantityCol in sales.value.columns)
    ensures r == Some(UseCantidad) <==> (sales.Some? && ProductCodeCol in sales.value.columns
      && QuantityCol !in sales.value.columns && CantidadCol in sales.value.columns)
  {
    match sales
    case None => None
    case Some(t) =>
      if ProductCodeCol in t.columns && (QuantityCol in t.columns || CantidadCol in t.columns) then
        Some(if QuantityCol in t.columns then UseQuantity else UseCantidad)
      else
        None
  }

  function Amount(r: SalesRow, col: QtyColumn): int
  {
    match col
    case UseQuantity => r.quantity
    case UseCantidad => r.cantidad
  }

  /** Reference definition: the sum of the chosen column over the sales rows with this code. */
  function SumFor(rows: seq<SalesRow>, col: QtyColumn, code: Code): int
  {
    if rows == [] then 0
    else (if rows[0].code == code then Amount(rows[0], col) else 0) + SumFor(rows[1..], col, code)
  }

  /** Lookup with a default of 0 for an absent key (the script's `fillna(0)`). */
  function Get(m: map<Code, int>, c: Code): int
  {
    if c in m then m[c] else 0
  }

  /** The grouped sum `groupby("ProductCode")[col].sum()`: one entry per code that occurs. */
  function GroupSum(rows: seq<SalesRow>, col: QtyColumn): map<Code, int>
  {
    if rows == [] then map[]
    else
      var m := GroupSum(rows[1..], col);
      m[rows[0].code := Get(m, rows[0].code) + Amount(rows[0], col)]
  }

  /** The grouped sum has a key for exactly the codes that occur, holding their sum. */
  lemma {:induction false} GroupSumIsSum(rows: seq<SalesRow>, col: QtyColumn)
    ensures forall c :: Get(GroupSum(rows, col), c) == SumFor(rows, col, c)
    ensures forall c :: c in GroupSum(rows, col) <==> exists k :: 0 <= k < |rows| && rows[k].code == c
  {
    if rows != [] {
      GroupSumIsSum(rows[1..], col);
      forall c | c in GroupSum(rows, col)
        ensures exists k :: 0 <= k < |rows| && rows[k].code == c
      {
        if c != rows[0].code {
          assert c in GroupSum(rows[1..], col);
          var k :| 0 <= k < |rows[1..]| && rows[1..][k].code == c;
          assert rows[k + 1].code == c;
        }
      }
      forall c | exists k :: 0 <= k < |rows| && rows[k].code == c
        ensures c in GroupSum(rows, col)
      {
        var k :| 0 <= k < |rows| && rows[k].code == c;
        if k > 0 {
          assert rows[1..][k - 1].code == c;
        }
      }
    }
  }

  /** A code with no sales rows has sold nothing. */
  lemma {:induction false} SumForAbsent(rows: seq<SalesRow>, col: QtyColumn, code: Code)
    requires forall k :: 0 <= k < |rows| ==> rows[k].code != code
    ensures SumFor(rows, col, code) == 0
  {
    if rows != [] {
      SumForAbsent(rows[1..], col, code);
    }
  }

  /** Splitting the sales table splits the sums. */
  lemma {:induction false} SumForAppend(a: seq<SalesRow>, b: seq<SalesRow>, col: QtyColumn, code: Code)
    ensures SumFor(a + b, col, code) == SumFor(a, col, code) + SumFor(b, col, code)
  {
    if a == [] {
      assert a + b == b;
    } else {
      assert (a + b)[1..] == a[1..] + b;
      SumForAppend(a[1..], b, col, code);
    }
  }

  /** The evident intent for one code: its aggregated sales, or 0 without usable sales. */
  function SalesOf(sales: Option<SalesTable>, code: Code): int
  {
    match ChosenColumn(sales)
    case None => 0
    case Some(col) => SumFor(sales.value.rows, col, code)
  }

  /**
   The `Ventas` column: for each product row, in row order, the aggregated sales for its
   code. This is the per-row series that line 37 builds; line 44 as written re-maps it
   by product code through its row-position index (see VentasAsWritten), which is not
   what the rest of the script evidently expects.
   */
  function Ventas(rows: seq<ProductRow>, sales: Option<SalesTable>): (r: seq<int>)
    ensures |r| == |rows|
    ensures forall i :: 0 <= i < |rows| ==> r[i] == SalesOf(sales, rows[i].code)
  {
    match ChosenColumn(sales)
    case None => seq(|rows|, i => 0)
    case Some(col) =>
      var m := GroupSum(sales.value.rows, col);
      GroupSumIsSum(sales.value.rows, col);
      seq(|rows|, i requires 0 <= i < |rows| => Get(m, rows[i].code))
  }

  /**
   The `Inventario` column: initial stock minus sales, row by row, as plain integer
   subtraction. It is never clamped, so an oversold product gets a negative value.
   */
  function Inventory(rows: seq<ProductRow>, ventas: seq<int>): (r: seq<int>)
    requires |ventas| == |rows|
    ensures |r| == |rows|
    ensures forall i :: 0 <= i < |rows| ==> r[i] + ventas[i] == rows[i].qty
    ensures forall i :: 0 <= i < |rows| ==> (r[i] < 0 <==> ventas[i] > rows[i].qty)
  {
    seq(|rows|, i requires 0 <= i < |rows| => rows[i].qty - ventas[i])
  }

  // ---------------------------------------------------------------------------
  // Line 44 as written.
  //
  // With usable sales, line 37 leaves `ventas_total` indexed by row position
  // (0, 1, ..., n - 1). Line 44 then looks each product code up as a LABEL of that
  // index: a text code never matches, so its sales become 0; an integer code j in
  // range picks up the sales of row j instead of its own. Without usable sales,
  // `ventas_total` is the all-zero series indexed by code from line 30, and the
  // re-map gives 0 for every row (for unique codes).
  // ---------------------------------------------------------------------------

  /** Looking a code up in a series indexed by row position; a missing label is 0. */
  function PositionalLookup(series: seq<int>, key: Code): int
  {
    match key
    case Text(_) => 0
    case Number(j) => if 0 <= j < |series| then series[j] else 0
  }

  /** The `Ventas` column that line 44 actually computes. */
  function VentasAsWritten(rows: seq<ProductRow>, sales: Option<SalesTable>): (r: seq<int>)
    ensures |r| == |rows|
    ensures forall i :: 0 <= i < |rows| && rows[i].code.Text? ==> r[i] == 0
    ensures forall i :: (0 <= i < |rows| && rows[i].code.Number? && !(0 <= rows[i].code.n < |rows|)
      ==> r[i] == 0)
    ensures forall i :: (0 <= i < |rows| && rows[i].code.Number? && 0 <= rows[i].code.n < |rows|
      ==> r[i] == SalesOf(sales, rows[rows[i].code.n].code))
  {
    var byPosition := Ventas(rows, sales);
    if ChosenColumn(sales).None? then seq(|rows|, i => 0)
    else seq(|rows|, i requires 0 <= i < |rows| => PositionalLookup(byPosition, rows[i].code))
  }

  /**
   One product `A1` with stock 10 and two sales rows of 3 and 2: the intended sales
   are 5 and the inventory 5, but line 44 as written yields sales 0 and inventory 10.
   */
  lemma PositionalRemapLosesSales()
    ensures var rows := [ProductRow(Text("A1"), "Widget", 10, "", 0.0, "")];
      var sales := Some(SalesTable({ProductCodeCol, QuantityCol},
        [SalesRow(Text("A1"), 3, 0), SalesRow(Text("A1"), 2, 0)]));
      && VentasAsWritten(rows, sales) == [0]
      && Inventory(rows, VentasAsWritten(rows, sales)) == [10]
      && Ventas(rows, sales) == [5]
      && Inventory(rows, Ventas(rows, sales)) == [5]
  {
  }
}
