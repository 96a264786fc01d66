/**
 The two input tables of the catalog script, as the tabular reader delivers them:
 a set of column names and the rows in sheet order. Reading the spreadsheets
 themselves is not modelled; the rows are inputs.
 */
module Tables {

  import opened Wrappers

  /** Column names the script looks up. */
  const ProductCodeCol := "ProductCode"
  const ProductNameCol := "Product Name"
  const QtyCol := "Qty"
  const DescriptionCol := "Description"
  const PriceCol := "Price"
  const CategoryCol := "Category"
  const QuantityCol := "Quantity"
  const CantidadCol := "Cantidad"

  /** The columns a product sheet must have, in the order they are checked. */
  const RequiredColumns: seq<string> := [ProductCodeCol, ProductNameCol, QtyCol]

  /**
   A `ProductCode` cell. The reader yields either text or an integer, and the two
   never compare equal (an integer code is only equal to the same integer).
   */
  datatype Code = Text(s: string) | Number(n: int)

  /**
   One product row. `description`, `price` and `category` are only meaningful when
   the table has the corresponding column.
   */
  datatype ProductRow = ProductRow(
    code: Code,
    name: string,
    qty: int,
    description: string,
    price: real,
    category: string)

  datatype ProductTable = ProductTable(columns: set<string>, rows: seq<ProductRow>)

  /** One sales row: its code and the values of its two possible quantity columns. */
  datatype SalesRow = SalesRow(code: Code, quantity: int, cantidad: int)

  datatype SalesTable = SalesTable(columns: set<string>, rows: seq<SalesRow>)

  /** No two product rows share a code. */
  ghost predicate UniqueCodes(rows: seq<ProductRow>)
  {
    forall i, j :: 0 <= i < j < |rows| ==> rows[i].code != rows[j].code
  }

  /**
   The first required column (in checking order) that is missing, if any: the script
   stops with an error naming it before producing anything.
   */
  function MissingRequired(columns: set<string>): (r: Option<string>)
    ensures r.None? <==> forall k :: 0 <= k < |RequiredColumns| ==> RequiredColumns[k] in columns
    ensures r.Some? ==>
      exists k :: 0 <= k < |RequiredColumns| && r.value == RequiredColumns[k] && r.value !in columns
        && forall j :: 0 <= j < k ==> RequiredColumns[j] in columns
  {
    assert RequiredColumns[0] == ProductCodeCol && RequiredColumns[1] == ProductNameCol
      && RequiredColumns[2] == QtyCol;
    if ProductCodeCol !in columns then Some(ProductCodeCol)
    else if ProductNameCol !in columns then Some(ProductNameCol)
    else if QtyCol !in columns then Some(QtyCol)
    else None
  }

  function Digit(d: nat): (c: char)
    requires d < 10
  {
    "0123456789"[d]
  }

  /** Decimal rendering of a natural number, most significant digit first, no leading zeros. */
  function NatText(n: nat): (s: string)
    ensures |s| >= 1
    ensures forall k :: 0 <= k < |s| ==> '0' <= s[k] <= '9'
    ensures |s| > 1 ==> s[0] != '0'
    decreases n
  {
    if n < 10 then [Digit(n)] else NatText(n / 10) + [Digit(n % 10)]
  }

  /** Reads back a string of decimal digits. */
  function DecimalValue(s: string): int
  {
    if s == [] then 0 else DecimalValue(s[..|s| - 1]) * 10 + ((s[|s| - 1] as int) - ('0' as int))
  }

  /** Reads back a decimal integer with an optional leading `-`. */
  function SignedValue(s: string): int
  {
    if |s| > 0 && s[0] == '-' then -DecimalValue(s[1..]) else DecimalValue(s)
  }

  lemma {:induction false} NatTextRoundTrip(n: nat)
    ensures DecimalValue(NatText(n)) == n
    decreases n
  {
    if n >= 10 {
      NatTextRoundTrip(n / 10);
      var s := NatText(n);
      assert s[..|s| - 1] == NatText(n / 10);
    }
  }

  /** Python's `str()` of a code cell: text as it is, integers in decimal with a leading `-` when negative. */
  function CodeText(c: Code): (s: string)
  {
    match c
    case Text(t) => t
    case Number(n) => if n < 0 then "-" + NatText(-n) else NatText(n)
  }

  /** A leading `-` is read as a sign. */
  lemma MinusRoundTrip(m: nat)
    ensures SignedValue("-" + NatText(m)) == -(m as int)
  {
    var t := NatText(m);
    var s := "-" + t;
    assert s[0] == '-' && s[1..] == t;
    NatTextRoundTrip(m);
  }

  /** Without a sign, the digits are read as they are. */
  lemma DigitsRoundTrip(m: nat)
    ensures SignedValue(NatText(m)) == m
  {
    var t := NatText(m);
    assert '0' <= t[0];
    NatTextRoundTrip(m);
  }

  /** The text of an integer code reads back as that integer. */
  lemma NumberTextRoundTrip(n: int)
    ensures SignedValue(CodeText(Number(n))) == n
  {
    if n < 0 {
      MinusRoundTrip(-n);
    } else {
      DigitsRoundTrip(n);
    }
  }

  /** Distinct integer codes render as distinct text, so their image files are distinct. */
  lemma NumberTextInjective(m: int, n: int)
    requires CodeText(Number(m)) == CodeText(Number(n))
    ensures m == n
  {
    NumberTextRoundTrip(m);
    NumberTextRoundTrip(n);
  }
}
