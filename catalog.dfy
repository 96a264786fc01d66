/**
 Assembly of the catalog records (scripts/generar_json_catalogo.py, lines 89-103) and
 the inventory snapshot projected from them (line 109).
 */
module Catalog {

  import opened Wrappers
  import opened Tables
  import opened Images

  /** The directory the image files live in. */
  const ImageDir := "catalogo-img"

  /** `os.path.join(ImageDir, "<code>.png")` with the POSIX separator. */
  function ImagePath(codeText: string): (p: string)
    ensures |p| > 0
  {
    ImageDir + "/" + FileName(codeText)
  }

  /** One record of `catalogo.json`. */
  datatype CatalogEntry = CatalogEntry(
    productCode: string,
    name: string,
    description: string,
    price: Option<real>,
    qtyInitial: int,
    ventas: int,
    inventory: int,
    category: string,
    image: string)

  /** One record of `inventario_actual.json`. */
  datatype SnapshotEntry = SnapshotEntry(productCode: string, inventory: int)

  /**
   The field rules for the record of one product row: the code as text, the name,
   the description with its fallback to the name, the price only when the sheet has a
   `Price` column, stock, sales and inventory as computed, the category or "" without a
   `Category` column, and the image path exactly when `<code>.png` exists in the directory.
   */
  ghost predicate EntryOf(columns: set<string>, row: ProductRow, ventas: int, inventory: int,
                          files: map<string, Blob>, e: CatalogEntry)
  {
    && e.productCode == CodeText(row.code)
    && e.name == row.name
    && e.description == (if DescriptionCol in columns then row.description else row.name)
    && (e.price.None? <==> PriceCol !in columns)
    && (e.price.Some? ==> e.price.value == row.price)
    && e.qtyInitial == row.qty
    && e.ventas == ventas
    && e.inventory == inventory
    && e.category == (if CategoryCol in columns then row.category else "")
    && (e.image != "" <==> FileName(CodeText(row.code)) in files)
    && (e.image != "" ==> e.image == ImagePath(CodeText(row.code)))
  }

  /** The field rules leave no freedom: one row, its sales and the directory determine the record. */
  lemma EntryOfDeterminate(columns: set<string>, row: ProductRow, ventas: int, inventory: int,
                           files: map<string, Blob>, e1: CatalogEntry, e2: CatalogEntry)
    requires EntryOf(columns, row, ventas, inventory, files, e1)
    requires EntryOf(columns, row, ventas, inventory, files, e2)
    ensures e1 == e2
  {
  }

  /** The catalog loop: one record per product row, appended in row order. */
  method BuildCatalog(table: ProductTable, ventas: seq<int>, inventory: seq<int>, files: map<string, Blob>)
    returns (catalog: seq<CatalogEntry>)
    requires |ventas| == |table.rows| && |inventory| == |table.rows|
    ensures |catalog| == |table.rows|
    ensures forall i :: 0 <= i < |catalog| ==>
              EntryOf(table.columns, table.rows[i], ventas[i], inventory[i], files, catalog[i])
  {
    catalog := [];
    var i := 0;
    while i < |table.rows|
      invariant 0 <= i <= |table.rows| && |catalog| == i
      invariant forall k :: 0 <= k < i ==>
                  EntryOf(table.columns, table.rows[k], ventas[k], inventory[k], files, catalog[k])
    {
      var row := table.rows[i];
      var code := CodeText(row.code);
      var item := CatalogEntry(
        productCode := code,
        name := row.name,
        description := if DescriptionCol in table.columns then row.description else row.name,
        price := if PriceCol in table.columns then Some(row.price) else None,
        qtyInitial := row.qty,
        ventas := ventas[i],
        inventory := inventory[i],
        category := if CategoryCol in table.columns then row.category else "",
        image := if FileName(code) in files then ImagePath(code) else "");
      catalog := catalog + [item];
      i := i + 1;
    }
  }

  function Project(e: CatalogEntry): SnapshotEntry
  {
    SnapshotEntry(e.productCode, e.inventory)
  }

  /** The snapshot: the catalog's codes and inventories, same length, same order. */
  function Snapshot(catalog: seq<CatalogEntry>): (r: seq<SnapshotEntry>)
    ensures |r| == |catalog|
    ensures forall i :: 0 <= i < |catalog| ==>
              r[i].productCode == catalog[i].productCode && r[i].inventory == catalog[i].inventory
  {
    seq(|catalog|, i requires 0 <= i < |catalog| => Project(catalog[i]))
  }
}
