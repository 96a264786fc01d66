/**
 The whole script (scripts/generar_json_catalogo.py): check the product columns, reconcile
 sales and inventory, extract the images, assemble the catalog and project the snapshot.
 Writing the two JSON documents is left to the caller; the artifacts are returned.
 */
module Pipeline {

  import opened Wrappers
  import opened Tables
  import opened Sales
  import opened Images
  import opened Catalog

  /** The one fatal error: a required product column is missing. */
  datatype Fatal = MissingColumn(column: string)

  /** What the script leaves behind: the two documents and the image directory. */
  datatype Artifacts = Artifacts(catalog: seq<CatalogEntry>, snapshot: seq<SnapshotEntry>,
                                 images: map<string, Blob>)

  /**
   What a successful run produces from its inputs: the image directory is the image loop's
   result over the initial directory, every record follows the field rules with its code's
   aggregated sales and the stock left after them, and the snapshot is the catalog's
   projection.
   */
  ghost predicate Produced(products: ProductTable, sales: Option<SalesTable>, images: seq<EmbeddedImage>,
                           dir: map<string, Blob>, a: Artifacts)
  {
    && a.images == Extract(products.rows, images, dir).files
    && |a.catalog| == |products.rows|
    && (forall i :: 0 <= i < |products.rows| ==>
          EntryOf(products.columns, products.rows[i],
                  SalesOf(sales, products.rows[i].code),
                  products.rows[i].qty - SalesOf(sales, products.rows[i].code),
                  a.images, a.catalog[i]))
    && a.snapshot == Snapshot(a.catalog)
  }

  /**
   One run. A missing required column aborts before anything is produced. Otherwise the
   run produces the artifacts described by Produced. The sales are the corrected per-row
   sales of Sales.Ventas (each row's own code), not the re-map of line 44 as written
   (Sales.VentasAsWritten).

   Without usable sales the script re-maps the product codes through a series indexed
   by those codes (line 30), which pandas refuses for duplicate codes; that case requires
   unique codes.
   */
  method Run(products: ProductTable, sales: Option<SalesTable>, images: seq<EmbeddedImage>,
             dir: map<string, Blob>)
    returns (r: Result<Artifacts, Fatal>)
    requires MissingRequired(products.columns).None? && ChosenColumn(sales).None?
             ==> UniqueCodes(products.rows)
    ensures r.Failure? <==> MissingRequired(products.columns).Some?
    ensures r.Failure? ==> r.error == MissingColumn(MissingRequired(products.columns).value)
    ensures r.Success? ==> Produced(products, sales, images, dir, r.value)
  {
    var missing := MissingRequired(products.columns);
    if missing.Some? {
      return Failure(MissingColumn(missing.value));
    }
    var ventas := Ventas(products.rows, sales);
    var inventory := Inventory(products.rows, ventas);
    var extraction := ExtractImages(products.rows, images, dir);
    var catalog := BuildCatalog(products, ventas, inventory, extraction.files);
    r := Success(Artifacts(catalog, Snapshot(catalog), extraction.files));
  }

  /**
   A second run on the same sheets, starting from the image directory the first run left,
   produces exactly the same catalog, snapshot and directory.
   */
  lemma RerunSameArtifacts(products: ProductTable, sales: Option<SalesTable>, images: seq<EmbeddedImage>,
                           dir: map<string, Blob>, first: Artifacts, second: Artifacts)
    requires Produced(products, sales, images, dir, first)
    requires Produced(products, sales, images, first.images, second)
    ensures second == first
  {
    ExtractRerun(products.rows, images, dir);
    forall i | 0 <= i < |products.rows|
      ensures second.catalog[i] == first.catalog[i]
    {
      var row := products.rows[i];
      EntryOfDeterminate(products.columns, row, SalesOf(sales, row.code),
                         row.qty - SalesOf(sales, row.code), first.images,
                         first.catalog[i], second.catalog[i]);
    }
    assert second.catalog == first.catalog;
  }
}
