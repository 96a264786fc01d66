# Catalog reconciliation model

A Dafny model of the core of `scripts/generar_json_catalogo.py`, the batch script that
turns a vendor product sheet and an optional sales sheet into `catalogo.json` (one record
per product, with sales, remaining inventory and a matched image) and
`inventario_actual.json` (code and inventory only), extracting the images embedded in the
product sheet into `catalogo-img/<code>.png` along the way.

Modules follow the script's stages:

- `Tables` (tables.dfy): the product and sales tables as column sets plus rows in sheet
  order, the required-column check, and `str()` of a product code (text as it is, integers
  in decimal; the decimal text of an integer code reads back as the integer, while a text
  code and an integer code with the same digits, `"5"` and `5`, share one text and one
  `5.png`, as in the script).
- `Sales` (sales.dfy): the choice of quantity column, the grouped sum by product code,
  the per-row `Ventas` column and the `Inventario` column; also line 44 as written (see
  Findings).
- `Images` (images.dfy): the anchor-to-row rule with the named header offset, the effect
  of one image, the loop over the images as a method proved against a left fold, and the
  lemmas on last-writer-wins, skipped images, interruption and file existence.
- `Catalog` (catalog.dfy): the catalog loop with its field rules and the snapshot
  projection.
- `Pipeline` (pipeline.dfy): one whole run, with the fatal missing-column path.
- `Wrappers` (wrappers.dfy): Option and Result.

Where the script's intended behaviour as documented and its code differ, the model follows the code:
the code reads only `Price` (no localized alias); it converts the price with `float()`,
which raises on non-numeric text instead of defaulting to 0; it does not keep the first
of duplicate codes but fails on them when sales are unusable; and the "else empty string"
fallback of the description cannot happen because `Product Name` is required. Two
differences concern blank or malformed cells, which the model does not represent (see
"## Left out"): a non-numeric or blank `Qty` makes `astype(int)` at line 45 raise, so the
script stops without writing any JSON instead of using 0; and a blank `Category` cell in a
sheet that has the column is emitted as NaN by line 100, not as "".

## Model

| member | source | states |
|---|---|---|
| Tables.MissingRequired | scripts/generar_json_catalogo.py:25-27 | no error exactly when `ProductCode`, `Product Name` and `Qty` are all columns; otherwise the error names the first missing one in checking order |
| Tables.NatTextRoundTrip | scripts/generar_json_catalogo.py:64 | the decimal text of a product code reads back as the same number |
| Tables.NumberTextRoundTrip | scripts/generar_json_catalogo.py:64 | the text of any integer code, sign included, reads back as that integer |
| Tables.NumberTextInjective | scripts/generar_json_catalogo.py:64-65 | distinct integer codes give distinct text, hence distinct `<code>.png` files |
| Sales.ChosenColumn | scripts/generar_json_catalogo.py:31-41 | no sales are used when the file is missing, lacks `ProductCode` or lacks both quantity columns; `Quantity` is chosen whenever present, `Cantidad` only otherwise |
| Sales.GroupSumIsSum | scripts/generar_json_catalogo.py:36-37 | the grouped sum has a key for exactly the codes occurring in the sales rows, and each code's value (0 when absent) is the sum of its rows' quantities |
| Sales.SumForAbsent | scripts/generar_json_catalogo.py:37 | a code with no sales rows has sales 0 |
| Sales.SumForAppend | scripts/generar_json_catalogo.py:36 | splitting the sales table into two parts splits each code's sum into the two parts' sums |
| Sales.Ventas | scripts/generar_json_catalogo.py:30-37 | one value per product row, in row order: the aggregated sales of that row's code, 0 without usable sales |
| Sales.Inventory | scripts/generar_json_catalogo.py:45 | inventory plus sales equals the initial stock for every row, with no clamping: it is negative exactly when sales exceed stock |
| Sales.VentasAsWritten | scripts/generar_json_catalogo.py:44 | the re-map looks codes up as row positions: text codes and out-of-range integer codes get 0, an integer code j gets the sales of row j |
| Sales.PositionalRemapLosesSales | scripts/generar_json_catalogo.py:30-45 | for product A1 with stock 10 and sales 3 and 2, line 44 as written gives sales 0 and inventory 10; the intended result is sales 5 and inventory 5 |
| Images.DataRow | scripts/generar_json_catalogo.py:55-63 | an image is matched exactly when an anchor form is readable and sheet row minus the header offset lies in [0, row count); the data row plus the offset is the sheet row |
| Images.ExtractOverlay | scripts/generar_json_catalogo.py:47-86 | the final directory is the initial one overlaid with what the images write on an empty one, and interruption does not depend on the directory |
| Images.ExtractRerun | scripts/generar_json_catalogo.py:47-86 | running the loop again on the directory it left changes nothing |
| Images.AnchorRowThreeIsDataRowOne | scripts/generar_json_catalogo.py:55-61 | an image at sheet row 3, through either anchor form, belongs to data row 1 |
| Images.ActionOf | scripts/generar_json_catalogo.py:55-84 | an image writes exactly when it is matched and either its bytes decode or it has no bytes, a path and a successful copy; the write goes to `<code>.png` of the matched row with the decoded PNG or the copied file; unmatched images, undecodable bytes and images with neither bytes nor a path write nothing; only a failing copy stops the loop |
| Images.ExtractImages | scripts/generar_json_catalogo.py:53-86 | the loop's final directory and interruption flag are those of applying the images' effects in order to the initial directory |
| Images.ExtractInterrupted | scripts/generar_json_catalogo.py:82-86 | once a copy has failed, the remaining images change nothing |
| Images.NoAbortCompletes | scripts/generar_json_catalogo.py:53-84 | without a failing copy, undecodable, unmatched or empty images never stop the loop |
| Images.FailedCopyKeepsPrefix | scripts/generar_json_catalogo.py:81-86 | at the first failing copy the directory is exactly what the images before it made |
| Images.LastWriterWins | scripts/generar_json_catalogo.py:64-84 | a file holds the content of the last image that wrote it |
| Images.UnwrittenUnchanged | scripts/generar_json_catalogo.py:47-84 | a file no image writes keeps its initial state, present or absent |
| Images.FileExists | scripts/generar_json_catalogo.py:47-84 | after a complete loop, `<code>.png` exists exactly when it existed before or some image wrote it |
| Images.SameRowLaterWins | scripts/generar_json_catalogo.py:61-77 | of two decodable images anchored to the same row, the second one's PNG is the one left in the file |
| Catalog.BuildCatalog | scripts/generar_json_catalogo.py:89-103 | one record per product row in row order: code as text, name, description falling back to the name, price only with a `Price` column, stock, sales, inventory, category or "" without a `Category` column, image path exactly when `<code>.png` exists |
| Catalog.EntryOfDeterminate | scripts/generar_json_catalogo.py:91-102 | the field rules determine a record completely from its row, sales, inventory and the directory |
| Catalog.Snapshot | scripts/generar_json_catalogo.py:109 | same length and order as the catalog; entry i carries exactly record i's code and inventory |
| Pipeline.Run | scripts/generar_json_catalogo.py:20-111 | fails exactly when a required column is missing, naming it; otherwise every record carries its code's aggregated sales (the corrected Sales.Ventas, not line 44 as written) and stock minus them, the directory is the image loop's result, and the snapshot is the catalog's projection |
| Pipeline.RerunSameArtifacts | scripts/generar_json_catalogo.py:47-111 | a second run on the same sheets, starting from the directory the first run left, produces the same catalog, snapshot and directory |

## Findings

| source | as written | input that shows it | evidently intended | confidence | as-written member | corrected member |
|---|---|---|---|---|---|---|
| scripts/generar_json_catalogo.py:44 | with usable sales, re-maps each product code through the line-37 series, which is indexed by row position, so text codes get 0 sales | product `A1` with `Qty` 10, sales rows (`A1`, 3) and (`A1`, 2): `Ventas` 0, `Inventario` 10 | each row's sales are the aggregated sales of its own code: `Ventas` 5, `Inventario` 5 | high, not executed | Sales.VentasAsWritten | Sales.Ventas |

## Left out

- Reading the spreadsheets (`pd.read_excel`, `load_workbook`, sheet lookup) is foreign I/O: the tables and the list of embedded images are inputs. A workbook that cannot be opened, or a sheet without `_images`, is the empty image list.
- Decoding image bytes, re-encoding them as PNG and `copyfile` are foreign calls: each image carries their outcomes. Choosing between `_data()` and `ref` is folded into the image's `data`.
- Exceptions other than a failing copy inside the image loop (for example from `_data()`, or a partially written file from a failing `save`) are not modelled.
- Directory creation, JSON serialization (`indent`, `ensure_ascii`) and all printed advisories are I/O and are left out; `os.path.exists` is membership in the directory map.
- The `float()` conversion of `Price` is floating point: the price is a `real` passed through, and a non-numeric price that would raise is not modelled.
- Pandas numerics are left out: NaN cells in `groupby().sum()`, sales rows with an empty code, and the truncation of `astype(int)`. Quantities and stock are integers.
- Product cells are always present values and product codes are only text or integers: blank cells (NaN) are not represented. In the script, a blank `Description` cell is emitted as NaN without falling back to the name (line 95); a blank `Price` cell gives `float(nan)` (line 96); a blank `Category` cell is emitted as NaN (line 100); a blank or non-numeric `Qty` makes `astype(int)` raise at line 45, so no JSON is written; and one blank cell in an integer `ProductCode` column turns the column into floats, so `str()` at lines 64 and 91 gives `"123.0"` and every code and file name (`123.0.png`) changes.
- The configuration paths are left out, except the image directory name, which appears in each record's `image` field.
- Pipeline.Run: requires unique product codes when sales are unusable, because the script then re-maps the codes through a series indexed by them, which pandas refuses for duplicates; the failure itself is not modelled.
- Product codes are assumed to be plain file names. A code text starting with `/` makes `os.path.join` discard `catalogo-img`, so the file is written, and the `image` field points, outside the image directory; a `/` elsewhere in a code names a subdirectory. The model keys files by `<code>.png` and Catalog.ImagePath always prefixes `catalogo-img/`.
- Quantities, stock, sales and inventory are unbounded integers: the int64 arithmetic of `astype(int)` at lines 44-45, which can wrap, is not modelled.
