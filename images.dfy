/**
 Extraction of the images embedded in the product sheet and their matching to product
 rows by anchor position (scripts/generar_json_catalogo.py, lines 53-86). Each matched
 image is written to `<code>.png` in the image directory; the directory is modelled as
 a map from file name to contents and starts with whatever files it already held.
 */
module Images {

  import opened Wrappers
  import opened Tables

  type Blob = seq<bv8>

  /**
   Sheet rows are 1-based and the first one holds the header, so the image anchored at
   sheet row r belongs to data row r - HeaderOffset.
   */
  const HeaderOffset := 2

  /**
   An embedded image as the sheet reader exposes it. Decoding the bytes and re-encoding
   them as PNG, and copying a file, are foreign operations; their outcomes are part of
   the input.
   */
  datatype EmbeddedImage = EmbeddedImage(
    fromRow: Option<int>,     // `anchor._from.row` (0-based), None when it cannot be read
    anchorRow: Option<int>,   // `anchor.row` (1-based), None when it cannot be read
    data: Blob,               // bytes from `_data()` or `ref`; empty when there are none
    decoded: Option<Blob>,    // those bytes decoded and saved as PNG; None when they do not decode
    path: string,             // `path`; empty when absent
    copied: Option<Blob>)     // contents copied from `path`; None when the copy fails

  /** The file an image for this product code is written to. */
  function FileName(codeText: string): string
  {
    codeText + ".png"
  }

  /** The 1-based sheet row: `_from.row + 1`, else `anchor.row`, else unknown. */
  function SheetRow(img: EmbeddedImage): Option<int>
  {
    match img.fromRow
    case Some(r) => Some(r + 1)
    case None => img.anchorRow
  }

  /** The 0-based data row the image is matched to, when its anchor is readable and in range. */
  function DataRow(img: EmbeddedImage, rowCount: nat): (r: Option<nat>)
    ensures r.Some? <==> SheetRow(img).Some? && 0 <= SheetRow(img).value - HeaderOffset < rowCount
    ensures r.Some? ==> r.value < rowCount && r.value + HeaderOffset == SheetRow(img).value
  {
    match SheetRow(img)
    case None => None
    case Some(row) =>
      var idx := row - HeaderOffset;
      if idx < 0 || idx >= rowCount then None else Some(idx)
  }

  /** What processing one image does to the directory. */
  datatype Action = Skip | Write(name: string, content: Blob) | Abort

  predicate WritesTo(a: Action, name: string)
  {
    a.Write? && a.name == name
  }

  /**
   The effect of one image. Unmatched images, images whose bytes do not decode and images
   with neither bytes nor a path are skipped; a failing copy from a path escapes the
   per-image handler and ends the whole extraction.
   */
  function ActionOf(rows: seq<ProductRow>, img: EmbeddedImage): (a: Action)
    ensures DataRow(img, |rows|).None? ==> a.Skip?
    ensures a.Write? ==>
              && DataRow(img, |rows|).Some?
              && a.name == FileName(CodeText(rows[DataRow(img, |rows|).value].code))
              && (if |img.data| > 0 then img.decoded == Some(a.content) else img.copied == Some(a.content))
    ensures a.Write? <==>
              DataRow(img, |rows|).Some?
              && ((|img.data| > 0 && img.decoded.Some?) || (|img.data| == 0 && |img.path| > 0 && img.copied.Some?))
    ensures a.Abort? <==>
              DataRow(img, |rows|).Some? && |img.data| == 0 && |img.path| > 0 && img.copied.None?
  {
    match DataRow(img, |rows|)
    case None => Skip
    case Some(idx) =>
      var name := FileName(CodeText(rows[idx].code));
      if |img.data| > 0 then
        match img.decoded
        case Some(png) => Write(name, png)
        case None => Skip
      else if |img.path| > 0 then
        match img.copied
        case Some(bytes) => Write(name, bytes)
        case None => Abort
      else
        Skip
  }

  /** The image directory so far, and whether the extraction has been interrupted. */
  datatype Extraction = Extraction(files: map<string, Blob>, interrupted: bool)

  function Apply(st: Extraction, a: Action): Extraction
  {
    if st.interrupted then st
    else
      match a
      case Skip => st
      case Write(name, content) => Extraction(st.files[name := content], false)
      case Abort => Extraction(st.files, true)
  }

  /** Specification of the loop: the images' effects applied in order to the initial directory. */
  function Extract(rows: seq<ProductRow>, imgs: seq<EmbeddedImage>, dir: map<string, Blob>): Extraction
    decreases |imgs|
  {
    if imgs == [] then Extraction(dir, false)
    else Apply(Extract(rows, imgs[..|imgs| - 1], dir), ActionOf(rows, imgs[|imgs| - 1]))
  }

  ghost predicate NoAbort(rows: seq<ProductRow>, imgs: seq<EmbeddedImage>)
  {
    forall k :: 0 <= k < |imgs| ==> !ActionOf(rows, imgs[k]).Abort?
  }

  /**
   The image loop (lines 53-84). A failing copy raises out of the loop to the outer
   handler at line 85: here it sets `interrupted` and the loop stops.
   */
  method ExtractImages(rows: seq<ProductRow>, images: seq<EmbeddedImage>, dir: map<string, Blob>)
    returns (st: Extraction)
    ensures st == Extract(rows, images, dir)
  {
    var files := dir;
    var interrupted := false;
    var i := 0;
    while i < |images| && !interrupted
      invariant 0 <= i <= |images|
      invariant Extraction(files, interrupted) == Extract(rows, images[..i], dir)
    {
      var img := images[i];
      ExtractStep(rows, images, i, dir);
      i := i + 1;
      var sheetRow;
      if img.fromRow.Some? {
        sheetRow := img.fromRow.value + 1;
      } else if img.anchorRow.Some? {
        sheetRow := img.anchorRow.value;
      } else {
        continue;
      }
      var idx := sheetRow - HeaderOffset;
      if idx < 0 || idx >= |rows| {
        continue;
      }
      var name := FileName(CodeText(rows[idx].code));
      assert DataRow(img, |rows|) == Some(idx);
      if |img.data| > 0 {
        if img.decoded.Some? {
          assert ActionOf(rows, img) == Write(name, img.decoded.value);
          files := files[name := img.decoded.value];
        }
      } else if |img.path| > 0 {
        if img.copied.Some? {
          assert ActionOf(rows, img) == Write(name, img.copied.value);
          files := files[name := img.copied.value];
        } else {
          interrupted := true;
        }
      }
    }
    if interrupted {
      ExtractInterrupted(rows, images, i, dir);
    } else {
      assert images[..i] == images;
    }
    st := Extraction(files, interrupted);
  }

  lemma ExtractStep(rows: seq<ProductRow>, imgs: seq<EmbeddedImage>, i: nat, dir: map<string, Blob>)
    requires i < |imgs|
    ensures Extract(rows, imgs[..i + 1], dir) == Apply(Extract(rows, imgs[..i], dir), ActionOf(rows, imgs[i]))
  {
    assert imgs[..i + 1][..i] == imgs[..i];
  }

  /** Once interrupted, the remaining images change nothing. */
  lemma {:induction false} ExtractInterrupted(rows: seq<ProductRow>, imgs: seq<EmbeddedImage>, k: nat,
                                               dir: map<string, Blob>)
    requires k <= |imgs| && Extract(rows, imgs[..k], dir).interrupted
    ensures Extract(rows, imgs, dir) == Extract(rows, imgs[..k], dir)
    decreases |imgs|
  {
    if k == |imgs| {
      assert imgs[..k] == imgs;
    } else {
      var init := imgs[..|imgs| - 1];
      assert init[..k] == imgs[..k];
      ExtractInterrupted(rows, init, k, dir);
    }
  }

  /** Without a failing copy, the extraction runs to the end. */
  lemma {:induction false} NoAbortCompletes(rows: seq<ProductRow>, imgs: seq<EmbeddedImage>, dir: map<string, Blob>)
    requires NoAbort(rows, imgs)
    ensures !Extract(rows, imgs, dir).interrupted
    decreases |imgs|
  {
    if imgs != [] {
      var init := imgs[..|imgs| - 1];
      assert forall k :: 0 <= k < |init| ==> init[k] == imgs[k];
      NoAbortCompletes(rows, init, dir);
      assert !ActionOf(rows, imgs[|imgs| - 1]).Abort?;
    }
  }

  /**
   The first failing copy ends the extraction: the directory is what the images before it
   made of it, and nothing after it is written.
   */
  lemma FailedCopyKeepsPrefix(rows: seq<ProductRow>, imgs: seq<EmbeddedImage>, k: nat, dir: map<string, Blob>)
    requires k < |imgs| && ActionOf(rows, imgs[k]).Abort? && NoAbort(rows, imgs[..k])
    ensures Extract(rows, imgs, dir) == Extraction(Extract(rows, imgs[..k], dir).files, true)
  {
    NoAbortCompletes(rows, imgs[..k], dir);
    var pre := imgs[..k + 1];
    assert pre[..k] == imgs[..k];
    assert Extract(rows, pre, dir) == Extraction(Extract(rows, imgs[..k], dir).files, true);
    ExtractInterrupted(rows, imgs, k + 1, dir);
  }

  /**
   Last writer wins: when image k writes `name` and no later image writes it,
   the file holds image k's content after the loop.
   */
  lemma {:induction false} LastWriterWins(rows: seq<ProductRow>, imgs: seq<EmbeddedImage>, dir: map<string, Blob>,
                                           k: nat, name: string)
    requires NoAbort(rows, imgs)
    requires k < |imgs| && WritesTo(ActionOf(rows, imgs[k]), name)
    requires forall j :: k < j < |imgs| ==> !WritesTo(ActionOf(rows, imgs[j]), name)
    ensures name in Extract(rows, imgs, dir).files
    ensures Extract(rows, imgs, dir).files[name] == ActionOf(rows, imgs[k]).content
    decreases |imgs|
  {
    var init := imgs[..|imgs| - 1];
    assert forall j :: 0 <= j < |init| ==> init[j] == imgs[j];
    NoAbortCompletes(rows, init, dir);
    if k < |imgs| - 1 {
      LastWriterWins(rows, init, dir, k, name);
      assert !WritesTo(ActionOf(rows, imgs[|imgs| - 1]), name);
    }
  }

  /** A file that no image writes keeps its initial state: absent stays absent, present keeps its contents. */
  lemma {:induction false} UnwrittenUnchanged(rows: seq<ProductRow>, imgs: seq<EmbeddedImage>, dir: map<string, Blob>,
                                               name: string)
    requires forall j :: 0 <= j < |imgs| ==> !WritesTo(ActionOf(rows, imgs[j]), name)
    ensures name in Extract(rows, imgs, dir).files <==> name in dir
    ensures name in dir ==> Extract(rows, imgs, dir).files[name] == dir[name]
    decreases |imgs|
  {
    if imgs != [] {
      var init := imgs[..|imgs| - 1];
      assert forall j :: 0 <= j < |init| ==> init[j] == imgs[j];
      UnwrittenUnchanged(rows, init, dir, name);
      assert !WritesTo(ActionOf(rows, imgs[|imgs| - 1]), name);
    }
  }

  /** Some image of the list writes `name`. */
  ghost predicate WrittenBy(rows: seq<ProductRow>, imgs: seq<EmbeddedImage>, name: string)
  {
    exists k :: 0 <= k < |imgs| && WritesTo(ActionOf(rows, imgs[k]), name)
  }

  lemma WrittenByLast(rows: seq<ProductRow>, imgs: seq<EmbeddedImage>, name: string)
    requires imgs != []
    ensures WrittenBy(rows, imgs, name) <==>
              WrittenBy(rows, imgs[..|imgs| - 1], name) || WritesTo(ActionOf(rows, imgs[|imgs| - 1]), name)
  {
  }

  /**
   After a complete run, `<code>.png` exists exactly when it existed before or some image
   wrote it: the directory is never cleared.
   */
  lemma {:induction false} FileExists(rows: seq<ProductRow>, imgs: seq<EmbeddedImage>, dir: map<string, Blob>,
                                       name: string)
    requires NoAbort(rows, imgs)
    ensures name in Extract(rows, imgs, dir).files <==> name in dir || WrittenBy(rows, imgs, name)
    decreases |imgs|
  {
    if imgs != [] {
      var init := imgs[..|imgs| - 1];
      assert NoAbort(rows, init) by {
        assert forall j :: 0 <= j < |init| ==> init[j] == imgs[j];
      }
      NoAbortCompletes(rows, init, dir);
      FileExists(rows, init, dir, name);
      WrittenByLast(rows, imgs, name);
      assert !ActionOf(rows, imgs[|imgs| - 1]).Abort?;
    }
  }

  /**
   The directory after the loop is the initial one overlaid with what the images write
   (the images' effect on an empty directory); whether the loop is interrupted does not
   depend on the directory at all.
   */
  lemma {:induction false} ExtractOverlay(rows: seq<ProductRow>, imgs: seq<EmbeddedImage>, dir: map<string, Blob>)
    ensures Extract(rows, imgs, dir).files == dir + Extract(rows, imgs, map[]).files
    ensures Extract(rows, imgs, dir).interrupted == Extract(rows, imgs, map[]).interrupted
    decreases |imgs|
  {
    if imgs == [] {
      assert dir + map[] == dir;
    } else {
      var init := imgs[..|imgs| - 1];
      ExtractOverlay(rows, init, dir);
      var a := ActionOf(rows, imgs[|imgs| - 1]);
      var w := Extract(rows, init, map[]);
      if !w.interrupted && a.Write? {
        assert (dir + w.files)[a.name := a.content] == dir + w.files[a.name := a.content];
      }
    }
  }

  /**
   Running the loop a second time, on the directory the first run left, leaves that
   directory exactly as it is.
   */
  lemma ExtractRerun(rows: seq<ProductRow>, imgs: seq<EmbeddedImage>, dir: map<string, Blob>)
    ensures Extract(rows, imgs, Extract(rows, imgs, dir).files) == Extract(rows, imgs, dir)
  {
    var w := Extract(rows, imgs, map[]).files;
    ExtractOverlay(rows, imgs, dir);
    ExtractOverlay(rows, imgs, dir + w);
    assert (dir + w) + w == dir + w;
  }

  /** An image anchored at sheet row 3 (0-based `_from.row` 2, or `anchor.row` 3) belongs to data row 1. */
  lemma AnchorRowThreeIsDataRowOne(img: EmbeddedImage, rowCount: nat)
    requires rowCount > 1
    requires img.fromRow == Some(2) || (img.fromRow.None? && img.anchorRow == Some(3))
    ensures DataRow(img, rowCount) == Some(1)
  {
  }

  /**
   Two decodable images anchored to the same product row: the file holds the second one.
   */
  lemma SameRowLaterWins(rows: seq<ProductRow>, a: EmbeddedImage, b: EmbeddedImage, dir: map<string, Blob>)
    requires DataRow(a, |rows|).Some? && DataRow(b, |rows|) == DataRow(a, |rows|)
    requires |a.data| > 0 && a.decoded.Some? && |b.data| > 0 && b.decoded.Some?
    ensures var name := FileName(CodeText(rows[DataRow(a, |rows|).value].code));
      name in Extract(rows, [a, b], dir).files && Extract(rows, [a, b], dir).files[name] == b.decoded.value
  {
    var imgs := [a, b];
    assert NoAbort(rows, imgs) by {
      assert imgs[0] == a && imgs[1] == b;
    }
    LastWriterWins(rows, imgs, dir, 1, FileName(CodeText(rows[DataRow(a, |rows|).value].code)));
  }
}
