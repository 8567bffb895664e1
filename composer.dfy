/**
 * The document composer (`generatePdf`): images, in order, are placed one per
 * cell of a rows-by-cols grid, pages being appended as each one fills.
 *
 * Fetching an image's URL and the document library's embedders are foreign;
 * an image is modelled by its declared type and by what fetching and each
 * embedder make of it. The document is the page size and, per page, the
 * placements drawn on it.
 */
module Composer {
  import opened Wrappers
  import opened Numeric
  import opened Geometry
  import Mime

  /** A strictly positive length, as the embedders report for a decoded image. */
  type Extent = r: real | r > 0.0 witness 1.0

  datatype Size = Size(width: Extent, height: Extent)

  /**
   * What fetching an image yields: a rejection, or bytes, described by the
   * size each embedder decodes from them (`None` when that embedder rejects them).
   */
  datatype Content = Unreachable | Bytes(asJpeg: Option<Size>, asPng: Option<Size>)

  datatype Image = Image(mime: string, content: Content)

  /** One image drawn on a page: its input index, its cell and the rectangle it is drawn in. */
  datatype Placement = Placement(index: nat, row: nat, col: nat, box: Box)

  type Page = seq<Placement>

  /** The composition either aborts at an input index or yields the whole document. */
  datatype Outcome =
    | Failed(index: nat)
    | Document(pageWidth: real, pageHeight: real, pages: seq<Page>)

  /** The layout parameters every placement depends on. */
  datatype Frame = Frame(pageWidth: real, pageHeight: real, perPage: nat, rows: nat, cols: nat) {
    predicate Valid() {
      perPage >= 1 && rows >= 1 && cols >= 1
    }

    function CellWidth(): real
      requires Valid()
    {
      pageWidth / cols as real
    }

    function CellHeight(): real
      requires Valid()
    {
      pageHeight / rows as real
    }
  }

  /** `cols = columns` and `rows = ceil(imagesPerPage / cols)`: the least row count whose grid holds a full page. */
  function FrameOf(pageSize: PageSize, imagesPerPage: nat, columns: nat): (f: Frame)
    requires imagesPerPage >= 1 && columns >= 1
    ensures f.Valid() && f.perPage == imagesPerPage && f.cols == columns
    ensures f.rows * f.cols >= imagesPerPage && (f.rows - 1) * f.cols < imagesPerPage
    ensures f.pageWidth == PageWidth(pageSize) && f.pageHeight == PageHeight(pageSize)
  {
    Frame(PageWidth(pageSize), PageHeight(pageSize), imagesPerPage, CeilDiv(imagesPerPage, columns), columns)
  }

  /** The size the embedder for the image's declared type decodes, if any. */
  function Embedded(image: Image): (s: Option<Size>)
    ensures s.Some? ==> Mime.Embeddable(image.mime) && image.content.Bytes?
  {
    match image.content
    case Unreachable => None
    case Bytes(asJpeg, asPng) =>
      match Mime.FormatOf(image.mime)
      case Some(JpegFormat) => asJpeg
      case Some(PngFormat) => asPng
      case None => None
  }

  /** An image that makes the whole composition fail: its fetch rejects, or its type is embeddable and the embedder rejects its bytes. */
  predicate Aborts(image: Image)
    ensures Aborts(image) ==> Embedded(image).None?
    ensures !Aborts(image) ==> (Embedded(image).Some? <==> Mime.Embeddable(image.mime))
  {
    image.content.Unreachable? || (Mime.Embeddable(image.mime) && Embedded(image).None?)
  }

  predicate NoAbortBefore(images: seq<Image>, j: nat)
    requires j <= |images|
  {
    forall i :: 0 <= i < j ==> !Aborts(images[i])
  }

  /** The first aborting image at or after `from`, if any. */
  function FirstAbort(images: seq<Image>, from: nat): (r: Option<nat>)
    requires from <= |images|
    ensures r.None? ==> forall i :: from <= i < |images| ==> !Aborts(images[i])
    ensures r.Some? ==> from <= r.value < |images| && Aborts(images[r.value])
    ensures r.Some? ==> forall i :: from <= i < r.value ==> !Aborts(images[i])
    decreases |images| - from
  {
    if from == |images| then None
    else if Aborts(images[from]) then Some(from)
    else FirstAbort(images, from + 1)
  }

  /** The input indices below `j` that are placed, that is, whose type is embeddable; ascending. */
  function PlacedIn(images: seq<Image>, j: nat): (r: seq<nat>)
    requires j <= |images|
    ensures forall k :: 0 <= k < |r| ==> r[k] < j && Mime.Embeddable(images[r[k]].mime)
    ensures forall a, b :: 0 <= a < b < |r| ==> r[a] < r[b]
  {
    if j == 0 then []
    else if Mime.Embeddable(images[j - 1].mime) then PlacedIn(images, j - 1) + [j - 1]
    else PlacedIn(images, j - 1)
  }

  /** The placement of input `i`, of the given decoded size, in slot `slot` of its page (row-major). */
  function PlaceAt(f: Frame, i: nat, size: Size, slot: nat): (x: Placement)
    requires f.Valid()
    ensures x.index == i && x.col < f.cols && x.row * f.cols + x.col == slot
  {
    var row := slot / f.cols;
    var col := slot % f.cols;
    var cell := CellAt(f.pageHeight, f.CellWidth(), f.CellHeight(), row, col);
    Placement(i, row, col, FitInCell(cell, size.width, size.height))
  }

  /** The k-th placed image (counting from 0) takes slot k mod perPage. */
  function Placements(images: seq<Image>, f: Frame, j: nat): (r: seq<Placement>)
    requires j <= |images| && f.Valid() && NoAbortBefore(images, j)
  {
    var idx := PlacedIn(images, j);
    seq(|idx|, k requires 0 <= k < |idx| =>
      PlaceAt(f, idx[k], Embedded(images[idx[k]]).value, k % f.perPage))
  }

  /** Page `p` of a list cut into pages of `perPage` entries. */
  function PageSlice<T>(items: seq<T>, perPage: nat, p: nat): seq<T>
    requires perPage >= 1
  {
    if p * perPage >= |items| then []
    else items[p * perPage .. if |items| < p * perPage + perPage then |items| else p * perPage + perPage]
  }

  function Paginate<T>(items: seq<T>, perPage: nat, count: nat): (pages: seq<seq<T>>)
    requires perPage >= 1
    ensures |pages| == count
  {
    seq(count, p requires 0 <= p < count => PageSlice(items, perPage, p))
  }

  /**
   * The number of pages: one to begin with, and one more each time a placement
   * fills a page, unless that placement was of the last input entry.
   */
  function PageCount(images: seq<Image>, perPage: nat): (c: nat)
    requires perPage >= 1
    ensures c >= 1
  {
    var m := |PlacedIn(images, |images|)|;
    if |images| > 0 && Mime.Embeddable(images[|images| - 1].mime) && m % perPage == 0 then m / perPage
    else 1 + m / perPage
  }

  /** The expected pages: placements in input order, `perPage` to a page. */
  function Layout(images: seq<Image>, f: Frame): seq<Page>
    requires f.Valid() && NoAbortBefore(images, |images|)
  {
    Paginate(Placements(images, f, |images|), f.perPage, PageCount(images, f.perPage))
  }

  /** The expected outcome: failure at the first aborting image, the laid-out document otherwise. */
  function Compose(images: seq<Image>, pageSize: PageSize, imagesPerPage: nat, columns: nat): (r: Outcome)
    requires imagesPerPage >= 1 && columns >= 1
    ensures r.Failed? ==> r.index < |images| && Aborts(images[r.index]) && NoAbortBefore(images, r.index)
    ensures r.Document? ==> NoAbortBefore(images, |images|) && |r.pages| == PageCount(images, imagesPerPage)
  {
    match FirstAbort(images, 0)
    case Some(i) => Failed(i)
    case None => Document(PageWidth(pageSize), PageHeight(pageSize), Layout(images, FrameOf(pageSize, imagesPerPage, columns)))
  }

  // ---------------------------------------------------------------------------
  // The composer itself

  /** `generatePdf`: a single pass over the images that draws each onto the current page. */
  method GeneratePdf(images: seq<Image>, pageSize: PageSize, imagesPerPage: nat, columns: nat) returns (r: Outcome)
    requires imagesPerPage >= 1 && columns >= 1
    ensures r == Compose(images, pageSize, imagesPerPage, columns)
  {
    var pageWidth := if pageSize == Letter then 612.0 else 595.28;
    var pageHeight := if pageSize == Letter then 792.0 else 841.89;
    var cols := columns;
    var rows := CeilDiv(imagesPerPage, cols);
    var cellWidth := pageWidth / cols as real;
    var cellHeight := pageHeight / rows as real;
    ghost var f := FrameOf(pageSize, imagesPerPage, columns);

    var pages: seq<Page> := [[]];
    var imagesOnPage: nat := 0;
    ProgressInit(images, f);
    var i := 0;
    while i < |images|
      invariant i <= |images|
      invariant Progress(images, f, i, pages, imagesOnPage)
      decreases |images| - i
    {
      var image := images[i];
      if image.content.Unreachable? {
        FirstAbortIs(images, i);
        return Failed(i);
      }
      var format := Mime.FormatOf(image.mime);
      if format.None? {
        // An unsupported type: skipped, consuming no cell.
        ProgressSkip(images, f, i, pages, imagesOnPage);
        i := i + 1;
        continue;
      }
      var embedded := if format == Some(Mime.JpegFormat) then image.content.asJpeg else image.content.asPng;
      if embedded.None? {
        FirstAbortIs(images, i);
        return Failed(i);
      }
      var imgDims := embedded.value;

      var col := imagesOnPage % cols;
      var row := imagesOnPage / cols;
      var cell := CellAt(pageHeight, cellWidth, cellHeight, row, col);
      var placement := Placement(i, row, col, FitInCell(cell, imgDims.width, imgDims.height));
      PlaceAtIs(f, i, imgDims, imagesOnPage, cellWidth, cellHeight);
      assert Embedded(image) == embedded;
      assert placement == PlaceAt(f, i, Embedded(images[i]).value, imagesOnPage);
      ProgressPlace(images, f, i, pages, imagesOnPage);

      pages := pages[..|pages| - 1] + [pages[|pages| - 1] + [placement]];
      imagesOnPage := imagesOnPage + 1;
      if imagesOnPage >= imagesPerPage && i < |images| - 1 {
        pages := pages + [[]];
        imagesOnPage := 0;
      }
      i := i + 1;
    }
    ProgressEnd(images, f, pages, imagesOnPage);
    FirstAbortFree(images);
    r := Document(pageWidth, pageHeight, pages);
  }

  // ---------------------------------------------------------------------------
  // The loop invariant and its preservation

  /**
   * The state after the first `i` input entries: none of them aborted; the
   * pages are the placements so far, `perPage` to a page; the count on the
   * current page is below `perPage` while input remains, and it reaches
   * `perPage` only when the last placement was of the last entry.
   */
  ghost predicate Progress(images: seq<Image>, f: Frame, i: nat, pages: seq<Page>, onPage: nat) {
    && i <= |images| && f.Valid() && NoAbortBefore(images, i)
    && |pages| >= 1 && onPage <= f.perPage
    && |Placements(images, f, i)| == (|pages| - 1) * f.perPage + onPage
    && pages == Paginate(Placements(images, f, i), f.perPage, |pages|)
    && (i < |images| ==> onPage < f.perPage)
    && (onPage == f.perPage ==> i > 0 && Mime.Embeddable(images[i - 1].mime))
    && (i == |images| > 0 && Mime.Embeddable(images[i - 1].mime) ==> onPage >= 1)
  }

  lemma ProgressInit(images: seq<Image>, f: Frame)
    requires f.Valid()
    ensures Progress(images, f, 0, [[]], 0)
  {
  }

  /** An entry of an unsupported type that was fetched changes neither the pages nor the count. */
  lemma ProgressSkip(images: seq<Image>, f: Frame, i: nat, pages: seq<Page>, onPage: nat)
    requires i < |images| && Progress(images, f, i, pages, onPage)
    requires images[i].content.Bytes? && !Mime.Embeddable(images[i].mime)
    ensures Progress(images, f, i + 1, pages, onPage)
  {
    PlacementsStep(images, f, i);
  }

  /**
   * A placed entry goes to the next slot of the current page; a page it fills
   * is followed by a new one unless the entry was the last.
   */
  lemma ProgressPlace(images: seq<Image>, f: Frame, i: nat, pages: seq<Page>, onPage: nat)
    requires i < |images| && Progress(images, f, i, pages, onPage)
    requires Mime.Embeddable(images[i].mime) && Embedded(images[i]).Some?
    ensures var x := PlaceAt(f, i, Embedded(images[i]).value, onPage);
      var extended := pages[..|pages| - 1] + [pages[|pages| - 1] + [x]];
      if onPage + 1 >= f.perPage && i < |images| - 1
      then Progress(images, f, i + 1, extended + [[]], 0)
      else Progress(images, f, i + 1, extended, onPage + 1)
  {
    var placed := Placements(images, f, i);
    DivModIs(|placed|, f.perPage, |pages| - 1, onPage);
    PlacementsStep(images, f, i);
    var x := PlaceAt(f, i, Embedded(images[i]).value, onPage);
    assert Placements(images, f, i + 1) == placed + [x];
    PagesAfterPlacing(placed, x, f.perPage, pages, onPage);
  }

  /** Once every entry is processed, the pages are the expected layout and none of the entries aborted. */
  lemma ProgressEnd(images: seq<Image>, f: Frame, pages: seq<Page>, onPage: nat)
    requires Progress(images, f, |images|, pages, onPage)
    ensures NoAbortBefore(images, |images|)
    ensures pages == Layout(images, f)
  {
    var lastPlaced := |images| > 0 && Mime.Embeddable(images[|images| - 1].mime);
    var m := |PlacedIn(images, |images|)|;
    assert m == |Placements(images, f, |images|)| == (|pages| - 1) * f.perPage + onPage;
    assert onPage == f.perPage ==> lastPlaced;
    assert lastPlaced ==> onPage >= 1;
    assert f.perPage >= 1 && |pages| >= 1 && onPage <= f.perPage;
    assert |pages| == PageCount(images, f.perPage) by {
      FinalPageCount(m, f.perPage, |pages|, onPage, lastPlaced);
    }
  }

  /**
   * The page count the loop ends with: the pages hold `m` placements with
   * `onLast` on the last page, which is full only when the last entry was placed.
   */
  lemma FinalPageCount(m: nat, perPage: nat, count: nat, onLast: nat, lastPlaced: bool)
    requires perPage >= 1 && count >= 1 && onLast <= perPage
    requires m == (count - 1) * perPage + onLast
    requires onLast == perPage ==> lastPlaced
    requires lastPlaced ==> onLast >= 1
    ensures count == if lastPlaced && m % perPage == 0 then m / perPage else 1 + m / perPage
  {
    if onLast == perPage {
      DivModIs(m, perPage, count, 0);
    } else {
      DivModIs(m, perPage, count - 1, onLast);
    }
  }

  lemma PlaceAtIs(f: Frame, i: nat, size: Size, slot: nat, cellWidth: real, cellHeight: real)
    requires f.Valid() && cellWidth == f.pageWidth / f.cols as real && cellHeight == f.pageHeight / f.rows as real
    ensures PlaceAt(f, i, size, slot) == Placement(i, slot / f.cols, slot % f.cols,
      FitInCell(CellAt(f.pageHeight, cellWidth, cellHeight, slot / f.cols, slot % f.cols), size.width, size.height))
  {
  }

  /** An entry that aborts, after entries that did not, is the first that aborts. */
  lemma FirstAbortIs(images: seq<Image>, i: nat)
    requires i < |images| && NoAbortBefore(images, i) && Aborts(images[i])
    ensures FirstAbort(images, 0) == Some(i)
  {
  }

  /** When no entry aborts, there is no first abort. */
  lemma FirstAbortFree(images: seq<Image>)
    requires NoAbortBefore(images, |images|)
    ensures FirstAbort(images, 0) == None
  {
  }

  /** Processing input `i` appends its placement, in the next slot, exactly when its type is embeddable. */
  lemma PlacementsStep(images: seq<Image>, f: Frame, i: nat)
    requires i < |images| && f.Valid() && NoAbortBefore(images, i + 1)
    ensures var before := Placements(images, f, i);
      Placements(images, f, i + 1) ==
        if Mime.Embeddable(images[i].mime)
        then before + [PlaceAt(f, i, Embedded(images[i]).value, |before| % f.perPage)]
        else before
  {
  }

  /** Placing an item extends the last page; a page it fills may be followed by a fresh empty page. */
  lemma PagesAfterPlacing<T>(items: seq<T>, x: T, perPage: nat, pages: seq<seq<T>>, onLast: nat)
    requires perPage >= 1 && |pages| >= 1 && onLast < perPage
    requires |items| == (|pages| - 1) * perPage + onLast
    requires pages == Paginate(items, perPage, |pages|)
    ensures var extended := pages[..|pages| - 1] + [pages[|pages| - 1] + [x]];
      && |extended| == |pages|
      && |items + [x]| == (|pages| - 1) * perPage + onLast + 1
      && extended == Paginate(items + [x], perPage, |pages|)
      && (onLast + 1 == perPage ==>
            && |items + [x]| == |pages| * perPage
            && extended + [[]] == Paginate(items + [x], perPage, |pages| + 1))
  {
    var c := |pages|;
    PaginatePlace(items, x, perPage, c, onLast);
    if onLast + 1 == perPage {
      assert (c - 1) * perPage + perPage == c * perPage;
      PaginateNewPage(items + [x], perPage, c);
    }
  }

  /** Adding an item to a list whose last page is not full extends that page. */
  lemma PaginatePlace<T>(items: seq<T>, x: T, perPage: nat, count: nat, onLast: nat)
    requires perPage >= 1 && count >= 1 && onLast < perPage
    requires |items| == (count - 1) * perPage + onLast
    ensures Paginate(items + [x], perPage, count)
      == Paginate(items, perPage, count)[..count - 1] + [Paginate(items, perPage, count)[count - 1] + [x]]
  {
    var before, after := Paginate(items, perPage, count), Paginate(items + [x], perPage, count);
    var expected := before[..count - 1] + [before[count - 1] + [x]];
    forall p | 0 <= p < count
      ensures after[p] == expected[p]
    {
      if p < count - 1 {
        MulLe(p + 1, count - 1, perPage);
        assert p * perPage + perPage <= |items|;
        assert PageSlice(items + [x], perPage, p) == PageSlice(items, perPage, p);
      } else {
        assert p * perPage == |items| - onLast;
      }
    }
  }

  /** A list that exactly fills its pages gains an empty page. */
  lemma PaginateNewPage<T>(items: seq<T>, perPage: nat, count: nat)
    requires perPage >= 1 && |items| == count * perPage
    ensures Paginate(items, perPage, count + 1) == Paginate(items, perPage, count) + [[]]
  {
  }
}
