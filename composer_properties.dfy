/**
 * What the composer promises about the documents it produces: which inputs
 * are placed, where each lands, how many pages there are, and when the whole
 * run fails.
 */
module ComposerProperties {
  import opened Wrappers
  import opened Numeric
  import opened Geometry
  import Mime
  import opened Composer

  /** The placements of a document, page after page. */
  function Flatten<T>(pages: seq<seq<T>>): seq<T> {
    if pages == [] then [] else Flatten(pages[..|pages| - 1]) + pages[|pages| - 1]
  }

  // ---------------------------------------------------------------------------
  // Which inputs are placed

  /** An input is placed exactly when its type is embeddable. */
  lemma {:induction false} PlacedExactly(images: seq<Image>, j: nat, i: nat)
    requires j <= |images|
    ensures i in PlacedIn(images, j) <==> i < j && Mime.Embeddable(images[i].mime)
  {
    if j > 0 {
      PlacedExactly(images, j - 1, i);
    }
  }

  /** When every type is embeddable, the k-th placement is of input k. */
  lemma {:induction false} PlacedAll(images: seq<Image>, j: nat)
    requires j <= |images|
    requires forall i :: 0 <= i < j ==> Mime.Embeddable(images[i].mime)
    ensures |PlacedIn(images, j)| == j
    ensures forall k :: 0 <= k < j ==> PlacedIn(images, j)[k] == k
  {
    if j > 0 {
      PlacedAll(images, j - 1);
    }
  }

  // ---------------------------------------------------------------------------
  // Success and failure

  /**
   * The run fails exactly when some entry aborts, and then it reports the
   * first; otherwise it yields a document of the chosen page size.
   */
  lemma ComposeOutcome(images: seq<Image>, pageSize: PageSize, perPage: nat, columns: nat, i: nat)
    requires perPage >= 1 && columns >= 1
    ensures Compose(images, pageSize, perPage, columns).Document? <==> NoAbortBefore(images, |images|)
    ensures Compose(images, pageSize, perPage, columns) == Failed(i)
      <==> i < |images| && Aborts(images[i]) && NoAbortBefore(images, i)
    ensures Compose(images, pageSize, perPage, columns).Document? ==>
      var d := Compose(images, pageSize, perPage, columns);
      d.pageWidth == PageWidth(pageSize) && d.pageHeight == PageHeight(pageSize)
  {
    var r := FirstAbort(images, 0);
    if r.Some? && i < |images| && Aborts(images[i]) && NoAbortBefore(images, i) {
      assert !(r.value < i) && !(i < r.value);
    }
  }

  // ---------------------------------------------------------------------------
  // Where each placed input lands

  /** A cell index below `perPage` lies in the grid the frame derives. */
  lemma SlotInGrid(f: Frame, slot: nat)
    requires f.Valid() && slot < f.perPage && f.rows * f.cols >= f.perPage
    ensures slot / f.cols < f.rows && slot % f.cols < f.cols
  {
    var row := slot / f.cols;
    if row >= f.rows {
      MulLe(f.rows, row, f.cols);
    }
  }

  /** Page `p` of a cut list holds items `p * perPage` onwards, at most `perPage` of them. */
  lemma PageSliceAt<T>(items: seq<T>, perPage: nat, p: nat, t: nat)
    requires perPage >= 1 && t < |PageSlice(items, perPage, p)|
    ensures t < perPage && p * perPage + t < |items|
    ensures PageSlice(items, perPage, p)[t] == items[p * perPage + t]
  {
  }

  /**
   * Entry t of page p is placement number p * perPage + t: it sits in cell
   * (t div cols, t mod cols) of the grid and is of an input with an
   * embeddable type. Pages fill left to right, top to bottom.
   */
  lemma LayoutCell(images: seq<Image>, pageSize: PageSize, perPage: nat, columns: nat, p: nat, t: nat)
    requires perPage >= 1 && columns >= 1 && NoAbortBefore(images, |images|)
    requires var pages := Compose(images, pageSize, perPage, columns).pages;
      p < |pages| && t < |pages[p]|
    ensures var f := FrameOf(pageSize, perPage, columns);
      var x := Compose(images, pageSize, perPage, columns).pages[p][t];
      && t < perPage
      && x == Placements(images, f, |images|)[p * perPage + t]
      && x.index == PlacedIn(images, |images|)[p * perPage + t]
      && x.row == t / columns && x.col == t % columns
      && x.row < f.rows && x.col < f.cols
      && x.index < |images| && Mime.Embeddable(images[x.index].mime)
  {
    var f := FrameOf(pageSize, perPage, columns);
    FirstAbortFree(images);
    var items := Placements(images, f, |images|);
    var pages := Layout(images, f);
    assert Compose(images, pageSize, perPage, columns).pages == pages;
    assert pages[p] == PageSlice(items, perPage, p);
    PageSliceAt(items, perPage, p, t);
    var k := p * perPage + t;
    assert pages[p][t] == items[k];
    DivModIs(k, perPage, p, t);
    SlotInGrid(f, t);
  }

  /** The k-th placed input (counting from 0) lands on page k div perPage, as entry k mod perPage. */
  lemma LayoutOfPlaced(images: seq<Image>, pageSize: PageSize, perPage: nat, columns: nat, k: nat)
    requires perPage >= 1 && columns >= 1 && NoAbortBefore(images, |images|)
    requires k < |PlacedIn(images, |images|)|
    ensures var pages := Compose(images, pageSize, perPage, columns).pages;
      && k / perPage < |pages| && k % perPage < |pages[k / perPage]|
      && pages[k / perPage][k % perPage].index == PlacedIn(images, |images|)[k]
      && pages[k / perPage][k % perPage].row == (k % perPage) / columns
      && pages[k / perPage][k % perPage].col == (k % perPage) % columns
  {
    var f := FrameOf(pageSize, perPage, columns);
    FirstAbortFree(images);
    var items := Placements(images, f, |images|);
    var q, s := k / perPage, k % perPage;
    CountCovers(images, perPage);
    PageOf(k, |items|, PageCount(images, perPage), perPage);
    var page := PageSlice(items, perPage, q);
    assert Layout(images, f)[q] == page;
    assert s < |page|;
    LayoutCell(images, pageSize, perPage, columns, q, s);
  }

  /** Item k of a list covered by `count` pages of `perPage` is on page k div perPage, which reaches past it. */
  lemma PageOf(k: nat, m: nat, count: nat, perPage: nat)
    requires perPage >= 1 && k < m <= count * perPage
    ensures k / perPage < count
    ensures k == (k / perPage) * perPage + k % perPage && k % perPage < perPage
    ensures (k / perPage) * perPage + k % perPage < m
  {
    var q := k / perPage;
    if q >= count {
      MulLe(count, q, perPage);
    }
  }

  /** The pages hold room for every placement and no page after the last is entirely past them. */
  lemma CountCovers(images: seq<Image>, perPage: nat)
    requires perPage >= 1
    ensures var m := |PlacedIn(images, |images|)|;
      PageCount(images, perPage) * perPage >= m
  {
    var m := |PlacedIn(images, |images|)|;
    var q := m / perPage;
    assert m == q * perPage + m % perPage;
    assert (q + 1) * perPage == q * perPage + perPage;
  }

  /** Read page after page, the document is every placement once, in input order. */
  lemma LayoutInOrder(images: seq<Image>, pageSize: PageSize, perPage: nat, columns: nat)
    requires perPage >= 1 && columns >= 1 && NoAbortBefore(images, |images|)
    ensures var f := FrameOf(pageSize, perPage, columns);
      Flatten(Compose(images, pageSize, perPage, columns).pages) == Placements(images, f, |images|)
  {
    var f := FrameOf(pageSize, perPage, columns);
    FirstAbortFree(images);
    var items := Placements(images, f, |images|);
    var c := PageCount(images, perPage);
    CountCovers(images, perPage);
    FlattenPaginate(items, perPage, c);
    assert Upto(items, c * perPage) == items;
  }

  /** The first `n` items, or all of them when there are fewer. */
  function Upto<T>(items: seq<T>, n: nat): seq<T> {
    items[..if |items| < n then |items| else n]
  }

  /** The first `count` pages, read in order, are the items they cover. */
  lemma {:induction false} FlattenPaginate<T>(items: seq<T>, perPage: nat, count: nat)
    requires perPage >= 1
    ensures Flatten(Paginate(items, perPage, count)) == Upto(items, count * perPage)
  {
    if count > 0 {
      var pages := Paginate(items, perPage, count);
      PaginatePrefix(items, perPage, count);
      assert Flatten(pages) == Flatten(pages[..count - 1]) + pages[count - 1];
      FlattenPaginate(items, perPage, count - 1);
      JoinSlices(items, count - 1, perPage);
    }
  }

  lemma PaginatePrefix<T>(items: seq<T>, perPage: nat, count: nat)
    requires perPage >= 1 && count >= 1
    ensures Paginate(items, perPage, count)[..count - 1] == Paginate(items, perPage, count - 1)
    ensures Paginate(items, perPage, count)[count - 1] == PageSlice(items, perPage, count - 1)
  {
  }

  /** The items before page `p` followed by page `p` are the items before page `p + 1`. */
  lemma JoinSlices<T>(items: seq<T>, p: nat, perPage: nat)
    requires perPage >= 1
    ensures Upto(items, p * perPage) + PageSlice(items, perPage, p) == Upto(items, (p + 1) * perPage)
  {
    assert (p + 1) * perPage == p * perPage + perPage;
  }

  // ---------------------------------------------------------------------------
  // The number of pages

  /** Whether the last input entry is placed. */
  predicate LastPlaced(images: seq<Image>) {
    |images| > 0 && Mime.Embeddable(images[|images| - 1].mime)
  }

  /** Every page but the last is full. */
  lemma PagesBeforeLastFull(images: seq<Image>, pageSize: PageSize, perPage: nat, columns: nat, p: nat)
    requires perPage >= 1 && columns >= 1 && NoAbortBefore(images, |images|)
    requires p + 1 < |Compose(images, pageSize, perPage, columns).pages|
    ensures |Compose(images, pageSize, perPage, columns).pages[p]| == perPage
  {
    var f := FrameOf(pageSize, perPage, columns);
    FirstAbortFree(images);
    var items := Placements(images, f, |images|);
    var c := PageCount(images, perPage);
    assert Compose(images, pageSize, perPage, columns).pages == Layout(images, f);
    assert Layout(images, f)[p] == PageSlice(items, perPage, p);
    assert |items| == |PlacedIn(images, |images|)|;
    LastPageStart(images, perPage);
    MulLe(p + 1, c - 1, perPage);
    SliceFull(items, perPage, p);
  }

  /** A page that ends within the items holds `perPage` of them. */
  lemma SliceFull<T>(items: seq<T>, perPage: nat, p: nat)
    requires perPage >= 1 && (p + 1) * perPage <= |items|
    ensures |PageSlice(items, perPage, p)| == perPage
  {
    assert (p + 1) * perPage == p * perPage + perPage;
  }

  /**
   * The last page is empty exactly when the placed count is a multiple of
   * `perPage` (none placed included) and the last input entry was skipped.
   */
  lemma LastPageEmptyIff(images: seq<Image>, pageSize: PageSize, perPage: nat, columns: nat)
    requires perPage >= 1 && columns >= 1 && NoAbortBefore(images, |images|)
    ensures var pages := Compose(images, pageSize, perPage, columns).pages;
      |pages| >= 1 &&
      (pages[|pages| - 1] == [] <==>
        |PlacedIn(images, |images|)| % perPage == 0 && !LastPlaced(images))
  {
    var f := FrameOf(pageSize, perPage, columns);
    FirstAbortFree(images);
    var items := Placements(images, f, |images|);
    var c := PageCount(images, perPage);
    assert Compose(images, pageSize, perPage, columns).pages == Layout(images, f);
    assert Layout(images, f)[c - 1] == PageSlice(items, perPage, c - 1);
    LastPageStart(images, perPage);
  }

  /**
   * The last page starts at or before the end of the placements, and exactly
   * at the end when the placed count is a multiple of `perPage` and the last
   * entry was skipped.
   */
  lemma LastPageStart(images: seq<Image>, perPage: nat)
    requires perPage >= 1
    ensures var m, c := |PlacedIn(images, |images|)|, PageCount(images, perPage);
      && (c - 1) * perPage <= m
      && ((c - 1) * perPage == m <==> m % perPage == 0 && !LastPlaced(images))
  {
    var m := |PlacedIn(images, |images|)|;
    var q, r := m / perPage, m % perPage;
    assert m == q * perPage + r;
    if LastPlaced(images) {
      assert PlacedIn(images, |images|) == PlacedIn(images, |images| - 1) + [|images| - 1];
      if r == 0 {
        assert (q - 1) * perPage == q * perPage - perPage;
      }
    }
  }

  /** With every type embeddable, n inputs take max(1, ceil(n / perPage)) pages. */
  lemma PageCountAllPlaced(images: seq<Image>, perPage: nat)
    requires perPage >= 1
    requires forall i :: 0 <= i < |images| ==> Mime.Embeddable(images[i].mime)
    ensures PageCount(images, perPage) == if |images| == 0 then 1 else CeilDiv(|images|, perPage)
  {
    var n := |images|;
    PlacedAll(images, n);
    if n > 0 {
      var q, s := n / perPage, n % perPage;
      assert n == q * perPage + s;
      if s == 0 {
        CeilDivIs(n, perPage, q);
      } else {
        assert (q + 1) * perPage == q * perPage + perPage;
        CeilDivIs(n, perPage, q + 1);
      }
    }
  }

  // ---------------------------------------------------------------------------
  // Worked cases

  /** No input: one page, nothing on it. */
  lemma EmptyInputOnePage(pageSize: PageSize, perPage: nat, columns: nat)
    requires perPage >= 1 && columns >= 1
    ensures Compose([], pageSize, perPage, columns) == Document(PageWidth(pageSize), PageHeight(pageSize), [[]])
  {
    var f := FrameOf(pageSize, perPage, columns);
    assert Layout([], f) == [[]];
  }

  const Pixel: Content := Bytes(None, Some(Size(1.0, 1.0)))

  /** Five PNG images, four to a page in two columns: four on page 1, one on page 2, in its top-left cell. */
  lemma FiveImagesTwoPages()
    ensures var images := seq(5, _ => Image(Mime.Png, Pixel));
      var pages := Compose(images, A4, 4, 2).pages;
      && Compose(images, A4, 4, 2).Document?
      && |pages| == 2 && |pages[0]| == 4 && |pages[1]| == 1
      && pages[1][0].index == 4 && pages[1][0].row == 0 && pages[1][0].col == 0
  {
    var images := seq(5, _ => Image(Mime.Png, Pixel));
    var f := FrameOf(A4, 4, 2);
    assert NoAbortBefore(images, 5);
    FirstAbortFree(images);
    PlacedAll(images, 5);
    PageCountAllPlaced(images, 4);
    assert CeilDiv(5, 4) == 2;
    var items := Placements(images, f, 5);
    var pages := Layout(images, f);
    assert pages[0] == PageSlice(items, 4, 0) == items[0..4];
    assert pages[1] == PageSlice(items, 4, 1) == items[4..5];
    LayoutOfPlaced(images, A4, 4, 2, 4);
  }

  /** An unsupported type in between takes no cell: the PNGs after it close up. */
  lemma SkippedEntryTakesNoCell()
    ensures var images := [Image(Mime.Png, Pixel), Image("text/plain", Pixel), Image(Mime.Png, Pixel)];
      var pages := Compose(images, Letter, 4, 2).pages;
      && Compose(images, Letter, 4, 2).Document?
      && |pages| == 1 && |pages[0]| == 2
      && pages[0][0].index == 0 && pages[0][0].row == 0 && pages[0][0].col == 0
      && pages[0][1].index == 2 && pages[0][1].row == 0 && pages[0][1].col == 1
  {
    var images := [Image(Mime.Png, Pixel), Image("text/plain", Pixel), Image(Mime.Png, Pixel)];
    assert Mime.Embeddable(Mime.Png) && !Mime.Embeddable("text/plain");
    assert NoAbortBefore(images, 3);
    FirstAbortFree(images);
    assert PlacedIn(images, 1) == [0];
    assert PlacedIn(images, 2) == [0];
    assert PlacedIn(images, 3) == [0, 2];
    var f := FrameOf(Letter, 4, 2);
    var items := Placements(images, f, 3);
    assert PageCount(images, 4) == 1;
    assert |PageSlice(items, 4, 0)| == 2;
    LayoutCell(images, Letter, 4, 2, 0, 0);
    LayoutCell(images, Letter, 4, 2, 0, 1);
  }

  /**
   * The page-break test counts raw entries, skipped ones included: a page
   * filled before a trailing unsupported entry is followed by an empty page.
   */
  lemma TrailingSkippedEntryLeavesEmptyPage()
    ensures var images := [Image(Mime.Png, Pixel), Image(Mime.Png, Pixel), Image("text/plain", Pixel)];
      var pages := Compose(images, A4, 2, 2).pages;
      && Compose(images, A4, 2, 2).Document?
      && |pages| == 2 && |pages[0]| == 2 && pages[1] == []
  {
    var images := [Image(Mime.Png, Pixel), Image(Mime.Png, Pixel), Image("text/plain", Pixel)];
    assert Mime.Embeddable(Mime.Png) && !Mime.Embeddable("text/plain");
    assert NoAbortBefore(images, 3);
    FirstAbortFree(images);
    assert PlacedIn(images, 1) == [0];
    assert PlacedIn(images, 2) == [0, 1];
    assert PlacedIn(images, 3) == [0, 1];
    var f := FrameOf(A4, 2, 2);
    var items := Placements(images, f, 3);
    assert |items| == 2;
    assert PageCount(images, 2) == 2;
    assert PageSlice(items, 2, 0) == items;
    assert PageSlice(items, 2, 1) == [];
    assert Layout(images, f) == [items, []];
  }

  /** The same two images with nothing after them fit on a single page. */
  lemma FullLastPageAddsNoPage()
    ensures var images := [Image(Mime.Png, Pixel), Image(Mime.Png, Pixel)];
      |Compose(images, A4, 2, 2).pages| == 1
  {
    var images := [Image(Mime.Png, Pixel), Image(Mime.Png, Pixel)];
    assert NoAbortBefore(images, 2);
    PageCountAllPlaced(images, 2);
    assert CeilDiv(2, 2) == 1;
  }
}
