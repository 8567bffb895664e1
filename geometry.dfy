/**
 * Page sizes, grid cells and the fit-and-centre rule, over real numbers as an
 * idealisation of the double-precision arithmetic of the layout code.
 * Coordinates follow the document format's convention: the origin is the
 * bottom-left corner of the page.
 */
module Geometry {

  datatype PageSize = A4 | Letter

  /** Page width in points. */
  function PageWidth(size: PageSize): (w: real)
    ensures w > 0.0 && w < PageHeight(size)
  {
    if size == Letter then 612.0 else 595.28
  }

  /** Page height in points. */
  function PageHeight(size: PageSize): (h: real)
    ensures h > 0.0
  {
    if size == Letter then 792.0 else 841.89
  }

  /** The space a cell keeps free around its image, summed over both sides. */
  const Padding: real := 20.0

  /** An axis-aligned rectangle: lower-left corner and extent. */
  datatype Box = Box(x: real, y: real, width: real, height: real)

  function Min(a: real, b: real): (m: real)
    ensures m <= a && m <= b && (m == a || m == b)
  {
    if a < b then a else b
  }

  /** The cell at grid position (row, col); row 0 is the top row. */
  function CellAt(pageHeight: real, cellWidth: real, cellHeight: real, row: nat, col: nat): (b: Box)
    ensures b.width == cellWidth && b.height == cellHeight
    ensures b.y + b.height == pageHeight - row as real * cellHeight
    ensures b.x + b.width == (col + 1) as real * cellWidth
  {
    Box(col as real * cellWidth, pageHeight - (row + 1) as real * cellHeight, cellWidth, cellHeight)
  }

  /**
   * An image of the given extent scaled by one factor, the largest that keeps
   * it inside the padded cell, and centred in the cell: the gap on the left
   * equals the gap on the right and the gap below equals the gap above.
   */
  function FitInCell(cell: Box, width: real, height: real): (b: Box)
    requires width > 0.0 && height > 0.0
    ensures b.x - cell.x == (cell.x + cell.width) - (b.x + b.width)
    ensures b.y - cell.y == (cell.y + cell.height) - (b.y + b.height)
  {
    var maxWidth := cell.width - Padding;
    var maxHeight := cell.height - Padding;
    var scale := Min(maxWidth / width, maxHeight / height);
    var drawWidth := width * scale;
    var drawHeight := height * scale;
    Box(cell.x + (cell.width - drawWidth) / 2.0, cell.y + (cell.height - drawHeight) / 2.0, drawWidth, drawHeight)
  }

  /**
   * When the padded cell has room in both directions, the fitted image keeps
   * its aspect ratio, stays within the padded extent, and touches it in at
   * least one direction; it therefore keeps at least half the padding from
   * every edge of the cell.
   */
  lemma FitWithinPadding(cell: Box, width: real, height: real)
    requires width > 0.0 && height > 0.0
    requires cell.width > Padding && cell.height > Padding
    ensures var b := FitInCell(cell, width, height);
      && 0.0 < b.width <= cell.width - Padding
      && 0.0 < b.height <= cell.height - Padding
      && (b.width == cell.width - Padding || b.height == cell.height - Padding)
      && b.width * height == b.height * width
      && cell.x + Padding / 2.0 <= b.x && b.x + b.width <= cell.x + cell.width - Padding / 2.0
      && cell.y + Padding / 2.0 <= b.y && b.y + b.height <= cell.y + cell.height - Padding / 2.0
  {
    var maxWidth := cell.width - Padding;
    var maxHeight := cell.height - Padding;
    var sw, sh := maxWidth / width, maxHeight / height;
    assert sw * width == maxWidth;
    assert sh * height == maxHeight;
    var scale := Min(sw, sh);
    assert scale > 0.0;
    assert width * scale <= width * sw;
    assert height * scale <= height * sh;
  }

  /** A cell of a rows-by-cols grid that divides the page evenly lies on the page. */
  lemma CellOnPage(pageWidth: real, pageHeight: real, rows: nat, cols: nat, row: nat, col: nat)
    requires pageWidth > 0.0 && pageHeight > 0.0
    requires row < rows && col < cols
    ensures var c := CellAt(pageHeight, pageWidth / cols as real, pageHeight / rows as real, row, col);
      && 0.0 <= c.x && c.x + c.width <= pageWidth
      && 0.0 <= c.y && c.y + c.height <= pageHeight
  {
    var cw, ch := pageWidth / cols as real, pageHeight / rows as real;
    assert cw * cols as real == pageWidth;
    assert ch * rows as real == pageHeight;
    assert col as real * cw + cw == (col + 1) as real * cw;
    assert (col + 1) as real * cw <= cols as real * cw;
    assert (row + 1) as real * ch <= rows as real * ch;
    assert pageHeight - (row + 1) as real * ch + ch == pageHeight - row as real * ch;
  }

  /** Fitting a 200 by 100 image into a 100-point square cell: width-bound, 80 by 40, centred. */
  lemma WideImageInSquareCell()
    ensures FitInCell(Box(0.0, 0.0, 100.0, 100.0), 200.0, 100.0) == Box(10.0, 30.0, 80.0, 40.0)
  {
    assert Min(80.0 / 200.0, 80.0 / 100.0) == 0.4;
  }
}
