/** The grid calculator: a balanced rows-by-columns partition for a number of images per page. */
module GridUtils {
  import opened Numeric

  datatype Grid = Grid(rows: nat, cols: nat)

  /**
   * The closed form used for counts outside the table: `cols` is the ceiling
   * square root of `n` and `rows` the ceiling of `n / cols`.
   */
  function DefaultGrid(n: nat): (g: Grid)
    requires n >= 1
    ensures g.cols * g.cols >= n && (g.cols - 1) * (g.cols - 1) < n
    ensures g.rows * g.cols >= n && (g.rows - 1) * g.cols < n
    ensures 1 <= g.rows <= g.cols
  {
    var cols := CeilSqrt(n);
    var rows := CeilDiv(n, cols);
    CeilDivLeast(n, cols, cols);
    Grid(rows, cols)
  }

  /** `calculateGrid`: hand-picked pairs for 1, 2, 4, 6 and 9, the closed form otherwise. */
  function CalculateGrid(n: nat): (g: Grid)
    requires n >= 1
    ensures g.rows * g.cols >= n
    ensures (g.rows - 1) * g.cols < n
    ensures 1 <= g.rows <= g.cols
  {
    match n
    case 1 => Grid(1, 1)
    case 2 => Grid(1, 2)
    case 4 => Grid(2, 2)
    case 6 => Grid(2, 3)
    case 9 => Grid(3, 3)
    case _ => DefaultGrid(n)
  }

  /** Every table entry is what the closed form gives, so the calculator is the closed form for all n >= 1. */
  lemma TableMatchesFormula(n: nat)
    requires n >= 1
    ensures CalculateGrid(n) == DefaultGrid(n)
  {
    if n == 1 {
      CeilSqrtIs(1, 1);
    } else if n == 2 {
      CeilSqrtIs(2, 2);
    } else if n == 4 {
      CeilSqrtIs(4, 2);
    } else if n == 6 {
      CeilSqrtIs(6, 3);
    } else if n == 9 {
      CeilSqrtIs(9, 3);
    }
  }

  /** The calculator's column count is the least `c` with `c * c >= n`, and its row count the least `r` with `r * cols >= n`. */
  lemma CalculateGridIsLeast(n: nat, c: nat, r: nat)
    requires n >= 1
    ensures c * c >= n ==> CalculateGrid(n).cols <= c
    ensures r * CalculateGrid(n).cols >= n ==> CalculateGrid(n).rows <= r
  {
    TableMatchesFormula(n);
    var g := DefaultGrid(n);
    if c * c >= n {
      CeilSqrtLeast(n, c);
    }
    if r * g.cols >= n {
      CeilDivLeast(n, g.cols, r);
    }
  }
}
