/**
  Regions of the image and the fixed rule that splits a region into four quadrants.

  A region is an inclusive range of rows and an inclusive range of columns; it is
  empty when either range is (start > end). Splitting a region of height h and
  width w puts (h + 1) / 2 rows in the top half and (w + 1) / 2 columns in the
  left half, so an odd remainder goes to the top and to the left.
 */
module Regions {

  datatype Region = Region(rowStart: int, rowEnd: int, colStart: int, colEnd: int)
  {
    predicate IsEmpty() {
      rowStart > rowEnd || colStart > colEnd
    }

    function Height(): int {
      rowEnd - rowStart + 1
    }

    function Width(): int {
      colEnd - colStart + 1
    }

    predicate Contains(i: int, j: int) {
      rowStart <= i <= rowEnd && colStart <= j <= colEnd
    }

    /** Empty, or lying inside an image of the given size. */
    predicate Within(width: int, height: int) {
      IsEmpty() || (0 <= rowStart && rowEnd < height && 0 <= colStart && colEnd < width)
    }

    /** A region of exactly one cell. */
    predicate IsCell() {
      rowStart == rowEnd && colStart == colEnd
    }

    /** The number of cells. */
    function Area(): nat {
      if IsEmpty() then 0 else Height() * Width()
    }

    /** Height plus width of a non-empty region, 0 for an empty one. */
    function Extent(): nat {
      if IsEmpty() then 0 else Height() + Width()
    }

    /** The last row of the top half. */
    function MidRow(): int
      requires !IsEmpty()
    {
      rowStart + (Height() + 1) / 2 - 1
    }

    /** The last column of the left half. */
    function MidCol(): int
      requires !IsEmpty()
    {
      colStart + (Width() + 1) / 2 - 1
    }

    function TopLeft(): Region
      requires !IsEmpty()
    {
      Region(rowStart, MidRow(), colStart, MidCol())
    }

    function TopRight(): Region
      requires !IsEmpty()
    {
      Region(rowStart, MidRow(), MidCol() + 1, colEnd)
    }

    function BottomLeft(): Region
      requires !IsEmpty()
    {
      Region(MidRow() + 1, rowEnd, colStart, MidCol())
    }

    function BottomRight(): Region
      requires !IsEmpty()
    {
      Region(MidRow() + 1, rowEnd, MidCol() + 1, colEnd)
    }
  }

  /** The region covering a whole image: rows 0..height-1, columns 0..width-1. */
  function Whole(width: nat, height: nat): (reg: Region)
    ensures reg.Within(width, height)
    ensures reg.IsEmpty() <==> width == 0 || height == 0
  {
    Region(0, height - 1, 0, width - 1)
  }

  /** How many of the four quadrants of `reg` hold the cell (i, j). */
  function QuadrantsHolding(reg: Region, i: int, j: int): nat
    requires !reg.IsEmpty()
  {
    (if reg.TopLeft().Contains(i, j) then 1 else 0) +
    (if reg.TopRight().Contains(i, j) then 1 else 0) +
    (if reg.BottomLeft().Contains(i, j) then 1 else 0) +
    (if reg.BottomRight().Contains(i, j) then 1 else 0)
  }

  /**
    The quadrants are disjoint and exactly cover their region: a cell of the
    region lies in exactly one quadrant, a cell outside it in none.
   */
  lemma QuadrantsPartition(reg: Region, i: int, j: int)
    requires !reg.IsEmpty()
    ensures QuadrantsHolding(reg, i, j) == if reg.Contains(i, j) then 1 else 0
  {
  }

  /**
    The top half has as many rows as the bottom half or one more, and the left
    half as many columns as the right half or one more; the top-left quadrant of
    a non-empty region is never empty.
   */
  lemma QuadrantSizes(reg: Region)
    requires !reg.IsEmpty()
    ensures reg.TopLeft().Height() == reg.TopRight().Height()
    ensures reg.BottomLeft().Height() == reg.BottomRight().Height()
    ensures reg.TopLeft().Width() == reg.BottomLeft().Width()
    ensures reg.TopRight().Width() == reg.BottomRight().Width()
    ensures reg.TopLeft().Height() + reg.BottomLeft().Height() == reg.Height()
    ensures reg.TopLeft().Width() + reg.TopRight().Width() == reg.Width()
    ensures 0 <= reg.TopLeft().Height() - reg.BottomLeft().Height() <= 1
    ensures 0 <= reg.TopLeft().Width() - reg.TopRight().Width() <= 1
    ensures !reg.TopLeft().IsEmpty()
  {
  }

  /** The quadrants of a region inside an image are inside the image too. */
  lemma QuadrantsWithin(reg: Region, width: int, height: int)
    requires !reg.IsEmpty() && reg.Within(width, height)
    ensures reg.TopLeft().Within(width, height)
    ensures reg.TopRight().Within(width, height)
    ensures reg.BottomLeft().Within(width, height)
    ensures reg.BottomRight().Within(width, height)
  {
  }

  /**
    Splitting a non-empty region of more than one cell yields four quadrants of
    strictly smaller extent: the measure on which the encoder's recursion
    terminates.
   */
  lemma QuadrantsShrink(reg: Region)
    requires !reg.IsEmpty() && !reg.IsCell()
    ensures reg.TopLeft().Extent() < reg.Extent()
    ensures reg.TopRight().Extent() < reg.Extent()
    ensures reg.BottomLeft().Extent() < reg.Extent()
    ensures reg.BottomRight().Extent() < reg.Extent()
  {
    QuadrantSizes(reg);
  }

  lemma MulLess(a: int, b: int, c: int, d: int)
    requires 0 <= a <= c && 0 <= b <= d && 1 <= c && 1 <= d
    requires a < c || b < d
    ensures a * b < c * d
  {
    if a < c {
      assert a * b <= a * d by {
        assert a * d - a * b == a * (d - b);
      }
      assert c * d - a * d == (c - a) * d;
    } else {
      assert c * d - a * b == a * (d - b);
    }
  }

  /**
    A region that is split (non-empty, more than one cell) has at least two
    cells, and each of its quadrants has strictly fewer cells than it.
   */
  lemma QuadrantAreasShrink(reg: Region)
    requires !reg.IsEmpty() && !reg.IsCell()
    ensures reg.Area() >= 2
    ensures reg.TopLeft().Area() < reg.Area()
    ensures reg.TopRight().Area() < reg.Area()
    ensures reg.BottomLeft().Area() < reg.Area()
    ensures reg.BottomRight().Area() < reg.Area()
  {
    var h, w := reg.Height(), reg.Width();
    QuadrantSizes(reg);
    MulLess(1, 1, h, w);
    var top, bottom := reg.TopLeft().Height(), reg.BottomLeft().Height();
    var left, right := reg.TopLeft().Width(), reg.TopRight().Width();
    MulLess(top, left, h, w);
    if right > 0 {
      MulLess(top, right, h, w);
    }
    if bottom > 0 {
      MulLess(bottom, left, h, w);
      if right > 0 {
        MulLess(bottom, right, h, w);
      }
    }
  }
}
