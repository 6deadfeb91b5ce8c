/**
  The partition encoder.

  A region is encoded depth-first: an empty region contributes nothing; a region
  whose cells all share the colour of its top-left cell contributes that colour
  symbol; any other region contributes the split symbol followed by the codes of
  its top-left, top-right, bottom-left and bottom-right quadrants, in that order.

  `Encode` is the specification; `EncodeRecursive` is the procedure that scans
  the region and appends to a `StringBuilder`, proved to append exactly `Encode`.
 */
module Encoder {
  import opened Raster
  import opened Regions
  import opened Builder

  /** Every cell of the non-empty region `reg` has the colour of its top-left cell. */
  predicate Uniform(img: Image, reg: Region)
    requires WellFormed(img) && reg.Within(img.width, img.height) && !reg.IsEmpty()
  {
    forall i, j | reg.rowStart <= i <= reg.rowEnd && reg.colStart <= j <= reg.colEnd ::
      img.pixels[i][j] == img.pixels[reg.rowStart][reg.colStart]
  }

  /** A region holding two different colours has more than one cell. */
  lemma NonUniformNotCell(img: Image, reg: Region)
    requires WellFormed(img) && reg.Within(img.width, img.height) && !reg.IsEmpty()
    requires !Uniform(img, reg)
    ensures !reg.IsCell()
  {
    var i, j :| reg.Contains(i, j) && img.pixels[i][j] != img.pixels[reg.rowStart][reg.colStart];
  }

  /** The code of region `reg` of `img`. */
  function Encode(img: Image, reg: Region): (code: seq<char>)
    requires WellFormed(img) && reg.Within(img.width, img.height)
    ensures code == [] <==> reg.IsEmpty()
    decreases reg.Extent()
  {
    if reg.IsEmpty() then
      []
    else if Uniform(img, reg) then
      [img.pixels[reg.rowStart][reg.colStart]]
    else
      NonUniformNotCell(img, reg);
      QuadrantsShrink(reg);
      QuadrantsWithin(reg, img.width, img.height);
      [Split] +
      Encode(img, reg.TopLeft()) +
      Encode(img, reg.TopRight()) +
      Encode(img, reg.BottomLeft()) +
      Encode(img, reg.BottomRight())
  }

  /** The code of a region holding two colours: the split symbol, then the four quadrant codes. */
  lemma EncodeSplit(img: Image, reg: Region)
    requires WellFormed(img) && reg.Within(img.width, img.height) && !reg.IsEmpty()
    requires !Uniform(img, reg)
    ensures !reg.IsCell()
    ensures reg.TopLeft().Within(img.width, img.height) && reg.TopRight().Within(img.width, img.height)
    ensures reg.BottomLeft().Within(img.width, img.height) && reg.BottomRight().Within(img.width, img.height)
    ensures Encode(img, reg) ==
      [Split] + Encode(img, reg.TopLeft()) + Encode(img, reg.TopRight()) +
      Encode(img, reg.BottomLeft()) + Encode(img, reg.BottomRight())
  {
    NonUniformNotCell(img, reg);
    QuadrantsWithin(reg, img.width, img.height);
  }

  /** The code of an image of colour cells holds only colour and split symbols. */
  lemma {:induction false} EncodeAlphabet(img: Image, reg: Region)
    requires WellFormed(img) && reg.Within(img.width, img.height)
    ensures forall k | 0 <= k < |Encode(img, reg)| :: IsSymbol(Encode(img, reg)[k])
    decreases reg.Extent()
  {
    if !reg.IsEmpty() && !Uniform(img, reg) {
      NonUniformNotCell(img, reg);
      QuadrantsShrink(reg);
      QuadrantsWithin(reg, img.width, img.height);
      EncodeAlphabet(img, reg.TopLeft());
      EncodeAlphabet(img, reg.TopRight());
      EncodeAlphabet(img, reg.BottomLeft());
      EncodeAlphabet(img, reg.BottomRight());
    }
  }

  /**
    The first symbol of a region's code tells whether the region is uniform: a
    colour symbol stands alone and every cell of the region has that colour; the
    split symbol is followed by at least one more symbol.
   */
  lemma EncodeHead(img: Image, reg: Region)
    requires WellFormed(img) && reg.Within(img.width, img.height) && !reg.IsEmpty()
    ensures Encode(img, reg)[0] == Split <==> !Uniform(img, reg)
    ensures |Encode(img, reg)| == 1 <==> Uniform(img, reg)
    ensures |Encode(img, reg)| == 1 ==>
      forall i, j | reg.Contains(i, j) :: img.pixels[i][j] == Encode(img, reg)[0]
  {
    if !Uniform(img, reg) {
      NonUniformNotCell(img, reg);
      QuadrantSizes(reg);
      QuadrantsWithin(reg, img.width, img.height);
      assert |Encode(img, reg.TopLeft())| >= 1;
    }
  }

  /**
    The uniformity scan: compares each cell of the non-empty region, row by row,
    with the top-left cell, leaving a row at the first mismatch and skipping the
    remaining rows once a mismatch was found.
   */
  method ScanUniform(img: Image, reg: Region) returns (uniform: bool)
    requires WellFormed(img) && reg.Within(img.width, img.height) && !reg.IsEmpty()
    ensures uniform <==> Uniform(img, reg)
  {
    var firstColour := img.pixels[reg.rowStart][reg.colStart];
    uniform := true;
    ghost var badRow, badCol := reg.rowStart, reg.colStart;
    var i := reg.rowStart;
    while i <= reg.rowEnd && uniform
      invariant reg.rowStart <= i <= reg.rowEnd + 1
      invariant uniform ==>
        forall r, c | reg.rowStart <= r < i && reg.colStart <= c <= reg.colEnd ::
          img.pixels[r][c] == firstColour
      invariant !uniform ==> reg.Contains(badRow, badCol) && img.pixels[badRow][badCol] != firstColour
    {
      var j := reg.colStart;
      while j <= reg.colEnd
        invariant reg.colStart <= j <= reg.colEnd + 1
        invariant uniform
        invariant forall c | reg.colStart <= c < j :: img.pixels[i][c] == firstColour
      {
        if img.pixels[i][j] != firstColour {
          uniform := false;
          badRow, badCol := i, j;
          break;
        }
        j := j + 1;
      }
      i := i + 1;
    }
  }

  /** The split points computed from the bounds give the four quadrants. */
  lemma SplitPoints(reg: Region, midRow: int, midCol: int)
    requires !reg.IsEmpty()
    requires midRow == reg.rowStart + (reg.rowEnd - reg.rowStart + 1 + 1) / 2 - 1
    requires midCol == reg.colStart + (reg.colEnd - reg.colStart + 1 + 1) / 2 - 1
    ensures Region(reg.rowStart, midRow, reg.colStart, midCol) == reg.TopLeft()
    ensures Region(reg.rowStart, midRow, midCol + 1, reg.colEnd) == reg.TopRight()
    ensures Region(midRow + 1, reg.rowEnd, reg.colStart, midCol) == reg.BottomLeft()
    ensures Region(midRow + 1, reg.rowEnd, midCol + 1, reg.colEnd) == reg.BottomRight()
  {
  }

  /** Five appends in a row, the split symbol and four codes, append their concatenation. */
  lemma AppendSplitCode(s0: seq<char>, s1: seq<char>, s2: seq<char>, s3: seq<char>, s4: seq<char>, s5: seq<char>,
                        e1: seq<char>, e2: seq<char>, e3: seq<char>, e4: seq<char>, code: seq<char>)
    requires s1 == s0 + [Split] && s2 == s1 + e1 && s3 == s2 + e2 && s4 == s3 + e3 && s5 == s4 + e4
    requires code == [Split] + e1 + e2 + e3 + e4
    ensures s5 == s0 + code
  {
  }

  /** Appends the code of region `reg` of `img` to `sb`. */
  method EncodeRecursive(img: Image, reg: Region, sb: StringBuilder)
    requires WellFormed(img) && reg.Within(img.width, img.height)
    requires sb.Valid()
    modifies sb, sb.data
    ensures sb.Valid()
    ensures sb.Contents() == old(sb.Contents()) + Encode(img, reg)
    ensures sb.data == old(sb.data) || fresh(sb.data)
    decreases reg.Extent()
  {
    if reg.rowStart > reg.rowEnd || reg.colStart > reg.colEnd {
      return;
    }
    var firstColour := img.pixels[reg.rowStart][reg.colStart];
    var uniform := ScanUniform(img, reg);
    if uniform {
      assert Encode(img, reg) == [firstColour];
      sb.AppendChar(firstColour);
    } else {
      EncodeSplit(img, reg);
      QuadrantsShrink(reg);
      ghost var s0 := sb.Contents();
      sb.AppendChar(Split);
      ghost var s1 := sb.Contents();
      var height := reg.rowEnd - reg.rowStart + 1;
      var width := reg.colEnd - reg.colStart + 1;
      var midRow := reg.rowStart + (height + 1) / 2 - 1;
      var midCol := reg.colStart + (width + 1) / 2 - 1;
      SplitPoints(reg, midRow, midCol);
      EncodeRecursive(img, Region(reg.rowStart, midRow, reg.colStart, midCol), sb);
      ghost var s2 := sb.Contents();
      EncodeRecursive(img, Region(reg.rowStart, midRow, midCol + 1, reg.colEnd), sb);
      ghost var s3 := sb.Contents();
      EncodeRecursive(img, Region(midRow + 1, reg.rowEnd, reg.colStart, midCol), sb);
      ghost var s4 := sb.Contents();
      EncodeRecursive(img, Region(midRow + 1, reg.rowEnd, midCol + 1, reg.colEnd), sb);
      AppendSplitCode(s0, s1, s2, s3, s4, sb.Contents(), Encode(img, reg.TopLeft()), Encode(img, reg.TopRight()),
        Encode(img, reg.BottomLeft()), Encode(img, reg.BottomRight()), Encode(img, reg));
    }
  }

  /**
    Encodes the whole image into a fresh buffer and hands back the buffer's
    string: the code followed by the NUL terminator.
   */
  method EncodeImage(img: Image) returns (s: seq<char>)
    requires WellFormed(img)
    ensures s == Encode(img, Whole(img.width, img.height)) + [Nul]
  {
    var sb := new StringBuilder();
    var whole := Region(0, img.height - 1, 0, img.width - 1);
    assert whole == Whole(img.width, img.height);
    EncodeRecursive(img, whole, sb);
    assert sb.Contents() == Encode(img, whole);
    s := sb.ToString();
  }

  /**
    An image with no rows or no columns has the empty code; an image of at least
    one cell, all of colour `c`, has the one-symbol code `[c]`.
   */
  lemma WholeImageCode(img: Image, c: char)
    requires WellFormed(img)
    ensures img.width == 0 || img.height == 0 ==> Encode(img, Whole(img.width, img.height)) == []
    ensures img.width >= 1 && img.height >= 1 &&
            (forall i, j | 0 <= i < img.height && 0 <= j < img.width :: img.pixels[i][j] == c) ==>
            Encode(img, Whole(img.width, img.height)) == [c]
  {
    var whole := Whole(img.width, img.height);
    if img.width >= 1 && img.height >= 1 &&
       (forall i, j | 0 <= i < img.height && 0 <= j < img.width :: img.pixels[i][j] == c) {
      assert Uniform(img, whole);
      assert whole.Contains(0, 0);
    }
  }

  /** A one-cell region is coded by the colour of that cell. */
  lemma CellCode(img: Image, reg: Region)
    requires WellFormed(img) && reg.Within(img.width, img.height) && reg.IsCell()
    ensures Encode(img, reg) == [img.pixels[reg.rowStart][reg.colStart]]
  {
    assert Uniform(img, reg);
  }

  /**
    A two-by-two region holding both colours is coded as the split symbol
    followed by its four cells: top-left, top-right, bottom-left, bottom-right.
   */
  lemma TwoByTwoCode(img: Image, reg: Region)
    requires WellFormed(img) && reg.Within(img.width, img.height) && !reg.IsEmpty()
    requires reg.Height() == 2 && reg.Width() == 2 && !Uniform(img, reg)
    ensures Encode(img, reg) ==
      [Split] + [img.pixels[reg.rowStart][reg.colStart]] + [img.pixels[reg.rowStart][reg.colEnd]] +
      [img.pixels[reg.rowEnd][reg.colStart]] + [img.pixels[reg.rowEnd][reg.colEnd]]
  {
    EncodeSplit(img, reg);
    CellCode(img, reg.TopLeft());
    CellCode(img, reg.TopRight());
    CellCode(img, reg.BottomLeft());
    CellCode(img, reg.BottomRight());
  }

  /**
    A one-row region holding both colours has empty bottom quadrants, so its
    code is the split symbol followed by the codes of its left and right halves.
   */
  lemma RowSplit(img: Image, reg: Region)
    requires WellFormed(img) && reg.Within(img.width, img.height) && !reg.IsEmpty()
    requires reg.Height() == 1 && !Uniform(img, reg)
    ensures Encode(img, reg) == [Split] + Encode(img, reg.TopLeft()) + Encode(img, reg.TopRight())
  {
    EncodeSplit(img, reg);
    assert reg.BottomLeft().IsEmpty() && reg.BottomRight().IsEmpty();
    var left, right := Encode(img, reg.TopLeft()), Encode(img, reg.TopRight());
    assert [Split] + left + right + [] + [] == [Split] + left + right;
  }

  /** A one-row region of two cells of different colours: the split symbol, then the two cells. */
  lemma PairCode(img: Image, reg: Region)
    requires WellFormed(img) && reg.Within(img.width, img.height) && !reg.IsEmpty()
    requires reg.Height() == 1 && reg.Width() == 2
    requires img.pixels[reg.rowStart][reg.colStart] != img.pixels[reg.rowStart][reg.colEnd]
    ensures Encode(img, reg) ==
      [Split] + [img.pixels[reg.rowStart][reg.colStart]] + [img.pixels[reg.rowStart][reg.colEnd]]
  {
    assert !Uniform(img, reg) by {
      assert reg.Contains(reg.rowStart, reg.colEnd);
    }
    RowSplit(img, reg);
    CellCode(img, reg.TopLeft());
    CellCode(img, reg.TopRight());
  }

  /**
    A one-row region of four cells coloured c, d, d, c with c and d different:
    the split falls between the two middle cells, so the code has four colour
    symbols although the row has three runs of equal colour.
   */
  lemma RowOfFourCode(img: Image, reg: Region, c: char, d: char)
    requires WellFormed(img) && reg.Within(img.width, img.height) && !reg.IsEmpty()
    requires reg.Height() == 1 && reg.Width() == 4 && c != d
    requires img.pixels[reg.rowStart][reg.colStart] == c && img.pixels[reg.rowStart][reg.colStart + 1] == d
    requires img.pixels[reg.rowStart][reg.colStart + 2] == d && img.pixels[reg.rowStart][reg.colStart + 3] == c
    ensures Encode(img, reg) == [Split, Split, c, d, Split, d, c]
  {
    assert !Uniform(img, reg) by {
      assert reg.Contains(reg.rowStart, reg.colStart + 1);
    }
    RowSplit(img, reg);
    RowOfFourLeft(img, reg, c, d);
    RowOfFourRight(img, reg, c, d);
    RowOfFourGlue(Encode(img, reg), Encode(img, reg.TopLeft()), Encode(img, reg.TopRight()), c, d);
  }

  /** The left half of that row is the pair c, d. */
  lemma RowOfFourLeft(img: Image, reg: Region, c: char, d: char)
    requires WellFormed(img) && reg.Within(img.width, img.height) && !reg.IsEmpty()
    requires reg.Height() == 1 && reg.Width() == 4 && c != d
    requires img.pixels[reg.rowStart][reg.colStart] == c && img.pixels[reg.rowStart][reg.colStart + 1] == d
    ensures Encode(img, reg.TopLeft()) == [Split] + [c] + [d]
  {
    QuadrantsWithin(reg, img.width, img.height);
    PairCode(img, reg.TopLeft());
  }

  /** The right half of that row is the pair d, c. */
  lemma RowOfFourRight(img: Image, reg: Region, c: char, d: char)
    requires WellFormed(img) && reg.Within(img.width, img.height) && !reg.IsEmpty()
    requires reg.Height() == 1 && reg.Width() == 4 && c != d
    requires img.pixels[reg.rowStart][reg.colStart + 2] == d && img.pixels[reg.rowStart][reg.colStart + 3] == c
    ensures Encode(img, reg.TopRight()) == [Split] + [d] + [c]
  {
    QuadrantsWithin(reg, img.width, img.height);
    PairCode(img, reg.TopRight());
  }

  lemma RowOfFourGlue(code: seq<char>, left: seq<char>, right: seq<char>, c: char, d: char)
    requires code == [Split] + left + right
    requires left == [Split] + [c] + [d] && right == [Split] + [d] + [c]
    ensures code == [Split, Split, c, d, Split, d, c]
  {
  }
}
