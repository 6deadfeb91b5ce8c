/**
  A reader for the code, used only to state what the encoder promises: the code
  of a region can be delimited without knowing what follows it, and the code of
  an image, together with the image's width and height, determines every cell.

  The reader follows the same split rule as the encoder: an empty region has no
  code; at a colour symbol the whole region has that colour; at a split symbol
  the codes of the top-left, top-right, bottom-left and bottom-right quadrants
  follow, in that order.
 */
module Decoder {
  import opened Raster
  import opened Regions
  import opened Encoder

  datatype Option<T> = None | Some(value: T)

  /**
    What follows the code of region `reg` at the start of `code`, or None when
    `code` does not start with a code of `reg`.
   */
  function Rest(code: seq<char>, reg: Region): (r: Option<seq<char>>)
    ensures r.Some? ==> |r.value| <= |code|
    ensures r.Some? && !reg.IsEmpty() ==> |r.value| < |code|
    decreases reg.Extent()
  {
    if reg.IsEmpty() then Some(code)
    else if code == [] then None
    else if IsColour(code[0]) then Some(code[1..])
    else if code[0] != Split || reg.IsCell() then None
    else
      QuadrantsShrink(reg);
      var r1 := Rest(code[1..], reg.TopLeft());
      if r1.None? then None else
      var r2 := Rest(r1.value, reg.TopRight());
      if r2.None? then None else
      var r3 := Rest(r2.value, reg.BottomLeft());
      if r3.None? then None else
      Rest(r3.value, reg.BottomRight())
  }

  /**
    Reading leaves the input untouched exactly for an empty region: the code of
    a region with cells has at least one symbol.
   */
  lemma RestProgress(code: seq<char>, reg: Region)
    requires Rest(code, reg).Some?
    ensures Rest(code, reg) == Some(code) <==> reg.IsEmpty()
  {
  }

  /** How `Rest` reads past a split symbol, quadrant by quadrant. */
  lemma RestAfterSplit(code: seq<char>, reg: Region, r1: seq<char>, r2: seq<char>, r3: seq<char>)
    requires code != [] && code[0] == Split && !reg.IsEmpty() && !reg.IsCell()
    requires Rest(code[1..], reg.TopLeft()) == Some(r1)
    requires Rest(r1, reg.TopRight()) == Some(r2)
    requires Rest(r2, reg.BottomLeft()) == Some(r3)
    ensures Rest(code, reg) == Rest(r3, reg.BottomRight())
  {
  }

  /** A split code followed by more symbols, regrouped from the right. */
  lemma SplitCode(rest: seq<char>, e1: seq<char>, e2: seq<char>, e3: seq<char>, e4: seq<char>)
    ensures ([Split] + e1 + e2 + e3 + e4) + rest == [Split] + (e1 + (e2 + (e3 + (e4 + rest))))
  {
  }

  /** The code of a region is delimited by `Rest`, whatever follows it. */
  lemma {:induction false} RestOfEncode(img: Image, reg: Region, rest: seq<char>)
    requires WellFormed(img) && reg.Within(img.width, img.height)
    ensures Rest(Encode(img, reg) + rest, reg) == Some(rest)
    decreases reg.Extent()
  {
    if reg.IsEmpty() {
      assert Encode(img, reg) + rest == rest;
    } else {
      var e := Encode(img, reg);
      if Uniform(img, reg) {
        assert e == [img.pixels[reg.rowStart][reg.colStart]];
        assert (e + rest)[1..] == rest;
      } else {
        QuadrantsShrink(reg);
        var e1, e2 := Encode(img, reg.TopLeft()), Encode(img, reg.TopRight());
        var e3, e4 := Encode(img, reg.BottomLeft()), Encode(img, reg.BottomRight());
        EncodeSplit(img, reg);
        SplitCode(rest, e1, e2, e3, e4);
        var code := e + rest;
        assert code[1..] == e1 + (e2 + (e3 + (e4 + rest)));
        RestOfEncode(img, reg.TopLeft(), e2 + (e3 + (e4 + rest)));
        RestOfEncode(img, reg.TopRight(), e3 + (e4 + rest));
        RestOfEncode(img, reg.BottomLeft(), e4 + rest);
        RestOfEncode(img, reg.BottomRight(), rest);
        RestAfterSplit(code, reg, e2 + (e3 + (e4 + rest)), e3 + (e4 + rest), e4 + rest);
      }
    }
  }

  /**
    The colour that the code of region `reg` at the start of `code` gives to the
    cell (i, j) of that region, or None when `code` does not start with such a code.
   */
  function CellColour(code: seq<char>, reg: Region, i: int, j: int): (c: Option<char>)
    requires reg.Contains(i, j)
    ensures c.Some? ==> IsColour(c.value)
    decreases reg.Extent()
  {
    if code == [] then None
    else if IsColour(code[0]) then Some(code[0])
    else if code[0] != Split || reg.IsCell() then None
    else
      QuadrantsShrink(reg);
      QuadrantsPartition(reg, i, j);
      if reg.TopLeft().Contains(i, j) then
        CellColour(code[1..], reg.TopLeft(), i, j)
      else
        var r1 := Rest(code[1..], reg.TopLeft());
        if r1.None? then None
        else if reg.TopRight().Contains(i, j) then
          CellColour(r1.value, reg.TopRight(), i, j)
        else
          var r2 := Rest(r1.value, reg.TopRight());
          if r2.None? then None
          else if reg.BottomLeft().Contains(i, j) then
            CellColour(r2.value, reg.BottomLeft(), i, j)
          else
            var r3 := Rest(r2.value, reg.BottomLeft());
            if r3.None? then None
            else CellColour(r3.value, reg.BottomRight(), i, j)
  }

  /** Reading back the code of a region gives every cell of it its colour. */
  lemma {:induction false} CellColourOfEncode(img: Image, reg: Region, rest: seq<char>, i: int, j: int)
    requires WellFormed(img) && reg.Within(img.width, img.height) && reg.Contains(i, j)
    ensures CellColour(Encode(img, reg) + rest, reg, i, j) == Some(img.pixels[i][j])
    decreases reg.Extent()
  {
    var e := Encode(img, reg);
    if Uniform(img, reg) {
      assert e == [img.pixels[reg.rowStart][reg.colStart]];
      assert (e + rest)[0] == img.pixels[i][j];
    } else {
      QuadrantsShrink(reg);
      QuadrantsPartition(reg, i, j);
      var e1, e2 := Encode(img, reg.TopLeft()), Encode(img, reg.TopRight());
      var e3, e4 := Encode(img, reg.BottomLeft()), Encode(img, reg.BottomRight());
      EncodeSplit(img, reg);
      SplitCode(rest, e1, e2, e3, e4);
      var code := e + rest;
      assert code[0] == Split;
      assert code[1..] == e1 + (e2 + (e3 + (e4 + rest)));
      if reg.TopLeft().Contains(i, j) {
        CellColourOfEncode(img, reg.TopLeft(), e2 + (e3 + (e4 + rest)), i, j);
      } else {
        RestOfEncode(img, reg.TopLeft(), e2 + (e3 + (e4 + rest)));
        if reg.TopRight().Contains(i, j) {
          CellColourOfEncode(img, reg.TopRight(), e3 + (e4 + rest), i, j);
        } else {
          RestOfEncode(img, reg.TopRight(), e3 + (e4 + rest));
          if reg.BottomLeft().Contains(i, j) {
            CellColourOfEncode(img, reg.BottomLeft(), e4 + rest, i, j);
          } else {
            RestOfEncode(img, reg.BottomLeft(), e4 + rest);
            CellColourOfEncode(img, reg.BottomRight(), rest, i, j);
          }
        }
      }
    }
  }

  /** The colour the code gives to cell (i, j) of `whole`, white where it gives none. */
  function ColourOrWhite(code: seq<char>, whole: Region, i: int, j: int): (c: char)
    ensures IsColour(c)
  {
    if whole.Contains(i, j) then
      match CellColour(code, whole, i, j)
      case Some(colour) => colour
      case None => White
    else
      White
  }

  function Cells(code: seq<char>, width: nat, height: nat): seq<seq<char>> {
    seq(height, i => seq(width, j => ColourOrWhite(code, Whole(width, height), i, j)))
  }

  /**
    The image of the given size whose code is exactly `code`, or None when
    `code` is not the code of an image of that size.
   */
  function Decode(code: seq<char>, width: nat, height: nat): (img: Option<Image>)
    ensures img.Some? ==> WellFormed(img.value)
    ensures img.Some? ==> img.value.width == width && img.value.height == height
  {
    var whole := Whole(width, height);
    if Rest(code, whole) != Some([]) then
      None
    else if exists i, j | 0 <= i < height && 0 <= j < width :: CellColour(code, whole, i, j).None? then
      None
    else
      Some(Image(width, height, Cells(code, width, height)))
  }

  /** Decoding the code of an image, given its size, gives back the image. */
  lemma DecodeEncode(img: Image)
    requires WellFormed(img)
    ensures Decode(Encode(img, Whole(img.width, img.height)), img.width, img.height) == Some(img)
  {
    var whole := Whole(img.width, img.height);
    var code := Encode(img, whole);
    assert code + [] == code;
    RestOfEncode(img, whole, []);
    forall i, j | whole.Contains(i, j)
      ensures CellColour(code, whole, i, j) == Some(img.pixels[i][j])
    {
      CellColourOfEncode(img, whole, [], i, j);
    }
    var cells := Cells(code, img.width, img.height);
    forall i | 0 <= i < img.height
      ensures cells[i] == img.pixels[i]
    {
      forall j | 0 <= j < img.width
        ensures cells[i][j] == img.pixels[i][j]
      {
        assert whole.Contains(i, j);
      }
    }
    assert cells == img.pixels;
  }

  /** Two images of the same size with the same code are the same image. */
  lemma EncodeInjective(img1: Image, img2: Image)
    requires WellFormed(img1) && WellFormed(img2)
    requires img1.width == img2.width && img1.height == img2.height
    requires Encode(img1, Whole(img1.width, img1.height)) == Encode(img2, Whole(img2.width, img2.height))
    ensures img1 == img2
  {
    DecodeEncode(img1);
    DecodeEncode(img2);
  }
}
