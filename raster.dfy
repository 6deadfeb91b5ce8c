/**
  The binary image the encoder reads, and the three symbols of the code it writes.

  The image is a rectangular grid of cells, each holding one of the two colour
  symbols; rows are indexed first (`pixels[row][column]`).
 */
module Raster {

  /** A white cell, and the code symbol of an all-white region. */
  const White: char := 'B'

  /** A black cell, and the code symbol of an all-black region. */
  const Black: char := 'P'

  /** The code symbol announcing that four quadrant codes follow. */
  const Split: char := 'X'

  predicate IsColour(c: char) {
    c == White || c == Black
  }

  /** A symbol that may appear in a code. */
  predicate IsSymbol(c: char) {
    IsColour(c) || c == Split
  }

  datatype Image = Image(width: nat, height: nat, pixels: seq<seq<char>>)

  /** Rectangular, of the stated size, and every cell a colour. */
  predicate WellFormed(img: Image) {
    |img.pixels| == img.height &&
    forall i | 0 <= i < img.height ::
      |img.pixels[i]| == img.width &&
      forall j | 0 <= j < img.width :: IsColour(img.pixels[i][j])
  }
}
