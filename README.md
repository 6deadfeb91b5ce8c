# Quadtree encoder for binary images, in Dafny

This project models the core of a small C program. The program compresses a
binary image, a rectangular grid of white (`B`) and black (`P`) cells, into a
textual code. It also models the growable character buffer that the code is
written into.

The encoder works on an inclusive region of rows and columns:

- An empty region contributes nothing.
- A region whose cells all have the colour of its top-left cell contributes
  that colour symbol.
- Any other region contributes the split symbol `X`, then the codes of its
  four quadrants: top-left, top-right, bottom-left, bottom-right.
- The split puts `(h + 1) / 2` of the region's `h` rows in the top half and
  `(w + 1) / 2` of its `w` columns in the left half.
- The whole image is encoded as rows `0 .. height-1` and columns
  `0 .. width-1`.

The buffer is an array of characters with a length and a capacity. It holds
the appended characters followed by a NUL terminator. It starts at 64 cells
and doubles its capacity until a request fits. When it is finished it hands
back its characters.

Modules, one per file:

- `Raster` (`raster.dfy`): the three code symbols and the image, a value
  with a well-formedness predicate. Well-formed means rectangular, of the
  stated size, and every cell a colour.
- `Regions` (`regions.dfy`): the region value type and the split
  arithmetic. It proves that the quadrants:
  - partition the region;
  - have the sizes above;
  - stay inside the image;
  - shrink.
- `Builder` (`string_builder.dfy`): the buffer as a class over an
  `array<char>`. Its methods are proved against the abstract content
  `Contents()` and the invariant `Valid()`.
- `Encoder` (`encoder.dfy`): the pure specification `Encode` and the
  imperative procedures.
  - `ScanUniform` is the nested uniformity loop. It is proved to compute
    the predicate `Uniform`.
  - `EncodeRecursive` is proved to append exactly `Encode` of its region to
    a `StringBuilder`.
  - `EncodeImage` is the entry point. It is proved to return `Encode` of the
    whole image followed by the NUL terminator.
- `Decoder` (`decoder.dfy`): a reader of the code. It serves only to state
  and prove that the code is lossless. The code of a region delimits itself,
  and an image of known size is determined by its code. The C program has
  no decoder.

The code does not give one colour symbol per maximal run of a one-row image.
The split is positional and ignores runs. `RowOfFourCode` proves that a
1 × 4 row of colours c, d, d, c with c ≠ d is coded `X X c d X d c`. So the
row `B P P B` is coded `X X B P X P B`: four colour symbols for three runs.
The model follows the code.

## Model

| member | source | states |
|---|---|---|
| `Raster.IsColour` | image.h:14-15 | A colour is `B` (white) or `P` (black), the two pixel values. |
| `Raster.IsSymbol` | image.h:14-16 | A code symbol is a colour or the split symbol `X`. |
| `Raster.WellFormed` | image.h:21-25 | The image has `height` rows of `width` cells each, and every cell is a colour, as the reader guarantees. |
| `Regions.Region.IsEmpty` | encoder.c:13 | A region is empty when its first row is past its last row or its first column is past its last column. |
| `Regions.Region.Height` | encoder.c:37 | The number of rows of the region, last row minus first row plus one. |
| `Regions.Region.Width` | encoder.c:38 | The number of columns of the region, last column minus first column plus one. |
| `Regions.Region.MidRow` | encoder.c:41 | The last row of the top half, chosen so that the top half holds `(h + 1) / 2` of the region's `h` rows. |
| `Regions.Region.MidCol` | encoder.c:42 | The last column of the left half, chosen so that the left half holds `(w + 1) / 2` of the region's `w` columns. |
| `Regions.Region.TopLeft` | encoder.c:45 | Rows from the first to the middle row, columns from the first to the middle column. |
| `Regions.Region.TopRight` | encoder.c:46 | Rows from the first to the middle row, columns after the middle column to the last. |
| `Regions.Region.BottomLeft` | encoder.c:47 | Rows after the middle row to the last, columns from the first to the middle column. |
| `Regions.Region.BottomRight` | encoder.c:48 | Rows after the middle row to the last, columns after the middle column to the last. |
| `Regions.Whole` | encoder.c:57 | The region of rows 0..height-1 and columns 0..width-1 lies within the image. It is empty exactly when the width or the height is 0. |
| `Regions.QuadrantsPartition` | encoder.c:41-48 | A cell of a region lies in exactly one of the four quadrants. A cell outside the region lies in none. |
| `Regions.QuadrantSizes` | encoder.c:37-42 | The top half has as many rows as the bottom half or one more. The left half has as many columns as the right half or one more. The halves add up to the region. The top-left quadrant of a non-empty region is non-empty. |
| `Regions.QuadrantsWithin` | encoder.c:44-48 | The quadrants of a region inside the image are inside the image, so the recursive calls index only existing cells. |
| `Regions.QuadrantsShrink` | encoder.c:41-48 | Each quadrant of a split region has a strictly smaller height-plus-width. This is the measure on which the recursion terminates. |
| `Regions.QuadrantAreasShrink` | encoder.c:41-48 | A split region has at least two cells, and each of its quadrants has strictly fewer cells. |
| `Encoder.Uniform` | encoder.c:16-27 | Every cell of the region has the colour of its top-left cell. |
| `Encoder.NonUniformNotCell` | encoder.c:16-35 | A region whose cells do not all share the top-left colour has more than one cell, so splitting it makes progress. |
| `Encoder.Encode` | encoder.c:10-50 | The code of a region is empty exactly when the region is empty. |
| `Encoder.EncodeSplit` | encoder.c:33-48 | The code of a non-uniform region is `X`, then the top-left, top-right, bottom-left and bottom-right codes, in that order. The region has more than one cell and its quadrants lie in the image. |
| `Encoder.EncodeAlphabet` | encoder.c:29-35 | If every cell is `B` or `P`, the code holds only `B`, `P` and `X`. |
| `Encoder.EncodeHead` | encoder.c:29-35 | The code of a non-empty region starts with `X` exactly when the region is not uniform. The code has length 1 exactly when the region is uniform, and then every cell has that one symbol's colour. |
| `Encoder.ScanUniform` | encoder.c:15-27 | The nested scan with its early exits returns true exactly when every cell equals the top-left cell. |
| `Encoder.EncodeRecursive` | encoder.c:10-50 | The procedure appends exactly `Encode(img, reg)` to the buffer and keeps the buffer valid. |
| `Encoder.EncodeImage` | encoder.c:52-61 | The result is the code of the whole image followed by the NUL terminator. |
| `Encoder.WholeImageCode` | encoder.c:52-61 | An image with no rows or no columns has the empty code. An image of at least one cell, all of colour `c`, has the code `[c]`. |
| `Encoder.CellCode` | encoder.c:29-32 | A one-cell region is coded by the colour of that cell. |
| `Encoder.TwoByTwoCode` | encoder.c:33-48 | A non-uniform 2 × 2 region is coded as `X` followed by its cells in top-left, top-right, bottom-left, bottom-right order. |
| `Encoder.RowSplit` | encoder.c:37-48 | A non-uniform one-row region has empty bottom quadrants. Its code is `X` followed by the codes of its left and right halves. |
| `Encoder.PairCode` | encoder.c:33-48 | A one-row region of two differently coloured cells is coded as `X`, the left cell, the right cell. |
| `Encoder.RowOfFourCode` | encoder.c:33-48 | A one-row region of four cells coloured c, d, d, c with c ≠ d is coded `X X c d X d c`: the split ignores runs of equal colour. |
| `Decoder.RestOfEncode` | encoder.c:10-50 | The code of a region delimits itself. Reading it back, whatever follows, consumes exactly the code and leaves what follows. |
| `Decoder.RestProgress` | encoder.c:13-35 | Reading a region's code leaves the input unchanged exactly when the region is empty: an empty region writes nothing, and every other region writes at least one symbol. |
| `Decoder.CellColourOfEncode` | encoder.c:10-50 | Reading back the code of a region gives every cell of the region its colour in the image. |
| `Decoder.DecodeEncode` | encoder.c:52-61 | Decoding the code of an image, given its width and height, gives back the image. |
| `Decoder.EncodeInjective` | encoder.c:52-61 | Two well-formed images of the same size with the same code are equal. |
| `Builder.StringBuilder.Valid` | string_builder.h:15-19 | The data block has `capacity` cells, the length is below the capacity, the cell at the length holds NUL (string_builder.c:14 and :39), and the capacity is 64 times a power of two. |
| `Builder.Realloc` | string_builder.c:29 | The new block is fresh, has the requested size, and starts with the old block's cells. |
| `Builder.StringBuilder.constructor` | string_builder.c:11-18 | A new buffer has length 0, capacity 64, a NUL in cell 0 and empty content. |
| `Builder.StringBuilder.Resize` | string_builder.c:21-31 | Afterwards the capacity exceeds the request. Capacity never decreases and stays 64 times a power of two. If it grew, it is at most twice the request, so it is the first doubling that fits, in a fresh block. Nothing changes when the request is below the capacity. The old cells and the content are preserved. |
| `Builder.StringBuilder.AppendChar` | string_builder.c:33-40 | The length grows by one, and the character sits at the old length. The terminator follows it. Earlier cells are unchanged, the content becomes the old content plus the character, and room for the terminator remains. When the old length plus two was below the capacity, the block and capacity stay. Otherwise a fresh block is taken, of at most twice the old length plus two. |
| `Builder.StringBuilder.ToString` | string_builder.c:42-46 | The result is the appended characters, in append order, followed by NUL. |

## Left out

- reader.c, cli.c, main.c and image.c are not part of this model. They hold file and console input, argument handling, printing, and the allocation of the pixel matrix.
  - The image is a well-formed value handed to the encoder.
  - The reader's guarantee that every cell is `B` or `P` becomes the well-formedness precondition.
  - Because the image is a value, the encoder cannot modify it.
- `sb_free` (string_builder.c:48-53) only releases memory and returns nothing. It is not modelled.
- Builder.StringBuilder.ToString: the source frees the builder's control block and hands the data block to the caller. The model returns the content and does not invalidate the builder.
- Allocation failure of `malloc` and `realloc` is not modelled. The source does not check for it either.
- The 32-bit `int` of the source is not modelled.
  - Integers are unbounded.
  - Overflow of `capacity *= 2` and of region indices is outside the model.
- Builder.Realloc models `realloc` as a fresh block holding a copy of the old cells. Whether the block moves in place is not captured. Cells past the old ones are left unspecified.
- Cost is not modelled: the amortised constant time of an append and the number of reallocations are not stated.
- Termination is shown on height plus width rather than on area. Regions.QuadrantAreasShrink proves the area decrease separately.
