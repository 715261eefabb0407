/**
 * The pixel buffer shared by every component: a flat, row-major buffer of
 * integer intensities, `width` pixels per row, and the rectangular regions of
 * it that the scans fill.
 */
module Raster {

  /** Half-width of the 5x5 neighbourhood (GAP_SIZE and EDGE_DISTANCE, both 2). */
  const Margin: int := 2

  /** Side of the square kernel window (FILTER_SIZE). */
  const FilterSize: int := 5

  /** Offset of the pixel at row `i`, column `j` in a row-major buffer. */
  function PixelIndex(i: int, j: int, width: int): int
  {
    i * width + j
  }

  /**
   * The intensity stored at offset `p`. The evaluators only ever read inside
   * the buffer (their callers must establish WindowInside); outside it this
   * specification reads 0 so that the quantified predicates below stay total.
   */
  function Pixel(s: seq<int>, p: int): int
  {
    if 0 <= p < |s| then s[p] else 0
  }

  /**
   * The 5x5 window centred on (row, column) lies inside a buffer of length
   * `len` with rows of `width` pixels: at least two rows above and two columns
   * to the left, two columns to the right inside the row, and rows up to
   * row + 2 stored in the buffer.
   */
  predicate WindowInside(len: int, width: int, row: int, column: int)
  {
    Margin <= row && Margin <= column && column + Margin < width && (row + Margin + 1) * width <= len
  }

  /** A rectangle of pixels: rows [row, row+height), columns [column, column+width). */
  datatype Region = Region(row: int, column: int, width: int, height: int)

  predicate Contains(rg: Region, i: int, j: int)
  {
    rg.row <= i < rg.row + rg.height && rg.column <= j < rg.column + rg.width
  }

  predicate IsEmpty(rg: Region)
  {
    rg.width <= 0 || rg.height <= 0
  }

  /** The interior of a width x height image: every pixel at least Margin from each border. */
  function Interior(width: int, height: int): (rg: Region)
    ensures forall i, j :: Contains(rg, i, j) <==>
              Margin <= i < height - Margin && Margin <= j < width - Margin
  {
    Region(Margin, Margin, width - 2 * Margin, height - 2 * Margin)
  }

  /**
   * A region that is empty or lies within the interior of a fullWidth x
   * fullHeight image: the precondition under which a scan of it reads and
   * writes in bounds.
   */
  predicate InsideInterior(rg: Region, fullWidth: int, fullHeight: int)
  {
    IsEmpty(rg) ||
    (Margin <= rg.row && rg.row + rg.height <= fullHeight - Margin &&
     Margin <= rg.column && rg.column + rg.width <= fullWidth - Margin)
  }

  lemma MulMonotone(a: int, b: int, w: int)
    requires 0 <= a <= b && 0 <= w
    ensures a * w <= b * w
  {
  }

  /**
   * Every pixel of an interior region has its whole 5x5 window inside the
   * buffer, so the evaluators may be applied to it.
   */
  lemma InteriorWindowInside(rg: Region, fullWidth: int, fullHeight: int, i: int, j: int)
    requires 0 <= fullHeight
    requires InsideInterior(rg, fullWidth, fullHeight) && Contains(rg, i, j)
    ensures WindowInside(fullWidth * fullHeight, fullWidth, i, j)
  {
  }

  /**
   * Each of the 25 reads of an evaluator at (row, column), the pixel
   * (i, j) with |i - row| <= 2 and |j - column| <= 2, is in bounds.
   */
  lemma WindowIndexInBounds(len: int, width: int, row: int, column: int, i: int, j: int)
    requires WindowInside(len, width, row, column)
    requires row - Margin <= i <= row + Margin && column - Margin <= j <= column + Margin
    ensures 0 <= PixelIndex(i, j, width) < len
  {
    MulMonotone(0, i, width);
    MulMonotone(i + 1, row + Margin + 1, width);
    assert (i + 1) * width == i * width + width;
  }

  /** An interior pixel of an image of known height has its window inside the buffer. */
  lemma ImageInteriorWindowInside(width: int, height: int, row: int, column: int)
    requires 0 <= height
    requires Margin <= row < height - Margin && Margin <= column < width - Margin
    ensures WindowInside(width * height, width, row, column)
  {
    MulMonotone(row + Margin + 1, height, width);
  }

  /**
   * Offsets and coordinates correspond one to one: offset `p` is the pixel
   * (i, j) of a row exactly when p == i * width + j.
   */
  lemma CellOfIndex(p: int, i: int, j: int, width: int)
    requires 0 < width && 0 <= p && 0 <= j < width
    ensures (p / width == i && p % width == j) <==> p == PixelIndex(i, j, width)
  {
    var q, r := p / width, p % width;
    assert p == q * width + r;
    if p == PixelIndex(i, j, width) {
      assert (q - i) * width == j - r;
      if q - i >= 1 {
        MulMonotone(1, q - i, width);
      } else if q - i <= -1 {
        MulMonotone(1, i - q, width);
      }
    }
  }

  /** A pixel of a width x height image has its offset inside the buffer. */
  lemma IndexInBounds(i: int, j: int, width: int, height: int)
    requires 0 <= i < height && 0 <= j < width
    ensures 0 <= PixelIndex(i, j, width) < width * height
  {
    MulMonotone(0, i, width);
    MulMonotone(i + 1, height, width);
  }
}
