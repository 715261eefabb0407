/**
 * The row-major scan of a region that both drivers perform: the serial driver
 * over the whole interior, the partitioner's leaves over their own region.
 * What a scan leaves in the output buffer is stated by Filled.
 */
module Scan {
  import opened Raster
  import opened Kernels

  /**
   * `after` is `before` with every pixel of `rg` replaced by the evaluator's
   * value on the input `inp`, and every other pixel left as it was. Offset p
   * is the pixel (p / width, p % width).
   */
  ghost predicate Filled(kernel: Kernel, inp: seq<int>, before: seq<int>, after: seq<int>, width: int, rg: Region)
  {
    |after| == |before| && (0 < width || |after| == 0) &&
    forall p :: 0 <= p < |after| ==>
      after[p] == if Contains(rg, p / width, p % width)
                  then KernelValue(kernel, inp, p / width, p % width, width)
                  else before[p]
  }

  /** Pixel (a, b) has been visited once a row-major scan of rg has reached pixel (i, j). */
  predicate Scanned(rg: Region, i: int, j: int, a: int, b: int)
  {
    (rg.row <= a < i && rg.column <= b < rg.column + rg.width) || (a == i && rg.column <= b < j)
  }

  /** The loop state of a scan of rg that has reached pixel (i, j). */
  ghost predicate ScannedUpTo(kernel: Kernel, inp: seq<int>, before: seq<int>, after: seq<int>,
                              width: int, rg: Region, i: int, j: int)
  {
    |after| == |before| && (0 < width || |after| == 0) &&
    forall p :: 0 <= p < |after| ==>
      after[p] == if Scanned(rg, i, j, p / width, p % width)
                  then KernelValue(kernel, inp, p / width, p % width, width)
                  else before[p]
  }

  /** Writing the evaluator's value at (i, j) advances the scan by one pixel. */
  lemma ScanStep(kernel: Kernel, inp: seq<int>, before: seq<int>, prev: seq<int>, after: seq<int>,
                 width: int, rg: Region, i: int, j: int)
    requires ScannedUpTo(kernel, inp, before, prev, width, rg, i, j)
    requires 0 <= i && rg.column <= j && 0 <= j < width && 0 <= PixelIndex(i, j, width) < |prev|
    requires after == prev[PixelIndex(i, j, width) := KernelValue(kernel, inp, i, j, width)]
    ensures ScannedUpTo(kernel, inp, before, after, width, rg, i, j + 1)
  {
    forall p | 0 <= p < |after|
      ensures after[p] == if Scanned(rg, i, j + 1, p / width, p % width)
                          then KernelValue(kernel, inp, p / width, p % width, width)
                          else before[p]
    {
      CellOfIndex(p, i, j, width);
      if p != PixelIndex(i, j, width) {
        assert after[p] == prev[p];
      }
    }
  }

  /** A scan that has finished row i has reached the first column of row i + 1. */
  lemma ScanNextRow(kernel: Kernel, inp: seq<int>, before: seq<int>, after: seq<int>,
                    width: int, rg: Region, i: int, j: int)
    requires rg.row <= i && j == rg.column + (if 0 < rg.width then rg.width else 0)
    requires ScannedUpTo(kernel, inp, before, after, width, rg, i, j)
    ensures ScannedUpTo(kernel, inp, before, after, width, rg, i + 1, rg.column)
  {
  }

  /** A scan that has passed the last row of rg has filled rg. */
  lemma ScanComplete(kernel: Kernel, inp: seq<int>, before: seq<int>, after: seq<int>,
                     width: int, rg: Region, i: int)
    requires i == rg.row + (if 0 < rg.height then rg.height else 0)
    requires ScannedUpTo(kernel, inp, before, after, width, rg, i, rg.column)
    ensures Filled(kernel, inp, before, after, width, rg)
  {
  }

  /**
   * A row-major scan of `rg`: for each row of the region in turn, each of its
   * columns in turn, the output pixel gets the evaluator's value at that pixel.
   * The same loops as filter_serial_* (over the interior) and as the leaf case
   * of perform_parallel_* (over the leaf's region).
   */
  method ScanRegion(kernel: Kernel, inBuf: array<int>, outBuf: array<int>, rg: Region,
                    fullWidth: nat, ghost fullHeight: nat)
    requires inBuf != outBuf
    requires inBuf.Length == fullWidth * fullHeight && outBuf.Length == fullWidth * fullHeight
    requires InsideInterior(rg, fullWidth, fullHeight)
    modifies outBuf
    ensures Filled(kernel, inBuf[..], old(outBuf[..]), outBuf[..], fullWidth, rg)
  {
    var i := rg.row;
    while i < rg.row + rg.height
      invariant rg.row <= i <= rg.row + (if 0 < rg.height then rg.height else 0)
      invariant ScannedUpTo(kernel, inBuf[..], old(outBuf[..]), outBuf[..], fullWidth, rg, i, rg.column)
    {
      var j := rg.column;
      while j < rg.column + rg.width
        invariant rg.column <= j <= rg.column + (if 0 < rg.width then rg.width else 0)
        invariant ScannedUpTo(kernel, inBuf[..], old(outBuf[..]), outBuf[..], fullWidth, rg, i, j)
      {
        InteriorWindowInside(rg, fullWidth, fullHeight, i, j);
        IndexInBounds(i, j, fullWidth, fullHeight);
        var v := ApplyKernel(kernel, inBuf, i, j, fullWidth);
        ghost var prev := outBuf[..];
        outBuf[i * fullWidth + j] := v;
        ScanStep(kernel, inBuf[..], old(outBuf[..]), prev, outBuf[..], fullWidth, rg, i, j);
        j := j + 1;
      }
      ScanNextRow(kernel, inBuf[..], old(outBuf[..]), outBuf[..], fullWidth, rg, i, j);
      i := i + 1;
    }
    ScanComplete(kernel, inBuf[..], old(outBuf[..]), outBuf[..], fullWidth, rg, i);
  }

  /**
   * filter_serial_prewitt and filter_serial_edge_detection: scan the interior
   * [2, height-2) x [2, width-2) in row-major order. Every interior pixel gets
   * the evaluator's value and every border pixel keeps its value.
   */
  method FilterSerial(kernel: Kernel, inBuf: array<int>, outBuf: array<int>, width: nat, height: nat)
    requires inBuf != outBuf
    requires inBuf.Length == width * height && outBuf.Length == width * height
    modifies outBuf
    ensures Filled(kernel, inBuf[..], old(outBuf[..]), outBuf[..], width, Interior(width, height))
  {
    ScanRegion(kernel, inBuf, outBuf, Interior(width, height), width, height);
  }

  /**
   * Filled, read pixel by pixel: pixel (i, j) of the image holds the
   * evaluator's value if it lies in rg and its earlier value otherwise.
   */
  lemma FilledAt(kernel: Kernel, inp: seq<int>, before: seq<int>, after: seq<int>,
                 width: int, height: int, rg: Region, i: int, j: int)
    requires Filled(kernel, inp, before, after, width, rg) && |after| == width * height
    requires 0 <= i < height && 0 <= j < width
    ensures 0 <= PixelIndex(i, j, width) < |after|
    ensures after[PixelIndex(i, j, width)] ==
              if Contains(rg, i, j) then KernelValue(kernel, inp, i, j, width)
              else before[PixelIndex(i, j, width)]
  {
    IndexInBounds(i, j, width, height);
    CellOfIndex(PixelIndex(i, j, width), i, j, width);
  }

  /**
   * What a fill leaves behind depends only on the input, the earlier buffer
   * and the region: two runs from the same start agree on every pixel.
   */
  lemma FilledIsDeterministic(kernel: Kernel, inp: seq<int>, before: seq<int>, after1: seq<int>, after2: seq<int>,
                              width: int, rg: Region)
    requires Filled(kernel, inp, before, after1, width, rg)
    requires Filled(kernel, inp, before, after2, width, rg)
    ensures after1 == after2
  {
  }

  /**
   * Starting from a buffer of zeros, every pixel of a filled buffer is 0 or
   * 255: the evaluators' values inside the region, 0 outside it.
   */
  lemma FilledFromZerosIsBinary(kernel: Kernel, inp: seq<int>, before: seq<int>, after: seq<int>,
                                width: int, rg: Region)
    requires Filled(kernel, inp, before, after, width, rg)
    requires forall p :: 0 <= p < |before| ==> before[p] == 0
    ensures forall p :: 0 <= p < |after| ==> after[p] == 0 || after[p] == 255
    ensures forall p :: 0 <= p < |after| && !Contains(rg, p / width, p % width) ==> after[p] == 0
  {
    forall p | 0 <= p < |after|
      ensures after[p] == 0 || after[p] == 255
    {
      KernelValueIsBinary(kernel, inp, p / width, p % width, width);
    }
  }

  /**
   * An all-black image filled into a zeroed buffer leaves the buffer all
   * zero, under either evaluator: every window of it is uniform.
   */
  lemma ZeroImageGivesZeroOutput(kernel: Kernel, inp: seq<int>, before: seq<int>, after: seq<int>,
                                 width: int, rg: Region)
    requires Filled(kernel, inp, before, after, width, rg)
    requires forall p :: 0 <= p < |inp| ==> inp[p] == 0
    requires forall p :: 0 <= p < |before| ==> before[p] == 0
    ensures forall p :: 0 <= p < |after| ==> after[p] == 0
  {
    forall p | 0 <= p < |after|
      ensures after[p] == 0
    {
      UniformWindowHasNoEdge(inp, p / width, p % width, width, 0);
    }
  }
}
