/**
 * The two per-pixel evaluators: the 5x5 gradient ("Prewitt") operator and the
 * mixed-neighbourhood edge rule. Each is a method with the nested loops of the
 * program, proved against a specification function of the input buffer.
 */
module Kernels {
  import opened Raster

  /** THRESHOLD: the intensity / gradient level separating 0 from 255. */
  const Threshold: int := 128

  /** Number of cells in the 5x5 window; cell k is window row k / 5, column k % 5. */
  const WindowCells: int := 25

  /** The cell of the window centre (window row 2, column 2). */
  const Centre: int := 12

  /**
   * filterHor as the C compiler builds it. The initialiser list has no comma
   * between the last entry of its fourth row and the first of its fifth, so
   * those two -7s parse as the single expression -7 - 7: cell 19 is -14, the
   * list holds 24 values, and cell 24 is zero-initialised.
   */
  const FilterHor: seq<int> := [
     9,  9,  9,  9,   9,
     9,  5,  5,  5,   9,
    -7, -3,  0, -3,  -7,
    -7, -3, -3, -3, -14,
    -7, -7, -7, -7,   0
  ]

  /** filterVer, 25 initialisers as written. */
  const FilterVer: seq<int> := [
    9, 9, -7, -7, -7,
    9, 5, -3, -3, -7,
    9, 5,  0, -3, -7,
    9, 5, -3, -3, -7,
    9, 9, -7, -7, -7
  ]

  /** The cell at the mirror position of cell k across the window's main diagonal. */
  function Transposed(k: int): int
  {
    (k % FilterSize) * FilterSize + k / FilterSize
  }

  /**
   * The horizontal table is the transpose of the vertical one in every cell
   * except the two the missing comma moved: cell 19 (-14 instead of -7) and
   * cell 24 (0 instead of -7).
   */
  lemma FilterHorAsCompiled()
    ensures |FilterHor| == WindowCells && |FilterVer| == WindowCells
    ensures forall k :: 0 <= k < WindowCells && k != 19 && k != 24 ==>
              FilterHor[k] == FilterVer[Transposed(k)]
    ensures FilterHor[19] == -14 && FilterVer[Transposed(19)] == -7
    ensures FilterHor[24] == 0 && FilterVer[Transposed(24)] == -7
  {
  }

  /** The horizontal weights sum to zero (the merged -14 and the lost -7 cancel out). */
  lemma FilterHorSumsToZero()
    ensures Total(FilterHor, WindowCells) == 0
  {
    var sums := [0, 9, 18, 27, 36, 45, 54, 59, 64, 69, 78, 71, 68, 68, 65, 58, 51, 48, 45, 42, 28, 21, 14, 7, 0, 0];
    forall m | 0 <= m < WindowCells
      ensures sums[m + 1] == sums[m] + FilterHor[m]
    {
      assert m in {0, 1, 2, 3, 4, 5, 6, 7, 8, 9, 10, 11, 12, 13, 14, 15, 16, 17, 18, 19, 20, 21, 22, 23, 24};
    }
    TotalOfPrefixSums(FilterHor, sums, WindowCells);
  }

  /** The vertical weights sum to zero. */
  lemma FilterVerSumsToZero()
    ensures Total(FilterVer, WindowCells) == 0
  {
    var sums := [0, 9, 18, 11, 4, -3, 6, 11, 8, 5, -2, 7, 12, 12, 9, 2, 11, 16, 13, 10, 3, 12, 21, 14, 7, 0];
    forall m | 0 <= m < WindowCells
      ensures sums[m + 1] == sums[m] + FilterVer[m]
    {
      assert m in {0, 1, 2, 3, 4, 5, 6, 7, 8, 9, 10, 11, 12, 13, 14, 15, 16, 17, 18, 19, 20, 21, 22, 23, 24};
    }
    TotalOfPrefixSums(FilterVer, sums, WindowCells);
  }

  /** Sum of the first k weights of a table. */
  function Total(table: seq<int>, k: nat): int
    requires k <= |table|
  {
    if k == 0 then 0 else Total(table, k - 1) + table[k - 1]
  }

  /** Total agrees with any table of running sums of the weights. */
  lemma {:induction false} TotalOfPrefixSums(table: seq<int>, sums: seq<int>, k: nat)
    requires |sums| == |table| + 1 && sums[0] == 0
    requires forall m :: 0 <= m < |table| ==> sums[m + 1] == sums[m] + table[m]
    requires k <= |table|
    ensures Total(table, k) == sums[k]
  {
    if k > 0 {
      TotalOfPrefixSums(table, sums, k - 1);
    }
  }

  function Abs(x: int): int
  {
    if x < 0 then -x else x
  }

  /** Buffer offset of window cell k of the window centred on (row, column). */
  function CellIndex(row: int, column: int, width: int, k: int): int
  {
    PixelIndex(row - Margin + k / FilterSize, column - Margin + k % FilterSize, width)
  }

  /** The intensity under window cell k. */
  function Neighbour(s: seq<int>, row: int, column: int, width: int, k: int): int
  {
    Pixel(s, CellIndex(row, column, width, k))
  }

  /** The window cell the loops of an evaluator visit at pixel (i, j) is i*width + j. */
  lemma CellOfPixel(row: int, column: int, width: int, i: int, j: int)
    requires row - Margin <= i <= row + Margin && column - Margin <= j <= column + Margin
    ensures var k := (i - row + Margin) * FilterSize + j - column + Margin;
            0 <= k < WindowCells && CellIndex(row, column, width, k) == PixelIndex(i, j, width)
  {
  }

  // ---------------------------------------------------------------------------
  // Gradient operator (apply_prewitt_filter)

  /** Weighted sum of the first k cells of the window against `table`. */
  function WeightedSum(s: seq<int>, table: seq<int>, row: int, column: int, width: int, k: nat): int
    requires k <= |table|
  {
    if k == 0 then 0
    else WeightedSum(s, table, row, column, width, k - 1) + Neighbour(s, row, column, width, k - 1) * table[k - 1]
  }

  function HorizontalSum(s: seq<int>, row: int, column: int, width: int): int
  {
    WeightedSum(s, FilterHor, row, column, width, WindowCells)
  }

  function VerticalSum(s: seq<int>, row: int, column: int, width: int): int
  {
    WeightedSum(s, FilterVer, row, column, width, WindowCells)
  }

  /** |horizontalSum| + |verticalSum|, the quantity compared with THRESHOLD. */
  function GradientMagnitude(s: seq<int>, row: int, column: int, width: int): int
  {
    Abs(HorizontalSum(s, row, column, width)) + Abs(VerticalSum(s, row, column, width))
  }

  /** The gradient operator's output at (row, column). */
  function PrewittValue(s: seq<int>, row: int, column: int, width: int): int
  {
    if GradientMagnitude(s, row, column, width) < Threshold then 0 else 255
  }

  /**
   * apply_prewitt_filter: the two weighted sums over the 5x5 window, then the
   * threshold. The result is 0 or 255, and 0 exactly when the gradient
   * magnitude is below THRESHOLD.
   */
  method ApplyPrewittFilter(inBuf: array<int>, row: int, column: int, width: int) returns (totalSum: int)
    requires WindowInside(inBuf.Length, width, row, column)
    ensures totalSum == PrewittValue(inBuf[..], row, column, width)
    ensures totalSum == 0 || totalSum == 255
    ensures totalSum == 0 <==> GradientMagnitude(inBuf[..], row, column, width) < Threshold
  {
    var horizontalSum, verticalSum := 0, 0;
    for i := row - Margin to row + Margin + 1
      invariant horizontalSum == WeightedSum(inBuf[..], FilterHor, row, column, width, (i - row + Margin) * FilterSize)
      invariant verticalSum == WeightedSum(inBuf[..], FilterVer, row, column, width, (i - row + Margin) * FilterSize)
    {
      for j := column - Margin to column + Margin + 1
        invariant horizontalSum ==
          WeightedSum(inBuf[..], FilterHor, row, column, width, (i - row + Margin) * FilterSize + j - column + Margin)
        invariant verticalSum ==
          WeightedSum(inBuf[..], FilterVer, row, column, width, (i - row + Margin) * FilterSize + j - column + Margin)
      {
        WindowIndexInBounds(inBuf.Length, width, row, column, i, j);
        CellOfPixel(row, column, width, i, j);
        var k := (i - row + Margin) * FilterSize + j - column + Margin;
        horizontalSum := horizontalSum + inBuf[i * width + j] * FilterHor[k];
        verticalSum := verticalSum + inBuf[i * width + j] * FilterVer[k];
      }
    }
    totalSum := Abs(horizontalSum) + Abs(verticalSum);
    if totalSum < Threshold {
      totalSum := 0;
    } else {
      totalSum := 255;
    }
  }

  /** Two windows that agree on every cell of non-zero weight give the same weighted sum. */
  lemma {:induction false} WeightedSumOnlyReadsWeightedCells(
    s: seq<int>, t: seq<int>, table: seq<int>, row: int, column: int, width: int, k: nat)
    requires k <= |table|
    requires forall m :: 0 <= m < k && table[m] != 0 ==>
               Neighbour(s, row, column, width, m) == Neighbour(t, row, column, width, m)
    ensures WeightedSum(s, table, row, column, width, k) == WeightedSum(t, table, row, column, width, k)
  {
    if k > 0 {
      WeightedSumOnlyReadsWeightedCells(s, t, table, row, column, width, k - 1);
    }
  }

  /** On a window of uniform intensity v the weighted sum is v times the sum of the weights. */
  lemma {:induction false} WeightedSumUniform(
    s: seq<int>, table: seq<int>, row: int, column: int, width: int, k: nat, v: int)
    requires k <= |table|
    requires forall m :: 0 <= m < k ==> Neighbour(s, row, column, width, m) == v
    ensures WeightedSum(s, table, row, column, width, k) == v * Total(table, k)
  {
    if k > 0 {
      WeightedSumUniform(s, table, row, column, width, k - 1, v);
    }
  }

  // ---------------------------------------------------------------------------
  // Mixed-neighbourhood rule (apply_edge_filter)

  /**
   * The flags (P, O) after the scan has visited window cells [0, k): the
   * centre is skipped, a neighbour above THRESHOLD sets P to 1, any other
   * neighbour sets O to 0.
   */
  function EdgeFlags(s: seq<int>, row: int, column: int, width: int, k: nat): (int, int)
    requires k <= WindowCells
  {
    if k == 0 then (0, 1)
    else
      var (p, o) := EdgeFlags(s, row, column, width, k - 1);
      if k - 1 == Centre then (p, o)
      else if Neighbour(s, row, column, width, k - 1) > Threshold then (1, o)
      else (p, 0)
  }

  /** The edge rule's output at (row, column): (|P| - |O|) * 255. */
  function EdgeValue(s: seq<int>, row: int, column: int, width: int): int
  {
    var (p, o) := EdgeFlags(s, row, column, width, WindowCells);
    (Abs(p) - Abs(o)) * 255
  }

  /** Window cell m is a neighbour (not the centre) above THRESHOLD. */
  predicate Bright(s: seq<int>, row: int, column: int, width: int, m: int)
  {
    m != Centre && Neighbour(s, row, column, width, m) > Threshold
  }

  /** Window cell m is a neighbour (not the centre) at or below THRESHOLD. */
  predicate Dark(s: seq<int>, row: int, column: int, width: int, m: int)
  {
    m != Centre && Neighbour(s, row, column, width, m) <= Threshold
  }

  /** Some neighbour is above THRESHOLD and some neighbour is not. */
  predicate Mixed(s: seq<int>, row: int, column: int, width: int)
  {
    (exists m :: 0 <= m < WindowCells && Bright(s, row, column, width, m)) &&
    (exists m :: 0 <= m < WindowCells && Dark(s, row, column, width, m))
  }

  /**
   * After k cells, P is 1 exactly when a bright neighbour has been seen and O
   * is 0 exactly when a dark neighbour has been seen.
   */
  lemma {:induction false} EdgeFlagsMeaning(s: seq<int>, row: int, column: int, width: int, k: nat)
    requires k <= WindowCells
    ensures EdgeFlags(s, row, column, width, k).0 ==
              if exists m :: 0 <= m < k && Bright(s, row, column, width, m) then 1 else 0
    ensures EdgeFlags(s, row, column, width, k).1 ==
              if exists m :: 0 <= m < k && Dark(s, row, column, width, m) then 0 else 1
  {
    if k > 0 {
      var c := k - 1;
      EdgeFlagsMeaning(s, row, column, width, c);
      BrightOrDarkExtends(s, row, column, width, c);
    }
  }

  /** Extending the visited cells by cell c adds c to the witnesses. */
  lemma BrightOrDarkExtends(s: seq<int>, row: int, column: int, width: int, c: nat)
    ensures (exists m :: 0 <= m < c + 1 && Bright(s, row, column, width, m)) <==>
            (exists m :: 0 <= m < c && Bright(s, row, column, width, m)) || Bright(s, row, column, width, c)
    ensures (exists m :: 0 <= m < c + 1 && Dark(s, row, column, width, m)) <==>
            (exists m :: 0 <= m < c && Dark(s, row, column, width, m)) || Dark(s, row, column, width, c)
  {
  }

  /**
   * The edge rule fires (255) exactly on a mixed neighbourhood and gives 0
   * otherwise; in particular it never gives -255, because every neighbour
   * either sets P or clears O.
   */
  lemma EdgeValueMeaning(s: seq<int>, row: int, column: int, width: int)
    ensures EdgeValue(s, row, column, width) == if Mixed(s, row, column, width) then 255 else 0
  {
    EdgeFlagsMeaning(s, row, column, width, WindowCells);
    if !exists m :: 0 <= m < WindowCells && Dark(s, row, column, width, m) {
      assert !Dark(s, row, column, width, 0);
      assert Bright(s, row, column, width, 0);
    }
  }

  /** The edge rule depends on the 24 neighbours only. */
  lemma {:induction false} EdgeFlagsOnlyReadNeighbours(
    s: seq<int>, t: seq<int>, row: int, column: int, width: int, k: nat)
    requires k <= WindowCells
    requires forall m :: 0 <= m < k && m != Centre ==>
               Neighbour(s, row, column, width, m) == Neighbour(t, row, column, width, m)
    ensures EdgeFlags(s, row, column, width, k) == EdgeFlags(t, row, column, width, k)
  {
    if k > 0 {
      EdgeFlagsOnlyReadNeighbours(s, t, row, column, width, k - 1);
    }
  }

  /** Only window cell 12 lies at the centre pixel's offset. */
  lemma OnlyCentreAtCentre(len: int, row: int, column: int, width: int, k: int)
    requires WindowInside(len, width, row, column) && 0 <= k < WindowCells && k != Centre
    ensures CellIndex(row, column, width, k) != PixelIndex(row, column, width)
  {
  }

  /**
   * Changing the centre pixel changes neither evaluator: the edge rule skips
   * it, and both gradient tables weigh it 0.
   */
  lemma CentreDoesNotMatter(s: seq<int>, row: int, column: int, width: int, v: int)
    requires WindowInside(|s|, width, row, column)
    ensures var t := s[PixelIndex(row, column, width) := v];
            EdgeValue(t, row, column, width) == EdgeValue(s, row, column, width) &&
            PrewittValue(t, row, column, width) == PrewittValue(s, row, column, width)
  {
    var c := PixelIndex(row, column, width);
    WindowIndexInBounds(|s|, width, row, column, row, column);
    var t := s[c := v];
    forall m | 0 <= m < WindowCells && m != Centre
      ensures Neighbour(s, row, column, width, m) == Neighbour(t, row, column, width, m)
    {
      OnlyCentreAtCentre(|s|, row, column, width, m);
    }
    EdgeFlagsOnlyReadNeighbours(s, t, row, column, width, WindowCells);
    WeightedSumOnlyReadsWeightedCells(s, t, FilterHor, row, column, width, WindowCells);
    WeightedSumOnlyReadsWeightedCells(s, t, FilterVer, row, column, width, WindowCells);
  }

  /**
   * A window of uniform intensity is no edge for either rule: both tables sum
   * to zero, and the 24 neighbours are all bright or all dark.
   */
  lemma UniformWindowHasNoEdge(s: seq<int>, row: int, column: int, width: int, v: int)
    requires forall m :: 0 <= m < WindowCells ==> Neighbour(s, row, column, width, m) == v
    ensures PrewittValue(s, row, column, width) == 0
    ensures EdgeValue(s, row, column, width) == 0
  {
    FilterHorSumsToZero();
    FilterVerSumsToZero();
    WeightedSumUniform(s, FilterHor, row, column, width, WindowCells, v);
    WeightedSumUniform(s, FilterVer, row, column, width, WindowCells, v);
    EdgeValueMeaning(s, row, column, width);
    if v > Threshold {
      assert !exists m :: 0 <= m < WindowCells && Dark(s, row, column, width, m);
    } else {
      assert !exists m :: 0 <= m < WindowCells && Bright(s, row, column, width, m);
    }
  }

  /**
   * apply_edge_filter: scan the 24 neighbours keeping P ("some neighbour is
   * above THRESHOLD") and O ("no neighbour is at or below it"), and return
   * (|P| - |O|) * 255, which is 255 on a mixed neighbourhood and 0 otherwise.
   */
  method ApplyEdgeFilter(inBuf: array<int>, row: int, column: int, width: int) returns (result: int)
    requires WindowInside(inBuf.Length, width, row, column)
    ensures result == EdgeValue(inBuf[..], row, column, width)
    ensures result == 0 || result == 255
    ensures result == 255 <==> Mixed(inBuf[..], row, column, width)
  {
    var P, O := 0, 1;
    for i := row - Margin to row + Margin + 1
      invariant (P, O) == EdgeFlags(inBuf[..], row, column, width, (i - row + Margin) * FilterSize)
    {
      for j := column - Margin to column + Margin + 1
        invariant (P, O) == EdgeFlags(inBuf[..], row, column, width, (i - row + Margin) * FilterSize + j - column + Margin)
      {
        WindowIndexInBounds(inBuf.Length, width, row, column, i, j);
        CellOfPixel(row, column, width, i, j);
        if i == row && j == column {
          continue;
        }
        if inBuf[i * width + j] > Threshold {
          P := 1;
        } else {
          O := 0;
        }
      }
    }
    var r := Abs(P) - Abs(O);
    result := r * 255;
    EdgeValueMeaning(inBuf[..], row, column, width);
  }

  // ---------------------------------------------------------------------------
  // The two evaluators behind one name, for the drivers

  /** Which evaluator a driver applies: apply_prewitt_filter or apply_edge_filter. */
  datatype Kernel = Prewitt | EdgeDetection

  function KernelValue(kernel: Kernel, s: seq<int>, row: int, column: int, width: int): int
  {
    match kernel
    case Prewitt => PrewittValue(s, row, column, width)
    case EdgeDetection => EdgeValue(s, row, column, width)
  }

  /** Both evaluators give a binary intensity, whatever the input. */
  lemma KernelValueIsBinary(kernel: Kernel, s: seq<int>, row: int, column: int, width: int)
    ensures KernelValue(kernel, s, row, column, width) == 0 || KernelValue(kernel, s, row, column, width) == 255
  {
    EdgeValueMeaning(s, row, column, width);
  }

  method ApplyKernel(kernel: Kernel, inBuf: array<int>, row: int, column: int, width: int) returns (v: int)
    requires WindowInside(inBuf.Length, width, row, column)
    ensures v == KernelValue(kernel, inBuf[..], row, column, width)
    ensures v == 0 || v == 255
  {
    match kernel
    case Prewitt =>
      v := ApplyPrewittFilter(inBuf, row, column, width);
    case EdgeDetection =>
      v := ApplyEdgeFilter(inBuf, row, column, width);
  }
}
