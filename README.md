# Edge detection: two 5x5 evaluators, a serial scan and a quad-split scan

This project models the computational core of a small C++ edge-detection
benchmark (`main.cpp`) in Dafny and proves it correct. The core works on a grayscale image
stored as a flat, row-major buffer of `int` intensities, `width` pixels per row.

- **Evaluators.** `apply_prewitt_filter` forms two weighted sums of the 5x5
  window around a pixel against the tables `filterHor` and `filterVer`. It
  thresholds `|h| + |v|` at 128 to give 0 or 255. `apply_edge_filter` scans
  the 24 neighbours of the pixel, keeping the flags `P` and `O`, and returns
  `(|P| - |O|) * 255`. Each is modelled as a method with the program's
  nested loops. Each is proved equal to a specification function of the
  input buffer (`PrewittValue`, `EdgeValue`), and the properties are lemmas
  about those functions.
- **Serial drivers.** `filter_serial_*` write every interior pixel,
  `[2, height-2) x [2, width-2)`, of the output buffer in place.
- **Partitioner.** `perform_parallel_*` scans a region directly once its
  width is at most `fullWidth / 16`. Otherwise it splits the region into four
  quadrants using `w/2`, `(w+1)/2`, `h/2` and `(h+1)/2`, and handles each
  quadrant as a task. `filter_parallel_*` starts it on the interior.
- **Self-check.** `main` runs each evaluator both ways into zeroed buffers
  and compares the two results with `memcmp`.

The two textual copies of the drivers in the source (Prewitt at lines
75-130, edge detection at lines 172-228) differ only in the evaluator they
call. Here they are one method each, with a `Kernel` parameter
(`Prewitt | EdgeDetection`). The leaf loop of the partitioner and the loop
of the serial driver are the same code over different regions. Both are
`Scan.ScanRegion`.

The state of an output buffer is specified by `Scan.Filled(kernel, in,
before, after, width, rg)`: every pixel of region `rg` holds the evaluator's
value on the input, and every other pixel keeps its earlier value. Both drivers
are proved to establish `Filled` on the interior. Two runs from the same
start therefore give identical buffers, which is the `memcmp` PASS.

The horizontal table is modelled exactly as the C compiler builds it. Line
26 lacks its final comma, so the `-7` ending line 26 and the `-7`
starting line 27 form the single initialiser `-7 - 7`. Cell 19 is `-14`,
there are 24 initialisers, and cell 24 is zero-initialised.
`Kernels.FilterHorAsCompiled` shows the table is the transpose of
`filterVer` everywhere except those two cells. Both tables still sum to zero.

The C types are modelled as follows:
- C `int` arithmetic is modelled with unbounded integers.
- The truncating C division `x / 2` on a possibly negative region height
  (an image under 4 rows) is `Partition.Half`.
- The concurrent child tasks become four sequential recursive calls. This is
  sound because they only read the input buffer, and `Partition.QuadrantsTile`
  and `Partition.LeavesTile` prove they write pairwise disjoint pixels.

## Model

| member | source | states |
|---|---|---|
| `Kernels.FilterHorAsCompiled` | main.cpp:22-35 | `filterHor` as compiled has -14 at cell 19 and 0 at cell 24. In every other cell it equals the transpose of `filterVer`. |
| `Kernels.FilterHorSumsToZero` | main.cpp:22-28 | The 25 weights of `filterHor`, as compiled, sum to 0. |
| `Kernels.FilterVerSumsToZero` | main.cpp:29-35 | The 25 weights of `filterVer` sum to 0. |
| `Kernels.ApplyPrewittFilter` | main.cpp:46-64 | The nested loops compute the weighted sums of the 5x5 window against both tables, with kernel index `(i-row+2)*5 + j-column+2`. The result equals `PrewittValue`. It is always 0 or 255, and it is 0 exactly when `abs(horizontalSum) + abs(verticalSum) < 128`. It requires the window to lie inside the buffer. |
| `Kernels.WeightedSumOnlyReadsWeightedCells` | main.cpp:50-57 | A weighted sum depends only on the pixels under cells of non-zero weight. |
| `Kernels.WeightedSumUniform` | main.cpp:50-57 | On a window of constant intensity v, the weighted sum is v times the sum of the table. |
| `Kernels.UniformWindowHasNoEdge` | main.cpp:46-64 | A uniform window gives 0 under both evaluators. For Prewitt this is because both tables sum to zero. For the edge rule it is because the neighbours are all bright or all dark. |
| `Kernels.ApplyEdgeFilter` | main.cpp:140-162 | The loops skip the centre, set P on a neighbour above 128 and clear O otherwise. The result equals `EdgeValue`. It is 0 or 255, never -255, and it is 255 exactly when the neighbourhood is mixed. |
| `Kernels.EdgeFlagsMeaning` | main.cpp:142-159 | After k window cells, P is 1 exactly when a visited neighbour is above 128, and O is 0 exactly when a visited neighbour is at or below 128. |
| `Kernels.EdgeValueMeaning` | main.cpp:160-161 | `(abs(P) - abs(O)) * 255` is 255 when some neighbour is above 128 and some neighbour is at or below it, and 0 otherwise. Every neighbour either sets P or clears O, so -255 never occurs. |
| `Kernels.EdgeFlagsOnlyReadNeighbours` | main.cpp:148-149 | The flags depend only on the 24 neighbours, not on the centre cell. |
| `Kernels.CentreDoesNotMatter` | main.cpp:148-149 | Changing the centre pixel changes neither evaluator's result. The edge rule skips the centre, and both tables weigh it 0. |
| `Kernels.KernelValueIsBinary` | main.cpp:58-63 | Both evaluators produce only 0 or 255, on any input: the Prewitt threshold here, and the edge rule's `(abs(P) - abs(O)) * 255` at main.cpp lines 160-161. |
| `Raster.WindowIndexInBounds` | main.cpp:50-55 | Every buffer offset `i*width + j` an evaluator reads, with `abs(i-row) <= 2` and `abs(j-column) <= 2`, lies in `[0, length)` when the window is inside the buffer. |
| `Raster.ImageInteriorWindowInside` | main.cpp:77-81 | For `2 <= row < height-2` and `2 <= column < width-2`, the 5x5 window lies inside a width x height buffer. |
| `Raster.InteriorWindowInside` | main.cpp:99-105 | Every pixel of a region inside the interior has its window inside the buffer. |
| `Raster.IndexInBounds` | main.cpp:105 | The offset `i*fullWidth + j` of a pixel of the image lies inside the output buffer. |
| `Raster.CellOfIndex` | main.cpp:81 | Offset p is `i*width + j` exactly when `p / width == i` and `p % width == j`, for `0 <= j < width`. |
| `Raster.Interior` | main.cpp:77-79 | The interior region holds exactly the pixels with `2 <= i < height-2` and `2 <= j < width-2`. |
| `Scan.ScanStep` | main.cpp:103-106 | Writing the evaluator's value at (i, j) advances the row-major scan by one pixel and changes no other pixel. |
| `Scan.ScanRegion` | main.cpp:101-107 | The row-major loops over a region inside the interior give `Filled`: region pixels hold the evaluator's value and all other pixels are unchanged. |
| `Scan.FilterSerial` | main.cpp:75-84 | Every interior pixel `[2,height-2) x [2,width-2)` gets the evaluator's value and every border pixel is unchanged. The edge-detection copy is lines 172-181. |
| `Scan.FilledAt` | main.cpp:77-83 | `Filled`, read per pixel (i, j): inside the region the pixel holds the evaluator's value, outside it the pixel keeps its earlier value. |
| `Scan.FilledIsDeterministic` | main.cpp:335-355 | Two fills of the same region, from the same input and the same earlier buffer, leave identical buffers. |
| `Scan.ZeroImageGivesZeroOutput` | main.cpp:310-319 | An all-zero image filled into a zeroed buffer leaves every pixel 0, under either evaluator. |
| `Scan.FilledFromZerosIsBinary` | main.cpp:312-319 | A fill that starts from a zeroed buffer leaves only 0s and 255s, with 0 everywhere outside the region. |
| `Partition.HalvesAddUp` | main.cpp:112-115 | For w >= 0, `w/2 + (w+1)/2 == w`, with C's truncating division. For a negative w both halves are <= 0. For w >= 2 both halves are smaller than w. |
| `Partition.QuadrantsTile` | main.cpp:112-115 | A pixel lies in the region exactly when it lies in one of the four spawned quadrants, and in no two of them. This holds for odd, even and negative extents. |
| `Partition.QuadrantsInsideInterior` | main.cpp:112-115 | The quadrants of a region inside the interior are inside the interior. |
| `Partition.FilledByQuadrants` | main.cpp:111-116 | Filling the four quadrants one after another fills the parent region. |
| `Partition.PerformParallel` | main.cpp:97-118 | With `fullWidth >= 16` (or a leaf region) the recursion terminates, with `width` as the decreasing measure. On return every pixel of the region holds the evaluator's value and every other pixel is unchanged. The edge-detection copy is lines 194-215. |
| `Partition.FilterParallel` | main.cpp:127-130 | The partitioner is started on the interior region at (2, 2) of size `(width-4) x (height-4)`. It gives the same `Filled` state as `FilterSerial`. It requires `width >= 16` or `width <= 4`. The edge-detection copy is lines 225-228. |
| `Partition.NarrowImageNeverReachesLeaf` | main.cpp:99-115 | Below `fullWidth = 16` a width-1 region is not a leaf, and its right-hand quadrants again have width 1. The recursion cannot end there. |
| `Partition.CountContainingAppend` | main.cpp:111-116 | The number of leaf regions containing a pixel adds up over the spawned subtrees. |
| `Partition.LeavesTile` | main.cpp:97-118 | Every pixel of the region lies in exactly one leaf region of the whole recursion, and no pixel outside it lies in any leaf. Each output pixel is therefore written by exactly one leaf task. |
| `Harness.Zeros` | main.cpp:312-313 | The zeroed buffer has length n and only zeros. |
| `Harness.BuffersEqual` | main.cpp:335 | The comparison reports equality exactly when the two buffers agree element by element. |
| `Harness.RunBenchmark` | main.cpp:309-355 | Four zeroed buffers are allocated. Each run reads its own load of the input file, and the four loads hold the same pixels. The serial and parallel variant of each evaluator are run, and the outputs are compared. Both comparisons PASS, and each output is binary: 0 on the border, the evaluator's value inside. |

## Left out

- Bitmap loading and saving (`BitmapRawConverter`, `getBuffer`, `setBuffer`, `pixelsToBitmap`) is file I/O through a header that is not part of this model. The input is an array parameter, and the outputs are returned as sequences.
- The timing (`steady_clock`), the console messages and `usage()` are presentation only.
- The argument-count check in `main` is command-line plumbing.
- The `switch` in `run_test_nr` is not modelled. Its default branch is unreachable from `main`, which passes only 1 to 4.
- `tbb::task_group` run/wait is modelled as four sequential calls. The interleaving of real threads is not modelled. The disjointness that makes it irrelevant is proved instead.
- C `int` overflow in the weighted sums and in `i * width + j` is not modelled: the model uses unbounded integers.
- `new`/`memset`/`delete` are modelled as fresh arrays initialised to 0. Deallocation is not modelled.
- The commented-out 3x3 Prewitt tables (lines 20-21) are not compiled.
- `Kernels.PrewittValue`, `Kernels.EdgeValue`: these specification functions read a pixel outside the buffer as 0 (`Raster.Pixel`), where the C code has undefined behaviour. Every method that reads pixels requires the whole window to be inside the buffer, so this fallback never describes a real read.
- `Partition.PerformParallel`, `Partition.FilterParallel` and `Harness.RunBenchmark` require the image to be at least 16 pixels wide, or at most 4 wide. For widths 5 to 15 the source recurses without end, and a non-terminating run cannot be stated as a terminating Dafny method. `Partition.NarrowImageNeverReachesLeaf` shows why.
- `Harness.RunBenchmark`: `main` loads the input file five times, once per `BitmapRawConverter`. The model takes the four buffers the runs read as four arrays and requires them to hold the same pixels. This assumes that loading the same file always yields the same buffer. The loader is not part of this model.
