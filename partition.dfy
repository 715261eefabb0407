/**
 * The recursive quad-split driver (perform_parallel_* and filter_parallel_*).
 * The four child tasks of a split are modelled as four sequential recursive
 * calls: they read only the input buffer and, by QuadrantsTile, write
 * pairwise disjoint pixels, so the order in which they run does not matter.
 */
module Partition {
  import opened Raster
  import opened Kernels
  import opened Scan

  /** C's `x / 2` on int, which truncates toward zero (Dafny's `/` is Euclidean). */
  function Half(x: int): int
  {
    if 0 <= x then x / 2 else -((-x) / 2)
  }

  /** The two halves of a non-negative extent add up to it; a negative extent has two empty halves. */
  lemma HalvesAddUp(x: int)
    ensures 0 <= x ==> Half(x) + Half(x + 1) == x
    ensures x < 0 ==> Half(x) <= 0 && Half(x + 1) <= 0
    ensures 2 <= x ==> Half(x) < x && Half(x + 1) < x
  {
  }

  /** perform_parallel_* evaluates a region directly when its width is at most fullWidth / 16. */
  predicate IsLeaf(rg: Region, fullWidth: nat)
  {
    rg.width <= fullWidth / 16
  }

  /**
   * The four regions perform_parallel_* spawns for rg, in spawn order:
   * top-left, bottom-left, top-right, bottom-right.
   */
  function Quadrants(rg: Region): (q: seq<Region>)
    ensures |q| == 4
  {
    var w, h := rg.width, rg.height;
    [ Region(rg.row, rg.column, Half(w), Half(h)),
      Region(rg.row + Half(h), rg.column, Half(w), Half(h + 1)),
      Region(rg.row, rg.column + Half(w), Half(w + 1), Half(h)),
      Region(rg.row + Half(h), rg.column + Half(w), Half(w + 1), Half(h + 1)) ]
  }

  /**
   * The quadrants tile the region, for odd and even, and even negative,
   * widths and heights: a pixel lies in the region exactly when it lies in
   * one of the quadrants, and no pixel lies in two of them.
   */
  lemma QuadrantsTile(rg: Region, a: int, b: int)
    ensures var q := Quadrants(rg);
            Contains(rg, a, b) <==>
              Contains(q[0], a, b) || Contains(q[1], a, b) || Contains(q[2], a, b) || Contains(q[3], a, b)
    ensures var q := Quadrants(rg);
            forall x, y :: 0 <= x < y < 4 ==> !(Contains(q[x], a, b) && Contains(q[y], a, b))
  {
  }

  /** The quadrants of a region inside the interior are inside the interior. */
  lemma QuadrantsInsideInterior(rg: Region, fullWidth: int, fullHeight: int)
    requires InsideInterior(rg, fullWidth, fullHeight)
    ensures forall x :: 0 <= x < 4 ==> InsideInterior(Quadrants(rg)[x], fullWidth, fullHeight)
  {
  }

  /**
   * Filling the four quadrants one after the other fills the region: the
   * pixels of the region get the evaluator's value, the others keep theirs.
   */
  lemma FilledByQuadrants(kernel: Kernel, inp: seq<int>, s0: seq<int>, s1: seq<int>, s2: seq<int>,
                          s3: seq<int>, s4: seq<int>, width: int, rg: Region)
    requires Filled(kernel, inp, s0, s1, width, Quadrants(rg)[0])
    requires Filled(kernel, inp, s1, s2, width, Quadrants(rg)[1])
    requires Filled(kernel, inp, s2, s3, width, Quadrants(rg)[2])
    requires Filled(kernel, inp, s3, s4, width, Quadrants(rg)[3])
    ensures Filled(kernel, inp, s0, s4, width, rg)
  {
  }

  /**
   * perform_parallel_prewitt and perform_parallel_edge_detection. A region no
   * wider than fullWidth / 16 is scanned directly; a wider one is split into
   * its four quadrants, each handled by a recursive call. The recursion ends
   * only when fullWidth >= 16 (or the region is a leaf from the start): below
   * that the threshold is 0 and a width-1 region splits into a width-1 child
   * for ever. On return every pixel of the region holds the evaluator's value
   * and every other pixel is unchanged.
   */
  method PerformParallel(kernel: Kernel, inBuf: array<int>, outBuf: array<int>, rg: Region,
                         fullWidth: nat, ghost fullHeight: nat)
    requires inBuf != outBuf
    requires inBuf.Length == fullWidth * fullHeight && outBuf.Length == fullWidth * fullHeight
    requires InsideInterior(rg, fullWidth, fullHeight)
    requires 16 <= fullWidth || IsLeaf(rg, fullWidth)
    modifies outBuf
    ensures Filled(kernel, inBuf[..], old(outBuf[..]), outBuf[..], fullWidth, rg)
    decreases rg.width
  {
    if rg.width <= fullWidth / 16 {
      ScanRegion(kernel, inBuf, outBuf, rg, fullWidth, fullHeight);
    } else {
      var q := Quadrants(rg);
      QuadrantsInsideInterior(rg, fullWidth, fullHeight);
      HalvesAddUp(rg.width);
      ghost var s0 := outBuf[..];
      PerformParallel(kernel, inBuf, outBuf, q[0], fullWidth, fullHeight);
      ghost var s1 := outBuf[..];
      PerformParallel(kernel, inBuf, outBuf, q[1], fullWidth, fullHeight);
      ghost var s2 := outBuf[..];
      PerformParallel(kernel, inBuf, outBuf, q[2], fullWidth, fullHeight);
      ghost var s3 := outBuf[..];
      PerformParallel(kernel, inBuf, outBuf, q[3], fullWidth, fullHeight);
      FilledByQuadrants(kernel, inBuf[..], s0, s1, s2, s3, outBuf[..], fullWidth, rg);
    }
  }

  /**
   * filter_parallel_prewitt and filter_parallel_edge_detection: run the
   * partitioner on the interior, the region of width width - 4 and height
   * height - 4 at (2, 2). It terminates for images at least 16 pixels wide
   * and for images at most 4 wide (whose interior is empty).
   */
  method FilterParallel(kernel: Kernel, inBuf: array<int>, outBuf: array<int>, width: nat, height: nat)
    requires inBuf != outBuf
    requires inBuf.Length == width * height && outBuf.Length == width * height
    requires 16 <= width || width <= 2 * Margin
    modifies outBuf
    ensures Filled(kernel, inBuf[..], old(outBuf[..]), outBuf[..], width, Interior(width, height))
  {
    PerformParallel(kernel, inBuf, outBuf, Region(Margin, Margin, width - 2 * Margin, height - 2 * Margin),
                    width, height);
  }

  /**
   * Why PerformParallel requires fullWidth >= 16: below it a region of
   * width 1 is not a leaf, and its two right-hand quadrants again have width 1.
   */
  lemma NarrowImageNeverReachesLeaf(rg: Region, fullWidth: nat)
    requires fullWidth < 16 && rg.width == 1
    ensures !IsLeaf(rg, fullWidth)
    ensures Quadrants(rg)[2].width == 1 && Quadrants(rg)[3].width == 1
  {
  }

  // ---------------------------------------------------------------------------
  // The leaves of the whole recursion

  /** The regions of the leaf tasks of a call on rg, in the order they are spawned. */
  function Leaves(rg: Region, fullWidth: nat): seq<Region>
    requires 16 <= fullWidth || IsLeaf(rg, fullWidth)
    decreases rg.width
  {
    if IsLeaf(rg, fullWidth) then [rg]
    else
      HalvesAddUp(rg.width);
      var q := Quadrants(rg);
      Leaves(q[0], fullWidth) + Leaves(q[1], fullWidth) + Leaves(q[2], fullWidth) + Leaves(q[3], fullWidth)
  }

  /** How many of the regions contain pixel (a, b). */
  function CountContaining(rs: seq<Region>, a: int, b: int): nat
  {
    if rs == [] then 0
    else CountContaining(rs[..|rs| - 1], a, b) + (if Contains(rs[|rs| - 1], a, b) then 1 else 0)
  }

  lemma {:induction false} CountContainingAppend(rs: seq<Region>, ts: seq<Region>, a: int, b: int)
    ensures CountContaining(rs + ts, a, b) == CountContaining(rs, a, b) + CountContaining(ts, a, b)
    decreases |ts|
  {
    if ts != [] {
      assert (rs + ts)[..|rs + ts| - 1] == rs + ts[..|ts| - 1];
      CountContainingAppend(rs, ts[..|ts| - 1], a, b);
    } else {
      assert rs + ts == rs;
    }
  }

  /**
   * The leaf regions of the whole recursion tile the region: every pixel of
   * rg lies in exactly one leaf, and no pixel outside rg lies in any. So each
   * output pixel is written by exactly one leaf task.
   */
  lemma {:induction false} LeavesTile(rg: Region, fullWidth: nat, a: int, b: int)
    requires 16 <= fullWidth || IsLeaf(rg, fullWidth)
    ensures CountContaining(Leaves(rg, fullWidth), a, b) == if Contains(rg, a, b) then 1 else 0
    decreases rg.width
  {
    if IsLeaf(rg, fullWidth) {
      assert Leaves(rg, fullWidth) == [rg];
      assert [rg][..0] == [];
    } else {
      HalvesAddUp(rg.width);
      var q := Quadrants(rg);
      var l0, l1, l2, l3 := Leaves(q[0], fullWidth), Leaves(q[1], fullWidth), Leaves(q[2], fullWidth), Leaves(q[3], fullWidth);
      LeavesTile(q[0], fullWidth, a, b);
      LeavesTile(q[1], fullWidth, a, b);
      LeavesTile(q[2], fullWidth, a, b);
      LeavesTile(q[3], fullWidth, a, b);
      CountContainingAppend(l0, l1, a, b);
      CountContainingAppend(l0 + l1, l2, a, b);
      CountContainingAppend(l0 + l1 + l2, l3, a, b);
      QuadrantsTile(rg, a, b);
    }
  }
}
