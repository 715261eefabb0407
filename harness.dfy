/**
 * The self-check of `main`: both evaluators, each run serially and through
 * the partitioner into freshly zeroed buffers, then the two buffers of each
 * evaluator compared element by element (memcmp).
 */
module Harness {
  import opened Raster
  import opened Kernels
  import opened Scan
  import opened Partition

  /** A buffer of n zeros, what `new int[n]` followed by memset(0) gives. */
  function Zeros(n: nat): (z: seq<int>)
    ensures |z| == n && forall p :: 0 <= p < n ==> z[p] == 0
  {
    seq(n, _ => 0)
  }

  /** memcmp(a, b, length) == 0: the two buffers hold the same values, element by element. */
  method BuffersEqual(a: array<int>, b: array<int>) returns (same: bool)
    requires a.Length == b.Length
    ensures same <==> a[..] == b[..]
  {
    var k := 0;
    while k < a.Length
      invariant 0 <= k <= a.Length
      invariant forall m :: 0 <= m < k ==> a[m] == b[m]
    {
      if a[k] != b[k] {
        assert a[..][k] != b[..][k];
        return false;
      }
      k := k + 1;
    }
    return true;
  }

  /**
   * The run in `main`: four zeroed output buffers, the serial and the
   * parallel variant of each evaluator, and the two comparisons. Each run
   * reads the buffer of its own load of the input file; the loads are
   * required to hold the same pixels. Both comparisons report PASS; each
   * output holds 0 on the border and the evaluator's value (0 or 255) on the
   * interior. `main` hangs in the partitioner for images 5 to 15 pixels
   * wide, hence the precondition.
   */
  method RunBenchmark(inSerialPrewitt: array<int>, inParallelPrewitt: array<int>,
                      inSerialEdge: array<int>, inParallelEdge: array<int>, width: nat, height: nat)
    returns (serialPrewitt: seq<int>, parallelPrewitt: seq<int>,
             serialEdge: seq<int>, parallelEdge: seq<int>,
             prewittPass: bool, edgePass: bool)
    requires inSerialPrewitt.Length == width * height
    requires inParallelPrewitt[..] == inSerialPrewitt[..]
    requires inSerialEdge[..] == inSerialPrewitt[..] && inParallelEdge[..] == inSerialPrewitt[..]
    requires 16 <= width || width <= 2 * Margin
    ensures prewittPass && edgePass
    ensures prewittPass <==> serialPrewitt == parallelPrewitt
    ensures edgePass <==> serialEdge == parallelEdge
    ensures Filled(Prewitt, inSerialPrewitt[..], Zeros(width * height), serialPrewitt, width, Interior(width, height))
    ensures Filled(EdgeDetection, inSerialEdge[..], Zeros(width * height), serialEdge, width, Interior(width, height))
    ensures forall p :: 0 <= p < |serialPrewitt| ==> serialPrewitt[p] == 0 || serialPrewitt[p] == 255
    ensures forall p :: 0 <= p < |serialEdge| ==> serialEdge[p] == 0 || serialEdge[p] == 255
  {
    var n := width * height;
    var outSerialPrewitt := new int[n](_ => 0);
    var outParallelPrewitt := new int[n](_ => 0);
    var outSerialEdge := new int[n](_ => 0);
    var outParallelEdge := new int[n](_ => 0);
    assert outSerialPrewitt[..] == Zeros(n) && outParallelPrewitt[..] == Zeros(n);
    assert outSerialEdge[..] == Zeros(n) && outParallelEdge[..] == Zeros(n);

    FilterSerial(Prewitt, inSerialPrewitt, outSerialPrewitt, width, height);
    FilterParallel(Prewitt, inParallelPrewitt, outParallelPrewitt, width, height);
    FilterSerial(EdgeDetection, inSerialEdge, outSerialEdge, width, height);
    FilterParallel(EdgeDetection, inParallelEdge, outParallelEdge, width, height);

    prewittPass := BuffersEqual(outSerialPrewitt, outParallelPrewitt);
    edgePass := BuffersEqual(outSerialEdge, outParallelEdge);

    serialPrewitt, parallelPrewitt := outSerialPrewitt[..], outParallelPrewitt[..];
    serialEdge, parallelEdge := outSerialEdge[..], outParallelEdge[..];
    FilledIsDeterministic(Prewitt, inSerialPrewitt[..], Zeros(n), serialPrewitt, parallelPrewitt, width, Interior(width, height));
    FilledIsDeterministic(EdgeDetection, inSerialEdge[..], Zeros(n), serialEdge, parallelEdge, width, Interior(width, height));
    FilledFromZerosIsBinary(Prewitt, inSerialPrewitt[..], Zeros(n), serialPrewitt, width, Interior(width, height));
    FilledFromZerosIsBinary(EdgeDetection, inSerialEdge[..], Zeros(n), serialEdge, width, Interior(width, height));
  }
}
