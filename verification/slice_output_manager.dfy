/**
 * The slice output engine: a list of registered outputters, the slice
 * geometry, and the output-cycle counter.  Each call of `Output` records
 * the calls it makes on the outputters in the ghost `trace`.
 */
module SliceOutput {
  import opened SliceTraversal
  import opened SliceEvents
  import opened SliceLoops

  /**
   * A registered outputter: the name of the variable it writes and the
   * transform it applies (a `var_func`, identified here by a number).
   */
  datatype Outputter = Outputter(varname: string, transform: nat)

  class SliceOutputManager {
    const slicelength: int
    const sliceskip: int
    const slicedim: int
    const sliceaverage: bool
    /** Grid points per side (`fs.n`). */
    const n: int
    /** Leading dimension of the field buffers (`phi.ldl`). */
    const ldlField: int
    /** Leading dimension of the gradient buffers (`gc.phigradx.ldl`). */
    const ldlGrad: int

    var outputters: seq<Outputter>
    var binIdx: int
    /** Every call made on the outputters so far, oldest first. */
    ghost var trace: seq<Event>

    /** The slice geometry as a value. */
    function Config(): SliceConfig
    {
      SliceConfig(slicelength, sliceskip, slicedim, sliceaverage, n, ldlField, ldlGrad)
    }

    /** A positive step, without which the traversal loops never end. */
    predicate Valid()
    {
      sliceskip > 0
    }

    constructor (length: int, skip: int, dim: int, average: bool, gridN: int, fieldLdl: int, gradLdl: int)
      ensures Config() == SliceConfig(length, skip, dim, average, gridN, fieldLdl, gradLdl)
      ensures Valid() <==> skip > 0
      ensures outputters == [] && binIdx == 0 && trace == []
    {
      slicelength, sliceskip, slicedim, sliceaverage := length, skip, dim, average;
      n, ldlField, ldlGrad := gridN, fieldLdl, gradLdl;
      outputters, binIdx, trace := [], 0, [];
    }

    /** Registers one more outputter after those already registered. */
    method AddOutputter(varname: string, transform: nat)
      modifies this`outputters
      ensures outputters == old(outputters) + [Outputter(varname, transform)]
      ensures binIdx == old(binIdx) && trace == old(trace)
    {
      outputters := outputters + [Outputter(varname, transform)];
    }

    /** Sends `op` to every registered outputter in registration order. */
    method CallEach(op: Op)
      modifies this`trace
      ensures trace == old(trace) + Broadcast(|outputters|, op)
    {
      var o := 0;
      while o < |outputters|
        invariant 0 <= o <= |outputters|
        invariant trace == old(trace) + Broadcast(o, op)
      {
        trace := trace + [Call(o, op)];
        o := o + 1;
      }
    }

    /** Non-averaging body: each outputter accumulates the cell and advances right away. */
    method SamplePoint(fdx: int, idx: int)
      modifies this`trace
      ensures trace == old(trace) + PointEvents(|outputters|, fdx, idx)
    {
      var o := 0;
      while o < |outputters|
        invariant 0 <= o <= |outputters|
        invariant trace == old(trace) + PointEvents(o, fdx, idx)
      {
        trace := trace + [Call(o, Accumulate(fdx, idx))];
        trace := trace + [Call(o, Advance)];
        o := o + 1;
      }
    }

    /** Averaging, innermost block loop at `(x, y)`: `z` runs from `k` to the block side, clipped at `n`. */
    method AccumulateLine(x: int, y: int, k: int)
      requires Valid()
      modifies this`trace
      ensures trace == old(trace) + LineAccs(Config(), |outputters|, x, y, BlockAxis(Config(), k))
    {
      ghost var c, m := Config(), |outputters|;
      ghost var zAxis, zEnd := BlockAxis(c, k), Min(k + sliceskip, n);
      ghost var zDone: seq<int> := [];
      var z := k;
      assert trace == old(trace) + LineAccs(c, m, x, y, zDone);
      while z < k + sliceskip && z < n
        invariant zDone + Stride(z, zEnd, 1) == zAxis
        invariant trace == old(trace) + LineAccs(c, m, x, y, zDone)
        invariant m == |outputters| && c == Config()
        decreases n - z
      {
        ghost var zPrev := zDone;
        var zCur := z;
        StrideNext(zDone, z, zEnd, 1, zAxis);
        zDone, z := zDone + [z], z + 1;
        assert zDone + Stride(z, zEnd, 1) == zAxis;
        var fdx := zCur + ldlField * (y + n * x);
        var idx := zCur + ldlGrad * (y + n * x);
        assert Accumulate(fdx, idx) == AccumulateAt(c, Pos(x, y, zCur));
        CallEach(Accumulate(fdx, idx));
        LineAccsStep(c, m, old(trace), x, y, zPrev, zCur);
      }
      StrideEnd(zDone, z, zEnd, 1, zAxis);
    }

    /** Averaging, middle block loop at `x`: `y` runs from `j` to the block side, clipped at `n`. */
    method AccumulatePlane(x: int, j: int, k: int)
      requires Valid()
      modifies this`trace
      ensures trace == old(trace) + PlaneAccs(Config(), |outputters|, x, BlockAxis(Config(), j), BlockAxis(Config(), k))
    {
      ghost var c, m := Config(), |outputters|;
      ghost var yAxis, zAxis, yEnd := BlockAxis(c, j), BlockAxis(c, k), Min(j + sliceskip, n);
      ghost var yDone: seq<int> := [];
      var y := j;
      assert trace == old(trace) + PlaneAccs(c, m, x, yDone, zAxis);
      while y < j + sliceskip && y < n
        invariant yDone + Stride(y, yEnd, 1) == yAxis
        invariant trace == old(trace) + PlaneAccs(c, m, x, yDone, zAxis)
        invariant m == |outputters| && c == Config()
        decreases n - y
      {
        ghost var yPrev := yDone;
        var yCur := y;
        StrideNext(yDone, y, yEnd, 1, yAxis);
        yDone, y := yDone + [y], y + 1;
        assert yDone + Stride(y, yEnd, 1) == yAxis;
        AccumulateLine(x, yCur, k);
        PlaneAccsStep(c, m, old(trace), x, yPrev, yCur, zAxis);
      }
      StrideEnd(yDone, y, yEnd, 1, yAxis);
    }

    /**
     * Averaging body at `(i, j, k)`: every cell of the block, clipped at the
     * grid extent, is accumulated by every outputter; then each advances.
     */
    method AverageBlock(i: int, j: int, k: int)
      requires Valid()
      modifies this`trace
      ensures trace == old(trace) + BlockEvents(Config(), |outputters|, Pos(i, j, k))
    {
      ghost var c, m := Config(), |outputters|;
      ghost var xAxis, yAxis, zAxis := BlockAxis(c, i), BlockAxis(c, j), BlockAxis(c, k);
      ghost var xEnd := Min(i + sliceskip, n);
      ghost var xDone: seq<int> := [];
      var x := i;
      assert trace == old(trace) + BlockAccs(c, m, xDone, yAxis, zAxis);
      while x < i + sliceskip && x < n
        invariant xDone + Stride(x, xEnd, 1) == xAxis
        invariant trace == old(trace) + BlockAccs(c, m, xDone, yAxis, zAxis)
        invariant m == |outputters| && c == Config()
        decreases n - x
      {
        ghost var xPrev := xDone;
        var xCur := x;
        StrideNext(xDone, x, xEnd, 1, xAxis);
        xDone, x := xDone + [x], x + 1;
        assert xDone + Stride(x, xEnd, 1) == xAxis;
        AccumulatePlane(xCur, j, k);
        BlockAccsStep(c, m, old(trace), xPrev, xCur, yAxis, zAxis);
      }
      StrideEnd(xDone, x, xEnd, 1, xAxis);
      ghost var swept := trace;
      CallEach(Advance);
      assert trace == old(trace) + BlockAccs(c, m, xAxis, yAxis, zAxis) + Broadcast(m, Advance) by {
        assert trace == swept + Broadcast(m, Advance);
      }
      AverageFromLoops(c, m, Pos(i, j, k), old(trace));
    }

    /**
     * The innermost traversal loop at `(i, j)`: `k` runs over the strided
     * axis; each position is sampled, then flushed by every outputter.
     */
    method VisitLine(i: int, j: int)
      requires Valid()
      modifies this`trace
      ensures trace == old(trace) + LineTrace(Config(), |outputters|, i, j, Axis(Config(), slicelength))
    {
      ghost var c, m := Config(), |outputters|;
      ghost var kAxis := Axis(c, slicelength);
      ghost var kDone: seq<int> := [];
      var k := 0;
      assert trace == old(trace) + LineTrace(c, m, i, j, kDone);
      while k < slicelength
        invariant kDone + Stride(k, slicelength, sliceskip) == kAxis
        invariant trace == old(trace) + LineTrace(c, m, i, j, kDone)
        invariant m == |outputters| && c == Config()
        decreases slicelength - k
      {
        ghost var kPrev, atPosition := kDone, trace;
        var kCur := k;
        StrideNext(kDone, k, slicelength, sliceskip, kAxis);
        kDone, k := kDone + [k], k + sliceskip;
        assert kDone + Stride(k, slicelength, sliceskip) == kAxis;
        if sliceaverage {
          AverageBlock(i, j, kCur);
          assert SampleEvents(c, m, Pos(i, j, kCur)) == BlockEvents(c, m, Pos(i, j, kCur));
        } else {
          var fdx := kCur + ldlField * (j + n * i);
          var idx := kCur + ldlGrad * (j + n * i);
          SamplePoint(fdx, idx);
          assert SampleEvents(c, m, Pos(i, j, kCur)) == PointEvents(m, fdx, idx);
        }
        assert trace == atPosition + SampleEvents(c, m, Pos(i, j, kCur));
        CallEach(Flush);
        LineTraceStep(c, m, old(trace), i, j, kPrev, kCur);
      }
      StrideEnd(kDone, k, slicelength, sliceskip, kAxis);
    }

    /** The middle traversal loop at `i`: `j` runs over its axis, collapsed to 0 unless the slice has two dimensions. */
    method VisitPlane(i: int)
      requires Valid()
      modifies this`trace
      ensures trace == old(trace) + PlaneTrace(Config(), |outputters|, i, Axis(Config(), JExtent(Config())), Axis(Config(), slicelength))
    {
      ghost var c, m := Config(), |outputters|;
      var jEnd := JExtent(Config());
      ghost var jAxis, kAxis := Axis(c, jEnd), Axis(c, slicelength);
      ghost var jDone: seq<int> := [];
      var j := 0;
      assert trace == old(trace) + PlaneTrace(c, m, i, jDone, kAxis);
      while j < jEnd
        invariant jDone + Stride(j, jEnd, sliceskip) == jAxis
        invariant trace == old(trace) + PlaneTrace(c, m, i, jDone, kAxis)
        invariant m == |outputters| && c == Config()
        decreases jEnd - j
      {
        ghost var jPrev := jDone;
        var jCur := j;
        StrideNext(jDone, j, jEnd, sliceskip, jAxis);
        jDone, j := jDone + [j], j + sliceskip;
        assert jDone + Stride(j, jEnd, sliceskip) == jAxis;
        VisitLine(i, jCur);
        PlaneTraceStep(c, m, old(trace), i, jPrev, jCur, kAxis);
      }
      StrideEnd(jDone, j, jEnd, sliceskip, jAxis);
    }

    /**
     * The outer traversal loop: `i` runs over its axis, collapsed to 0 unless
     * the slice has three dimensions, so every strided position is visited.
     */
    method VisitAll()
      requires Valid()
      modifies this`trace
      ensures trace == old(trace) +
        VolumeTrace(Config(), |outputters|, Axis(Config(), IExtent(Config())), Axis(Config(), JExtent(Config())), Axis(Config(), slicelength))
    {
      ghost var c, m := Config(), |outputters|;
      var iEnd := IExtent(Config());
      ghost var iAxis, jAxis, kAxis := Axis(c, iEnd), Axis(c, JExtent(c)), Axis(c, slicelength);
      ghost var iDone: seq<int> := [];
      var i := 0;
      assert trace == old(trace) + VolumeTrace(c, m, iDone, jAxis, kAxis);
      while i < iEnd
        invariant iDone + Stride(i, iEnd, sliceskip) == iAxis
        invariant trace == old(trace) + VolumeTrace(c, m, iDone, jAxis, kAxis)
        invariant m == |outputters| && c == Config()
        decreases iEnd - i
      {
        ghost var iPrev := iDone;
        var iCur := i;
        StrideNext(iDone, i, iEnd, sliceskip, iAxis);
        iDone, i := iDone + [i], i + sliceskip;
        assert iDone + Stride(i, iEnd, sliceskip) == iAxis;
        VisitPlane(iCur);
        VolumeTraceStep(c, m, old(trace), iPrev, iCur, jAxis, kAxis);
      }
      StrideEnd(iDone, i, iEnd, sliceskip, iAxis);
    }

    /**
     * One output cycle.  With no registered outputter nothing happens,
     * whatever the step.
     * Otherwise the gradients are refreshed, every outputter begins bin
     * `binIdx`, the strided positions are visited with `i` slowest and `k`
     * fastest (each sampled, then flushed by every outputter), and the
     * counter moves on.
     */
    method Output()
      requires |outputters| > 0 ==> Valid()
      modifies this`binIdx, this`trace
      ensures |outputters| == 0 ==> binIdx == old(binIdx) && trace == old(trace)
      ensures |outputters| > 0 ==> binIdx == old(binIdx) + 1
      ensures |outputters| > 0 ==> trace == old(trace) + CycleTrace(Config(), |outputters|, old(binIdx))
    {
      if |outputters| == 0 {
        return;
      }
      ghost var c, m := Config(), |outputters|;
      trace := trace + [GradientCompute];
      CallEach(Begin(binIdx));
      VisitAll();
      CycleFromLoops(c, m, old(binIdx), old(trace));
      binIdx := binIdx + 1;
    }
  }
}
