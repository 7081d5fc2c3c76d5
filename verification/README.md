# Slice output engine

A Dafny model of the slice-traversal engine `slice_output_manager<R>` of a
lattice field simulation. The engine keeps a list of per-variable
outputters and counts output cycles in `bin_idx`. With no outputter
registered, `output()` returns at once and changes nothing (lines 53-55).
Otherwise each call:

- refreshes the gradients;
- sends `begin(bin_idx)` to every outputter;
- walks a strided sub-grid with `i` slowest and `k` fastest. An axis beyond
  the slice dimension is collapsed to index 0;
- feeds every outputter the cells of each visited position. In point mode
  that is one cell, followed at once by `advance`. In averaging mode it is
  a block `[pos, pos + skip)` on every axis, clipped at the grid side `n`,
  with one `advance` after the whole block;
- flushes every outputter once per position;
- increments `bin_idx`.

The model is split into four modules.

- `SliceTraversal` (`traversal.dfy`) covers the slice geometry:
  - `SliceConfig` holds the geometry;
  - `Stride` gives the values of one counted loop;
  - `Line`, `Plane` and `Product` give the cells of a loop nest;
  - `Positions` gives the visited positions;
  - `BlockCells` gives the cells of an averaging block;
  - `FlatIndex` gives the buffer offset of a cell.
- `SliceEvents` (`events.dfy`) defines the calls the engine makes. Each is
  an `Event`: either the gradient refresh or `Call(o, op)` made on the
  outputter registered `o`-th, with `op` one of `Begin`, `Accumulate(fdx,
  idx)`, `Advance` or `Flush`. `CycleTrace` gives the calls of one whole
  cycle, and the lemmas state what that sequence holds.
- `SliceLoops` (`loops.dfy`) defines the calls loop level by loop level, as
  the loop nest makes them. It proves them equal to the flat definitions.
- `SliceOutput` (`slice_output_manager.dfy`) holds the engine itself: the
  class `SliceOutputManager`.
  - Its fields are the geometry, the outputter list and `binIdx`.
  - A ghost `trace` records every call made on an outputter, and the
    gradient refresh as a `GradientCompute` event.
  - Each of the six coordinate loops of `output()` (`i`, `j`, `k` and the
    block loops `x`, `y`, `z`) is a method with its own `while` loop. Each
    such method is proved to append exactly the calls its specification
    function defines.
  - The five loops over the outputters become `CallEach` (the `begin`,
    block `advance` and `flush` loops, and the block `accumulate` loop)
    and `SamplePoint` (the point-mode `accumulate`/`advance` loop).
  - `Output` is proved to append `CycleTrace` of the pre-call counter.

The averaging block spans `[i, i + skip)`, `[j, j + skip)` and
`[k, k + skip)` on all three axes, collapsed ones included
(`slice_output_manager.cpp:97-99`). So a one-dimensional slice with
`skip > 1` also averages over neighbouring `i` and `j` rows.
`BlockSpansCollapsedAxes` exhibits this.

Point mode does not clip at `n`. A `slicelength` larger than `n` can make it
read outside the grid: some visited position lies outside the grid exactly
when some multiple of `skip` lies in `[n, slicelength)`
(`PositionsLeaveGrid`). `PointModeReadsPastGrid` exhibits the cell
`(0, 0, n)` when `n` is such a multiple. All bounds lemmas therefore assume
`slicelength <= n` in point mode. Averaging mode never reads outside the
grid, but a position with a coordinate `>= n` gets an empty block, so each
outputter receives `advance` with no `accumulate` for that position
(`AveragingEmptyBlock`).

## Model

| member | source | states |
|---|---|---|
| SliceOutput.SliceOutputManager.AddOutputter | slice_output_manager.cpp:32-37 | the new outputter is appended at the end; the existing ones, their order, the counter and the trace are unchanged |
| SliceOutput.SliceOutputManager.Output | slice_output_manager.cpp:51-145 | with no outputter, whatever the step: no call at all and the counter is unchanged; otherwise the calls made are exactly `CycleTrace` of the pre-call counter, and the counter grows by one |
| SliceOutput.SliceOutputManager.CallEach | slice_output_manager.cpp:59-62 | one call of the given operation to each registered outputter, in registration order |
| SliceOutput.SliceOutputManager.VisitAll | slice_output_manager.cpp:92-142 | the `i` loop makes the calls of every plane of its axis, in axis order; the axis is `{0}` unless the slice has three dimensions |
| SliceOutput.SliceOutputManager.VisitPlane | slice_output_manager.cpp:93-141 | the `j` loop makes the calls of every line of its axis, in order; the axis is `{0}` unless the slice has two or more dimensions |
| SliceOutput.SliceOutputManager.VisitLine | slice_output_manager.cpp:94-140 | the `k` loop visits `0, skip, 2*skip, ...` below `slicelength`; each position is sampled as the mode says, then flushed by every outputter |
| SliceOutput.SliceOutputManager.AverageBlock | slice_output_manager.cpp:95-123 | every cell of the clipped block is accumulated by every outputter in x-y-z order, then every outputter advances once |
| SliceOutput.SliceOutputManager.AccumulatePlane | slice_output_manager.cpp:98-116 | the `y` block loop accumulates every clipped line of the block at `x`, in order |
| SliceOutput.SliceOutputManager.AccumulateLine | slice_output_manager.cpp:99-115 | the `z` block loop accumulates every cell from `k` to `min(k + skip, n)` at the field and gradient offsets of that cell |
| SliceOutput.SliceOutputManager.SamplePoint | slice_output_manager.cpp:124-135 | each outputter, in order, accumulates the position's offsets and immediately advances |
| SliceTraversal.Stride | slice_output_manager.cpp:92-94 | a counted loop runs at least once exactly when its start is below its bound |
| SliceTraversal.StrideIncreasing | slice_output_manager.cpp:92-94 | a counted loop's values start at `lo`, stay below `hi` and strictly increase |
| SliceTraversal.StrideCount | slice_output_manager.cpp:92-94 | a loop with stride `step` from `lo` below `hi` runs `ceil((hi - lo) / step)` times |
| SliceTraversal.StrideMembership | slice_output_manager.cpp:92-94 | `v` is a loop value if and only if `lo <= v < hi` and `v - lo` is a multiple of the step |
| SliceTraversal.UnitStrideMembership | slice_output_manager.cpp:97-99 | a value is visited by a unit-step block loop if and only if it lies in `[lo, hi)` |
| SliceTraversal.UnitStrideCount | slice_output_manager.cpp:97-99 | a unit-step block loop runs `hi - lo` times, or not at all when `hi <= lo` |
| SliceTraversal.LineLayout | slice_output_manager.cpp:94 | the `t`-th cell of the innermost loop is `(i, j, zs[t])` |
| SliceTraversal.PlaneMembership | slice_output_manager.cpp:93-94 | a cell is visited by the two inner loops at `i` if and only if its coordinates are `i`, a `j` value and a `k` value |
| SliceTraversal.ProductMembership | slice_output_manager.cpp:92-94 | a cell is visited by a three-loop nest if and only if each coordinate is a value of its own loop |
| SliceTraversal.ProductSize | slice_output_manager.cpp:92-94 | a three-loop nest visits the product of its three loop counts |
| SliceTraversal.ProductSorted | slice_output_manager.cpp:92-94 | the cells of a nest of increasing loops come in row-major order |
| SliceTraversal.PositionsExact | slice_output_manager.cpp:92-94 | a position is visited if and only if each coordinate is a multiple of the step below its axis extent; collapsed axes give 0 |
| SliceTraversal.PositionsLeaveGrid | slice_output_manager.cpp:92-94 | some visited position lies outside the grid if and only if some multiple of the step lies in `[n, slicelength)` |
| SliceTraversal.PositionCount | slice_output_manager.cpp:92-94 | the number of positions is the product of the ceilings of extent over step |
| SliceTraversal.CollapsedAxes | slice_output_manager.cpp:92-93 | the `i` axis is exactly `[0]` unless the slice has three dimensions; the `j` axis likewise unless it has two |
| SliceTraversal.PositionsInOrder | slice_output_manager.cpp:92-94 | positions are visited in strictly increasing lexicographic order, `i` slowest and `k` fastest |
| SliceTraversal.BlockExact | slice_output_manager.cpp:97-99 | a cell is in the averaging block of `p` if and only if each coordinate lies in `[p, min(p + skip, n))` |
| SliceTraversal.BlockInsideGrid | slice_output_manager.cpp:97-99 | from a non-negative position, every block cell lies inside the grid |
| SliceTraversal.BlockCount | slice_output_manager.cpp:97-99 | the block has the product of its three clipped side lengths as its cell count |
| SliceTraversal.BlockInOrder | slice_output_manager.cpp:97-99 | block cells are accumulated in x-y-z lexicographic order |
| SliceTraversal.BlockSpansCollapsedAxes | slice_output_manager.cpp:97-99 | in a one-dimensional slice with `skip > 1` the block at the origin includes cell `(1, 1, 0)` on the collapsed axes |
| SliceTraversal.FlatIndexBounds | slice_output_manager.cpp:100-101 | a grid cell's offset lies in `[0, n * n * ldl)` when `n <= ldl` |
| SliceTraversal.FlatIndexInjective | slice_output_manager.cpp:100-101 | distinct cells (with `k < ldl` and `j < n`) get distinct offsets |
| SliceEvents.Broadcast | slice_output_manager.cpp:59-62 | one call per registered outputter |
| SliceEvents.BroadcastMembers | slice_output_manager.cpp:137-139 | a broadcast contains only the given operation, sent to registered outputters |
| SliceEvents.BroadcastLayout | slice_output_manager.cpp:137-139 | the `o`-th call of a broadcast goes to outputter `o` |
| SliceEvents.BroadcastCount | slice_output_manager.cpp:137-139 | each registered outputter receives the broadcast operation exactly once, others never |
| SliceEvents.PointEvents | slice_output_manager.cpp:127-134 | two calls per outputter |
| SliceEvents.PointLayout | slice_output_manager.cpp:127-134 | call `2o` is outputter `o`'s accumulate and call `2o + 1` its advance |
| SliceEvents.PointAdvanceCount | slice_output_manager.cpp:127-134 | in point mode each outputter advances exactly once per position |
| SliceEvents.PointSampleCalls | slice_output_manager.cpp:127-134 | point mode makes only accumulate and advance calls to registered outputters |
| SliceEvents.CellAccsMembers | slice_output_manager.cpp:102-114 | the block sweep makes only accumulate calls to registered outputters |
| SliceEvents.CellAccsLength | slice_output_manager.cpp:102-114 | the block sweep makes one accumulate per cell per outputter |
| SliceEvents.CellAccsLayout | slice_output_manager.cpp:97-114 | call `t * m + o` of the block sweep is outputter `o` accumulating cell `t` |
| SliceEvents.AveragingLayout | slice_output_manager.cpp:97-122 | averaging at a position: all accumulates, cell by cell and outputter by outputter, then one advance per outputter in order |
| SliceEvents.AveragingSlot | slice_output_manager.cpp:97-122 | one slot of that layout: where outputter `o`'s accumulate of cell `t` sits |
| SliceEvents.SampleEventsCalls | slice_output_manager.cpp:95-135 | in either mode a position's sampling makes only accumulate or advance calls, and each outputter advances exactly once |
| SliceEvents.PositionEventsOrder | slice_output_manager.cpp:95-139 | at each position the last `m` calls are the flushes in registration order; everything before them is sampling, with one advance per outputter |
| SliceEvents.EventsAtConcat | slice_output_manager.cpp:92-142 | the calls of two position lists visited one after the other are the concatenation of their calls |
| SliceEvents.EventsAtTargets | slice_output_manager.cpp:92-142 | the traversal calls only registered outputters, and never with `begin` |
| SliceEvents.EventsAtCounts | slice_output_manager.cpp:137-139 | each outputter is flushed, and advances, exactly once per visited position |
| SliceEvents.CycleBeginsFirst | slice_output_manager.cpp:53-62 | no outputter: no call; otherwise gradient refresh, then `begin(bin)` to each outputter in order, then only traversal calls |
| SliceEvents.CycleCallCounts | slice_output_manager.cpp:59-142 | per cycle each outputter gets exactly one `begin(bin)`, and as many flushes and advances as there are positions |
| SliceEvents.CellAccsInBounds | slice_output_manager.cpp:100-114 | accumulating in-grid cells reads field and gradient offsets inside their buffers |
| SliceEvents.PositionInBounds | slice_output_manager.cpp:95-135 | every read for a visited position is in bounds, in point mode when `slicelength <= n` |
| SliceEvents.EventsAtInBounds | slice_output_manager.cpp:92-142 | every read of the traversal is in bounds under the same condition |
| SliceEvents.CycleReadsInBounds | slice_output_manager.cpp:51-145 | every read of a cycle is in bounds under the same condition |
| SliceEvents.PointModeReadsPastGrid | slice_output_manager.cpp:125-126 | in point mode with `n` a multiple of the step and `n < slicelength`, position `(0, 0, n)` is visited and lies outside the grid |
| SliceEvents.AveragingEmptyBlock | slice_output_manager.cpp:92-123 | in averaging mode with `n` a multiple of the step and `n < slicelength`, position `(0, 0, n)` is visited, its block is empty, and its sampling is one `advance` per outputter with no `accumulate` |
| SliceEvents.CycleDependsOnBinOnlyInBegin | slice_output_manager.cpp:59-142 | two cycles with different counters differ only in their `begin` calls |
| SliceLoops.LineTraceFlat | slice_output_manager.cpp:94-140 | the calls of the `k` loop are the calls of its cells, in order |
| SliceLoops.PlaneTraceFlat | slice_output_manager.cpp:93-141 | the calls of the `j` loop are the calls of its cells, in order |
| SliceLoops.VolumeTraceFlat | slice_output_manager.cpp:92-142 | the calls of the `i` loop are the calls of the row-major product of the three axes |
| SliceLoops.CycleFromLoops | slice_output_manager.cpp:53-142 | refresh, begins and the loop nest together make exactly `CycleTrace` |
| SliceLoops.LineTraceStep | slice_output_manager.cpp:94-140 | sampling and flushing one more `k` extends the `k` loop's calls |
| SliceLoops.PlaneTraceStep | slice_output_manager.cpp:93-141 | one more `k` loop extends the `j` loop's calls |
| SliceLoops.VolumeTraceStep | slice_output_manager.cpp:92-142 | one more `j` loop extends the `i` loop's calls |
| SliceLoops.LineAccsFlat | slice_output_manager.cpp:99-115 | the `z` block loop accumulates the cells of its line, in order |
| SliceLoops.PlaneAccsFlat | slice_output_manager.cpp:98-116 | the `y` block loop accumulates the cells of its plane, in order |
| SliceLoops.BlockAccsFlat | slice_output_manager.cpp:97-117 | the three block loops accumulate the cells of their product, in x-y-z order |
| SliceLoops.AverageFromLoops | slice_output_manager.cpp:97-122 | the block loops followed by the advances make exactly the averaging calls of the position |
| SliceLoops.LineAccsStep | slice_output_manager.cpp:99-115 | one more `z` extends the `z` block loop's accumulates |
| SliceLoops.PlaneAccsStep | slice_output_manager.cpp:98-116 | one more `z` loop extends the `y` block loop's accumulates |
| SliceLoops.BlockAccsStep | slice_output_manager.cpp:97-117 | one more `y` loop extends the `x` block loop's accumulates |

## Left out

- Gradient computation (`gc.compute()`, line 57) is an external collaborator. It appears only as the `GradientCompute` event.
- The `switch_state` calls and the `host_field` allocation (lines 64-79) are device plumbing and are not modelled.
- The ten `download` transfers (lines 81-90) are device plumbing too. Buffers are identified only by the offsets read from them.
- SliceEvents.CycleReadsInBounds: the size of a host buffer is not visible (`host_field`, lines 70-79). `ReadsInBounds` takes each buffer to hold `n * n * ldl` elements of its own leading dimension, and the bounds lemmas assume `n <= ldl`.
- Field values and float arithmetic are not modelled. An accumulate is recorded by its field offset `fdx` and gradient offset `idx`, not by the ten values read there.
- The outputters' own behaviour (`slice_outputter`: `begin`, `accumulate`, `advance`, `flush`, the `var_func` transform, single-precision conversion, file writing) is not part of this model. Its source is not shown. An outputter is a record of its variable name and a transform identifier.
- `add_outputter` allocates the outputter with `new`; the model keeps values, so pointer ownership is not modelled. The explicit template instantiation (line 148) is not modelled either.
- SliceOutput.SliceOutputManager.constructor: the constructor is in the header, which is not part of this model. The model's constructor starts with no outputter and counter 0.
- SliceOutput.SliceOutputManager.Output: requires `sliceskip > 0` when an outputter is registered; a non-positive step is treated as a configuration error. With a non-positive step and an outputter registered, the source's loops never end except when `slicedim > 2` and `slicelength <= 0`. In that one case the source refreshes the gradients, sends the `begin` calls, visits nothing and increments `bin_idx`; the model does not cover it.
- SliceTraversal.FlatIndex: computed over unbounded integers. The source's 32-bit `int` offsets and loop counters would overflow for very large grids.
