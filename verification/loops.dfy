/**
 * The calls of each loop of the traversal, level by level: the `k` loop at
 * `(i, j)`, the `j` loop at `i`, the `i` loop; and the same for the three
 * averaging loops over one block.  Each level is defined by the level
 * below it, as the loop nest is, and is proved equal to the calls of the
 * flattened list of cells it visits.
 */
module SliceLoops {
  import opened SliceTraversal
  import opened SliceEvents

  /** Calls of the `k` loop at `(i, j)` after it has visited `ks`. */
  function LineTrace(c: SliceConfig, m: nat, i: int, j: int, ks: seq<int>): seq<Event>
    requires c.skip > 0
  {
    if ks == [] then [] else LineTrace(c, m, i, j, ks[..|ks| - 1]) + PositionEvents(c, m, Pos(i, j, ks[|ks| - 1]))
  }

  /** Calls of the `j` loop at `i` after it has visited `js`, each `k` loop running over `ks`. */
  function PlaneTrace(c: SliceConfig, m: nat, i: int, js: seq<int>, ks: seq<int>): seq<Event>
    requires c.skip > 0
  {
    if js == [] then [] else PlaneTrace(c, m, i, js[..|js| - 1], ks) + LineTrace(c, m, i, js[|js| - 1], ks)
  }

  /** Calls of the `i` loop after it has visited `ivals`. */
  function VolumeTrace(c: SliceConfig, m: nat, ivals: seq<int>, js: seq<int>, ks: seq<int>): seq<Event>
    requires c.skip > 0
  {
    if ivals == [] then [] else VolumeTrace(c, m, ivals[..|ivals| - 1], js, ks) + PlaneTrace(c, m, ivals[|ivals| - 1], js, ks)
  }

  /** The `k` loop makes the calls of the positions of its line, in order. */
  lemma {:induction false} LineTraceFlat(c: SliceConfig, m: nat, i: int, j: int, ks: seq<int>)
    requires c.skip > 0
    ensures LineTrace(c, m, i, j, ks) == EventsAt(c, m, Line(i, j, ks))
  {
    if ks != [] {
      var rest, k := ks[..|ks| - 1], ks[|ks| - 1];
      LineTraceFlat(c, m, i, j, rest);
      assert Line(i, j, ks) == Line(i, j, rest) + [Pos(i, j, k)];
      EventsAtExtend(c, m, Line(i, j, rest), Pos(i, j, k));
    }
  }

  /** The `j` loop makes the calls of the positions of its plane, in order. */
  lemma {:induction false} PlaneTraceFlat(c: SliceConfig, m: nat, i: int, js: seq<int>, ks: seq<int>)
    requires c.skip > 0
    ensures PlaneTrace(c, m, i, js, ks) == EventsAt(c, m, Plane(i, js, ks))
  {
    if js != [] {
      var rest, j := js[..|js| - 1], js[|js| - 1];
      PlaneTraceFlat(c, m, i, rest, ks);
      LineTraceFlat(c, m, i, j, ks);
      assert Plane(i, js, ks) == Plane(i, rest, ks) + Line(i, j, ks);
      EventsAtConcat(c, m, Plane(i, rest, ks), Line(i, j, ks));
    }
  }

  /** The whole loop nest makes the calls of the positions of its product, in row-major order. */
  lemma {:induction false} VolumeTraceFlat(c: SliceConfig, m: nat, ivals: seq<int>, js: seq<int>, ks: seq<int>)
    requires c.skip > 0
    ensures VolumeTrace(c, m, ivals, js, ks) == EventsAt(c, m, Product(ivals, js, ks))
  {
    if ivals != [] {
      var rest, i := ivals[..|ivals| - 1], ivals[|ivals| - 1];
      VolumeTraceFlat(c, m, rest, js, ks);
      PlaneTraceFlat(c, m, i, js, ks);
      assert Product(ivals, js, ks) == Product(rest, js, ks) + Plane(i, js, ks);
      EventsAtConcat(c, m, Product(rest, js, ks), Plane(i, js, ks));
    }
  }

  /**
   * A cycle with registered outputters is the gradient refresh, one
   * `begin(bin)` per outputter, then the calls of the loop nest over the
   * three axes.
   */
  lemma CycleFromLoops(c: SliceConfig, m: nat, bin: int, pre: seq<Event>)
    requires c.skip > 0 && m > 0
    ensures pre + [GradientCompute] + Broadcast(m, Begin(bin)) +
              VolumeTrace(c, m, Axis(c, IExtent(c)), Axis(c, JExtent(c)), Axis(c, c.length)) ==
            pre + CycleTrace(c, m, bin)
  {
    var ivals, js, ks := Axis(c, IExtent(c)), Axis(c, JExtent(c)), Axis(c, c.length);
    VolumeTraceFlat(c, m, ivals, js, ks);
    ConcatAssoc3(pre, [GradientCompute], Broadcast(m, Begin(bin)), VolumeTrace(c, m, ivals, js, ks));
  }

  /** Sampling and flushing one more position extends the calls of the `k` loop. */
  lemma LineTraceStep(c: SliceConfig, m: nat, pre: seq<Event>, i: int, j: int, ks: seq<int>, k: int)
    requires c.skip > 0
    ensures pre + LineTrace(c, m, i, j, ks) + SampleEvents(c, m, Pos(i, j, k)) + Broadcast(m, Flush) ==
            pre + LineTrace(c, m, i, j, ks + [k])
  {
    assert (ks + [k])[..|ks|] == ks;
    ConcatAssoc3(pre, LineTrace(c, m, i, j, ks), SampleEvents(c, m, Pos(i, j, k)), Broadcast(m, Flush));
    ConcatAssoc(pre, LineTrace(c, m, i, j, ks), PositionEvents(c, m, Pos(i, j, k)));
  }

  /** One more `k` loop extends the calls of the `j` loop. */
  lemma PlaneTraceStep(c: SliceConfig, m: nat, pre: seq<Event>, i: int, js: seq<int>, j: int, ks: seq<int>)
    requires c.skip > 0
    ensures pre + PlaneTrace(c, m, i, js, ks) + LineTrace(c, m, i, j, ks) == pre + PlaneTrace(c, m, i, js + [j], ks)
  {
    assert (js + [j])[..|js|] == js;
    ConcatAssoc(pre, PlaneTrace(c, m, i, js, ks), LineTrace(c, m, i, j, ks));
  }

  /** One more `j` loop extends the calls of the `i` loop. */
  lemma VolumeTraceStep(c: SliceConfig, m: nat, pre: seq<Event>, ivals: seq<int>, i: int, js: seq<int>, ks: seq<int>)
    requires c.skip > 0
    ensures pre + VolumeTrace(c, m, ivals, js, ks) + PlaneTrace(c, m, i, js, ks) == pre + VolumeTrace(c, m, ivals + [i], js, ks)
  {
    assert (ivals + [i])[..|ivals|] == ivals;
    ConcatAssoc(pre, VolumeTrace(c, m, ivals, js, ks), PlaneTrace(c, m, i, js, ks));
  }

  /** Accumulates of the averaging `z` loop at `(x, y)` after it has visited `zs`. */
  function LineAccs(c: SliceConfig, m: nat, x: int, y: int, zs: seq<int>): seq<Event>
  {
    if zs == [] then [] else LineAccs(c, m, x, y, zs[..|zs| - 1]) + Broadcast(m, AccumulateAt(c, Pos(x, y, zs[|zs| - 1])))
  }

  /** Accumulates of the averaging `y` loop at `x` after it has visited `ys`. */
  function PlaneAccs(c: SliceConfig, m: nat, x: int, ys: seq<int>, zs: seq<int>): seq<Event>
  {
    if ys == [] then [] else PlaneAccs(c, m, x, ys[..|ys| - 1], zs) + LineAccs(c, m, x, ys[|ys| - 1], zs)
  }

  /** Accumulates of the averaging `x` loop after it has visited `xs`. */
  function BlockAccs(c: SliceConfig, m: nat, xs: seq<int>, ys: seq<int>, zs: seq<int>): seq<Event>
  {
    if xs == [] then [] else BlockAccs(c, m, xs[..|xs| - 1], ys, zs) + PlaneAccs(c, m, xs[|xs| - 1], ys, zs)
  }

  lemma {:induction false} LineAccsFlat(c: SliceConfig, m: nat, x: int, y: int, zs: seq<int>)
    ensures LineAccs(c, m, x, y, zs) == CellAccs(c, m, Line(x, y, zs))
  {
    if zs != [] {
      var rest, z := zs[..|zs| - 1], zs[|zs| - 1];
      LineAccsFlat(c, m, x, y, rest);
      assert Line(x, y, zs) == Line(x, y, rest) + [Pos(x, y, z)];
      CellAccsExtend(c, m, Line(x, y, rest), Pos(x, y, z));
    }
  }

  lemma {:induction false} PlaneAccsFlat(c: SliceConfig, m: nat, x: int, ys: seq<int>, zs: seq<int>)
    ensures PlaneAccs(c, m, x, ys, zs) == CellAccs(c, m, Plane(x, ys, zs))
  {
    if ys != [] {
      var rest, y := ys[..|ys| - 1], ys[|ys| - 1];
      PlaneAccsFlat(c, m, x, rest, zs);
      LineAccsFlat(c, m, x, y, zs);
      assert Plane(x, ys, zs) == Plane(x, rest, zs) + Line(x, y, zs);
      CellAccsConcat(c, m, Plane(x, rest, zs), Line(x, y, zs));
    }
  }

  /** The three averaging loops accumulate the cells of their product, in row-major order. */
  lemma {:induction false} BlockAccsFlat(c: SliceConfig, m: nat, xs: seq<int>, ys: seq<int>, zs: seq<int>)
    ensures BlockAccs(c, m, xs, ys, zs) == CellAccs(c, m, Product(xs, ys, zs))
  {
    if xs != [] {
      var rest, x := xs[..|xs| - 1], xs[|xs| - 1];
      BlockAccsFlat(c, m, rest, ys, zs);
      PlaneAccsFlat(c, m, x, ys, zs);
      assert Product(xs, ys, zs) == Product(rest, ys, zs) + Plane(x, ys, zs);
      CellAccsConcat(c, m, Product(rest, ys, zs), Plane(x, ys, zs));
    }
  }

  /** The averaging body at `p` is the three block loops followed by one advance per outputter. */
  lemma AverageFromLoops(c: SliceConfig, m: nat, p: Pos, pre: seq<Event>)
    requires c.skip > 0
    ensures pre + BlockAccs(c, m, BlockAxis(c, p.i), BlockAxis(c, p.j), BlockAxis(c, p.k)) + Broadcast(m, Advance) ==
            pre + BlockEvents(c, m, p)
  {
    var xs, ys, zs := BlockAxis(c, p.i), BlockAxis(c, p.j), BlockAxis(c, p.k);
    BlockAccsFlat(c, m, xs, ys, zs);
    ConcatAssoc(pre, BlockAccs(c, m, xs, ys, zs), Broadcast(m, Advance));
  }

  lemma LineAccsStep(c: SliceConfig, m: nat, pre: seq<Event>, x: int, y: int, zs: seq<int>, z: int)
    ensures pre + LineAccs(c, m, x, y, zs) + Broadcast(m, AccumulateAt(c, Pos(x, y, z))) ==
            pre + LineAccs(c, m, x, y, zs + [z])
  {
    assert (zs + [z])[..|zs|] == zs;
    ConcatAssoc(pre, LineAccs(c, m, x, y, zs), Broadcast(m, AccumulateAt(c, Pos(x, y, z))));
  }

  lemma PlaneAccsStep(c: SliceConfig, m: nat, pre: seq<Event>, x: int, ys: seq<int>, y: int, zs: seq<int>)
    ensures pre + PlaneAccs(c, m, x, ys, zs) + LineAccs(c, m, x, y, zs) == pre + PlaneAccs(c, m, x, ys + [y], zs)
  {
    assert (ys + [y])[..|ys|] == ys;
    ConcatAssoc(pre, PlaneAccs(c, m, x, ys, zs), LineAccs(c, m, x, y, zs));
  }

  lemma BlockAccsStep(c: SliceConfig, m: nat, pre: seq<Event>, xs: seq<int>, x: int, ys: seq<int>, zs: seq<int>)
    ensures pre + BlockAccs(c, m, xs, ys, zs) + PlaneAccs(c, m, x, ys, zs) == pre + BlockAccs(c, m, xs + [x], ys, zs)
  {
    assert (xs + [x])[..|xs|] == xs;
    ConcatAssoc(pre, BlockAccs(c, m, xs, ys, zs), PlaneAccs(c, m, x, ys, zs));
  }
}
