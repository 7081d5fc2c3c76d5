/**
 * Which grid cells the slice output engine visits, and in which order.
 *
 * The engine walks three nested counted loops `i`, `j`, `k`; in averaging
 * mode it walks three more loops `x`, `y`, `z` over the block that starts at
 * `(i, j, k)`.  Each counted loop `for (v = lo; v < hi; v += step)` is
 * described by `Stride(lo, hi, step)`, and each nest of three loops by the
 * `Product` of three such axes.
 */
module SliceTraversal {

  /** The slice configuration and grid geometry one output cycle depends on. */
  datatype SliceConfig = SliceConfig(
    length: int,     // slicelength: side of the grid region the slice is taken from
    skip: int,       // sliceskip: stride between visited points
    dim: int,        // slicedim: how many axes are sampled
    average: bool,   // sliceaverage: average over the skipped points
    n: int,          // fs.n: physical extent of the grid along each axis
    ldlField: int,   // phi.ldl: leading dimension of the field buffers
    ldlGrad: int)    // gc.phigradx.ldl: leading dimension of the gradient buffers

  /** A grid coordinate: `i` is the outer (slowest) axis, `k` the inner one. */
  datatype Pos = Pos(i: int, j: int, k: int)

  function Min(a: int, b: int): int { if a < b then a else b }

  /** Number of values `0, step, 2*step, ...` below `len`: the ceiling of len/step. */
  function CeilDiv(len: int, step: int): nat
    requires step > 0
  {
    if len <= 0 then 0 else (len + step - 1) / step
  }

  predicate Increasing(s: seq<int>)
  {
    forall a, b :: 0 <= a < b < |s| ==> s[a] < s[b]
  }

  /** The values taken, in order, by the loop `for (v = lo; v < hi; v += step)`. */
  function Stride(lo: int, hi: int, step: int): (r: seq<int>)
    requires step > 0
    ensures lo < hi <==> |r| > 0
    decreases hi - lo
  {
    if lo < hi then [lo] + Stride(lo + step, hi, step) else []
  }

  /** The loop's values start at `lo`, stay below `hi` and strictly increase. */
  lemma {:induction false} StrideIncreasing(lo: int, hi: int, step: int)
    requires step > 0
    ensures var r := Stride(lo, hi, step);
      (forall t :: 0 <= t < |r| ==> lo <= r[t] < hi) &&
      (|r| > 0 ==> r[0] == lo) &&
      Increasing(r)
    decreases hi - lo
  {
    if lo < hi {
      StrideIncreasing(lo + step, hi, step);
    }
  }

  lemma {:induction false} MulAtLeast(d: int, b: int)
    requires d >= 1 && b > 0
    ensures d * b >= b
    decreases d
  {
    if d > 1 {
      MulAtLeast(d - 1, b);
      assert d * b == (d - 1) * b + b;
    }
  }

  /** The only multiple of `b` strictly between `-b` and `b` is zero. */
  lemma SmallMultiple(d: int, b: int)
    requires b > 0 && -b < d * b < b
    ensures d == 0
  {
    if d > 0 {
      MulAtLeast(d, b);
    } else if d < 0 {
      MulAtLeast(-d, b);
    }
  }

  /** Euclidean division is determined by quotient and remainder. */
  lemma DivUnique(a: int, b: int, q: int, r: int)
    requires b > 0 && 0 <= r < b && a == q * b + r
    ensures a / b == q && a % b == r
  {
    var q0, r0 := a / b, a % b;
    assert a == q0 * b + r0 && 0 <= r0 < b;
    assert (q - q0) * b == r0 - r;
    SmallMultiple(q - q0, b);
  }

  lemma DivStep(a: int, b: int)
    requires b > 0
    ensures (a + b) / b == a / b + 1 && (a + b) % b == a % b
  {
    var q, r := a / b, a % b;
    assert a == q * b + r;
    assert a + b == (q + 1) * b + r;
    DivUnique(a + b, b, q + 1, r);
  }

  /** A counted loop with stride `step` runs ceil((hi - lo) / step) times. */
  lemma {:induction false} StrideCount(lo: int, hi: int, step: int)
    requires step > 0
    ensures |Stride(lo, hi, step)| == CeilDiv(hi - lo, step)
    decreases hi - lo
  {
    if lo < hi {
      StrideCount(lo + step, hi, step);
      var d := hi - lo;
      DivStep(d - 1, step);
      if d <= step {
        DivUnique(d - 1, step, 0, d - 1);
      }
    }
  }

  /** A value is visited by the counted loop exactly when it is in range and on the stride. */
  lemma {:induction false} StrideMembership(lo: int, hi: int, step: int, v: int)
    requires step > 0
    ensures v in Stride(lo, hi, step) <==> lo <= v < hi && (v - lo) % step == 0
    decreases hi - lo
  {
    if lo < hi {
      StrideMembership(lo + step, hi, step, v);
      DivStep(v - (lo + step), step);
      if lo <= v < lo + step {
        DivUnique(v - lo, step, 0, v - lo);
      }
    }
  }

  /** A unit-step loop visits exactly the values of `[lo, hi)`. */
  lemma UnitStrideMembership(lo: int, hi: int, v: int)
    ensures v in Stride(lo, hi, 1) <==> lo <= v < hi
  {
    StrideMembership(lo, hi, 1, v);
    DivUnique(v - lo, 1, v - lo, 0);
  }

  /** A unit-step loop runs `hi - lo` times, or not at all when the range is empty. */
  lemma UnitStrideCount(lo: int, hi: int)
    ensures |Stride(lo, hi, 1)| == if hi <= lo then 0 else hi - lo
  {
    StrideCount(lo, hi, 1);
    DivUnique(hi - lo, 1, hi - lo, 0);
  }

  /** The cells `(i, j, k)` for `k` in `zs`, in order. */
  function Line(i: int, j: int, zs: seq<int>): seq<Pos>
  {
    if zs == [] then [] else Line(i, j, zs[..|zs| - 1]) + [Pos(i, j, zs[|zs| - 1])]
  }

  /** The `t`-th cell of a line is `(i, j, zs[t])`. */
  lemma {:induction false} LineLayout(i: int, j: int, zs: seq<int>)
    ensures |Line(i, j, zs)| == |zs|
    ensures forall t :: 0 <= t < |zs| ==> Line(i, j, zs)[t] == Pos(i, j, zs[t])
  {
    if zs != [] {
      LineLayout(i, j, zs[..|zs| - 1]);
    }
  }

  /** The cells of the loop nest `for j in ys { for k in zs }` at fixed `i`, in visiting order. */
  function Plane(i: int, ys: seq<int>, zs: seq<int>): seq<Pos>
  {
    if ys == [] then [] else Plane(i, ys[..|ys| - 1], zs) + Line(i, ys[|ys| - 1], zs)
  }

  /** The cells of the loop nest `for i in xs { for j in ys { for k in zs } }`, in visiting order. */
  function Product(xs: seq<int>, ys: seq<int>, zs: seq<int>): seq<Pos>
  {
    if xs == [] then [] else Product(xs[..|xs| - 1], ys, zs) + Plane(xs[|xs| - 1], ys, zs)
  }

  /** A loop over `Stride(lo, hi, step)` that has done `done` moves on to `lo + step`. */
  lemma StrideNext(done: seq<int>, lo: int, hi: int, step: int, all: seq<int>)
    requires step > 0 && lo < hi && done + Stride(lo, hi, step) == all
    ensures (done + [lo]) + Stride(lo + step, hi, step) == all
  {
    assert Stride(lo, hi, step) == [lo] + Stride(lo + step, hi, step);
  }

  /** A loop over `Stride(lo, hi, step)` that leaves at `hi` has done all of it. */
  lemma StrideEnd(done: seq<int>, lo: int, hi: int, step: int, all: seq<int>)
    requires step > 0 && hi <= lo && done + Stride(lo, hi, step) == all
    ensures done == all
  {
    assert done + [] == done;
  }

  lemma ConcatAssoc<T>(a: seq<T>, b: seq<T>, c: seq<T>)
    ensures a + b + c == a + (b + c)
  {
  }

  lemma ConcatAssoc3<T>(a: seq<T>, b: seq<T>, c: seq<T>, d: seq<T>)
    ensures a + b + c + d == a + (b + c + d)
  {
  }

  lemma {:induction false} PlaneMembership(i: int, ys: seq<int>, zs: seq<int>, q: Pos)
    ensures q in Plane(i, ys, zs) <==> q.i == i && q.j in ys && q.k in zs
  {
    if ys != [] {
      var ys' := ys[..|ys| - 1];
      PlaneMembership(i, ys', zs, q);
      assert ys == ys' + [ys[|ys| - 1]];
      LineLayout(i, ys[|ys| - 1], zs);
      if q in Line(i, ys[|ys| - 1], zs) {
        var t :| 0 <= t < |zs| && Line(i, ys[|ys| - 1], zs)[t] == q;
        assert q.k == zs[t];
      }
      if q.i == i && q.j == ys[|ys| - 1] && q.k in zs {
        var t :| 0 <= t < |zs| && zs[t] == q.k;
        assert Line(i, ys[|ys| - 1], zs)[t] == q;
      }
    }
  }

  /** A cell is visited by a three-loop nest exactly when each coordinate is visited by its loop. */
  lemma {:induction false} ProductMembership(xs: seq<int>, ys: seq<int>, zs: seq<int>, q: Pos)
    ensures q in Product(xs, ys, zs) <==> q.i in xs && q.j in ys && q.k in zs
  {
    if xs != [] {
      var xs' := xs[..|xs| - 1];
      ProductMembership(xs', ys, zs, q);
      PlaneMembership(xs[|xs| - 1], ys, zs, q);
      assert xs == xs' + [xs[|xs| - 1]];
    }
  }

  lemma {:induction false} PlaneSize(i: int, ys: seq<int>, zs: seq<int>)
    ensures |Plane(i, ys, zs)| == |ys| * |zs|
  {
    if ys != [] {
      PlaneSize(i, ys[..|ys| - 1], zs);
      LineLayout(i, ys[|ys| - 1], zs);
      MulSucc(|ys| - 1, |zs|);
    }
  }

  /** A three-loop nest visits |xs| * |ys| * |zs| cells. */
  lemma {:induction false} ProductSize(xs: seq<int>, ys: seq<int>, zs: seq<int>)
    ensures |Product(xs, ys, zs)| == |xs| * (|ys| * |zs|)
  {
    if xs != [] {
      ProductSize(xs[..|xs| - 1], ys, zs);
      PlaneSize(xs[|xs| - 1], ys, zs);
      MulSucc(|xs| - 1, |ys| * |zs|);
    }
  }

  /** `p` comes before `q` in row-major order: `i` slowest, `k` fastest. */
  predicate LexLess(p: Pos, q: Pos)
  {
    p.i < q.i || (p.i == q.i && (p.j < q.j || (p.j == q.j && p.k < q.k)))
  }

  predicate LexSorted(ps: seq<Pos>)
  {
    forall a, b :: 0 <= a < b < |ps| ==> LexLess(ps[a], ps[b])
  }

  lemma SortedConcat(xs: seq<Pos>, ys: seq<Pos>)
    requires LexSorted(xs) && LexSorted(ys)
    requires forall p, q :: p in xs && q in ys ==> LexLess(p, q)
    ensures LexSorted(xs + ys)
  {
    forall a, b | 0 <= a < b < |xs + ys|
      ensures LexLess((xs + ys)[a], (xs + ys)[b])
    {
      if a < |xs| && |xs| <= b {
        assert (xs + ys)[a] in xs && (xs + ys)[b] in ys;
      }
    }
  }

  lemma {:induction false} PlaneSorted(i: int, ys: seq<int>, zs: seq<int>)
    requires Increasing(ys) && Increasing(zs)
    ensures LexSorted(Plane(i, ys, zs))
  {
    if ys != [] {
      var ys' := ys[..|ys| - 1];
      var j := ys[|ys| - 1];
      PlaneSorted(i, ys', zs);
      LineLayout(i, j, zs);
      forall p, q | p in Plane(i, ys', zs) && q in Line(i, j, zs)
        ensures LexLess(p, q)
      {
        PlaneMembership(i, ys', zs, p);
        var t :| 0 <= t < |zs| && Line(i, j, zs)[t] == q;
      }
      SortedConcat(Plane(i, ys', zs), Line(i, j, zs));
    }
  }

  /**
   * A three-loop nest over increasing axes visits its cells in strictly
   * increasing row-major order (outer axis slowest, inner axis fastest).
   */
  lemma {:induction false} ProductSorted(xs: seq<int>, ys: seq<int>, zs: seq<int>)
    requires Increasing(xs) && Increasing(ys) && Increasing(zs)
    ensures LexSorted(Product(xs, ys, zs))
  {
    if xs != [] {
      var xs' := xs[..|xs| - 1];
      var i := xs[|xs| - 1];
      ProductSorted(xs', ys, zs);
      PlaneSorted(i, ys, zs);
      forall p, q | p in Product(xs', ys, zs) && q in Plane(i, ys, zs)
        ensures LexLess(p, q)
      {
        ProductMembership(xs', ys, zs, p);
        PlaneMembership(i, ys, zs, q);
      }
      SortedConcat(Product(xs', ys, zs), Plane(i, ys, zs));
    }
  }

  /** Loop bound of the outer axis: sampled only when the slice has three dimensions. */
  function IExtent(c: SliceConfig): int { if c.dim > 2 then c.length else 1 }

  /** Loop bound of the middle axis: sampled only when the slice has two or more dimensions. */
  function JExtent(c: SliceConfig): int { if c.dim > 1 then c.length else 1 }

  /** The values one sampled axis takes: 0, skip, 2*skip, ... below `extent`. */
  function Axis(c: SliceConfig, extent: int): seq<int>
    requires c.skip > 0
  {
    Stride(0, extent, c.skip)
  }

  /** The visited positions of one output cycle, in visiting order. */
  function Positions(c: SliceConfig): seq<Pos>
    requires c.skip > 0
  {
    Product(Axis(c, IExtent(c)), Axis(c, JExtent(c)), Axis(c, c.length))
  }

  /** `v` is a value taken by a sampled axis with bound `extent`. */
  predicate OnAxis(v: int, extent: int, skip: int)
    requires skip > 0
  {
    0 <= v < extent && v % skip == 0
  }

  /**
   * The visited positions are exactly the cells whose coordinates lie on
   * the stride below the slice length on sampled axes, and are 0 on the
   * collapsed ones.
   */
  lemma PositionsExact(c: SliceConfig, p: Pos)
    requires c.skip > 0
    ensures p in Positions(c) <==>
              OnAxis(p.i, IExtent(c), c.skip) && OnAxis(p.j, JExtent(c), c.skip) && OnAxis(p.k, c.length, c.skip)
    ensures p in Positions(c) && c.dim <= 2 ==> p.i == 0
    ensures p in Positions(c) && c.dim <= 1 ==> p.j == 0
  {
    var ie, je := IExtent(c), JExtent(c);
    ProductMembership(Axis(c, ie), Axis(c, je), Axis(c, c.length), p);
    StrideMembership(0, ie, c.skip, p.i);
    StrideMembership(0, je, c.skip, p.j);
    StrideMembership(0, c.length, c.skip, p.k);
    assert p in Positions(c) <==> OnAxis(p.i, ie, c.skip) && OnAxis(p.j, je, c.skip) && OnAxis(p.k, c.length, c.skip);
  }

  /**
   * The traversal is not clipped at the grid: some visited position lies
   * outside it exactly when some multiple of the step lies in `[n, length)`.
   */
  lemma PositionsLeaveGrid(c: SliceConfig)
    requires c.skip > 0
    ensures (exists p :: p in Positions(c) && !InGrid(p, c.n)) <==>
            (exists v :: OnAxis(v, c.length, c.skip) && c.n <= v)
  {
    if exists v :: OnAxis(v, c.length, c.skip) && c.n <= v {
      var v :| OnAxis(v, c.length, c.skip) && c.n <= v;
      PositionsExact(c, Pos(0, 0, v));
      assert Pos(0, 0, v) in Positions(c) && !InGrid(Pos(0, 0, v), c.n);
    }
    if exists p :: p in Positions(c) && !InGrid(p, c.n) {
      var p :| p in Positions(c) && !InGrid(p, c.n);
      PositionsExact(c, p);
      if p.k >= c.n {
        assert OnAxis(p.k, c.length, c.skip);
      } else if p.j >= c.n {
        assert OnAxis(p.j, c.length, c.skip);
      } else {
        assert OnAxis(p.i, c.length, c.skip);
      }
    }
  }

  /** Each sampled axis contributes ceil(length/skip) values, a collapsed axis exactly one. */
  lemma PositionCount(c: SliceConfig)
    requires c.skip > 0
    ensures |Positions(c)| ==
              CeilDiv(IExtent(c), c.skip) * (CeilDiv(JExtent(c), c.skip) * CeilDiv(c.length, c.skip))
  {
    var xs, ys, zs := Axis(c, IExtent(c)), Axis(c, JExtent(c)), Axis(c, c.length);
    StrideCount(0, IExtent(c), c.skip);
    StrideCount(0, JExtent(c), c.skip);
    StrideCount(0, c.length, c.skip);
    ProductSize(xs, ys, zs);
    assert |xs| == CeilDiv(IExtent(c), c.skip);
    assert |ys| * |zs| == CeilDiv(JExtent(c), c.skip) * CeilDiv(c.length, c.skip);
  }

  /** An axis that the slice dimension switches off takes the single value 0. */
  lemma CollapsedAxes(c: SliceConfig)
    requires c.skip > 0
    ensures c.dim <= 2 ==> Axis(c, IExtent(c)) == [0]
    ensures c.dim <= 1 ==> Axis(c, JExtent(c)) == [0]
  {
    assert Stride(0, 1, c.skip) == [0] + Stride(c.skip, 1, c.skip);
  }

  /** Positions are produced in strictly increasing row-major order. */
  lemma PositionsInOrder(c: SliceConfig)
    requires c.skip > 0
    ensures LexSorted(Positions(c))
  {
    StrideIncreasing(0, IExtent(c), c.skip);
    StrideIncreasing(0, JExtent(c), c.skip);
    StrideIncreasing(0, c.length, c.skip);
    ProductSorted(Axis(c, IExtent(c)), Axis(c, JExtent(c)), Axis(c, c.length));
  }

  /** The values `lo, lo+1, ...` of one averaging loop, clipped at the grid extent. */
  function BlockAxis(c: SliceConfig, lo: int): seq<int>
    requires c.skip > 0
  {
    Stride(lo, Min(lo + c.skip, c.n), 1)
  }

  /** The cells accumulated for the position `p` in averaging mode, in visiting order. */
  function BlockCells(c: SliceConfig, p: Pos): seq<Pos>
    requires c.skip > 0
  {
    Product(BlockAxis(c, p.i), BlockAxis(c, p.j), BlockAxis(c, p.k))
  }

  /** Number of values of one averaging loop: the block side, clipped at the grid extent. */
  function BlockSide(c: SliceConfig, lo: int): nat
  {
    if Min(lo + c.skip, c.n) <= lo then 0 else Min(lo + c.skip, c.n) - lo
  }

  /**
   * The block accumulated for `p` holds exactly the cells in `[p, p + skip)`
   * on every axis, clipped below the grid extent `n`.
   */
  lemma BlockExact(c: SliceConfig, p: Pos, q: Pos)
    requires c.skip > 0
    ensures q in BlockCells(c, p) <==>
              p.i <= q.i < Min(p.i + c.skip, c.n) &&
              p.j <= q.j < Min(p.j + c.skip, c.n) &&
              p.k <= q.k < Min(p.k + c.skip, c.n)
  {
    var xe, ye, ze := Min(p.i + c.skip, c.n), Min(p.j + c.skip, c.n), Min(p.k + c.skip, c.n);
    var xs, ys, zs := Stride(p.i, xe, 1), Stride(p.j, ye, 1), Stride(p.k, ze, 1);
    assert BlockCells(c, p) == Product(xs, ys, zs);
    ProductMembership(xs, ys, zs, q);
    UnitStrideMembership(p.i, xe, q.i);
    UnitStrideMembership(p.j, ye, q.j);
    UnitStrideMembership(p.k, ze, q.k);
  }

  /** No accumulated cell reaches the grid extent; a visited position's block lies inside the grid. */
  lemma BlockInsideGrid(c: SliceConfig, p: Pos, q: Pos)
    requires c.skip > 0 && 0 <= p.i && 0 <= p.j && 0 <= p.k
    requires q in BlockCells(c, p)
    ensures InGrid(q, c.n)
  {
    BlockExact(c, p, q);
  }

  /** The block has the clipped side length along each axis. */
  lemma BlockCount(c: SliceConfig, p: Pos)
    requires c.skip > 0
    ensures |BlockCells(c, p)| == BlockSide(c, p.i) * (BlockSide(c, p.j) * BlockSide(c, p.k))
  {
    var xs, ys, zs := BlockAxis(c, p.i), BlockAxis(c, p.j), BlockAxis(c, p.k);
    assert |xs| == BlockSide(c, p.i) by {
      UnitStrideCount(p.i, Min(p.i + c.skip, c.n));
    }
    assert |ys| == BlockSide(c, p.j) by {
      UnitStrideCount(p.j, Min(p.j + c.skip, c.n));
    }
    assert |zs| == BlockSide(c, p.k) by {
      UnitStrideCount(p.k, Min(p.k + c.skip, c.n));
    }
    ProductSize(xs, ys, zs);
  }

  /** The cells of a block are accumulated in row-major order (x slowest, z fastest). */
  lemma BlockInOrder(c: SliceConfig, p: Pos)
    requires c.skip > 0
    ensures LexSorted(BlockCells(c, p))
  {
    StrideIncreasing(p.i, Min(p.i + c.skip, c.n), 1);
    StrideIncreasing(p.j, Min(p.j + c.skip, c.n), 1);
    StrideIncreasing(p.k, Min(p.k + c.skip, c.n), 1);
    ProductSorted(BlockAxis(c, p.i), BlockAxis(c, p.j), BlockAxis(c, p.k));
  }

  /**
   * The averaging block extends along every axis, collapsed ones included:
   * for a one-dimensional slice the first block already holds the cell
   * `(1, 1, 0)`, which lies off the sampled line.
   */
  lemma BlockSpansCollapsedAxes(c: SliceConfig)
    requires c.skip > 1 && c.n > 1 && c.length > 0 && c.dim <= 1
    ensures Pos(0, 0, 0) in Positions(c)
    ensures Pos(1, 1, 0) in BlockCells(c, Pos(0, 0, 0))
  {
    PositionsExact(c, Pos(0, 0, 0));
    BlockExact(c, Pos(0, 0, 0), Pos(1, 1, 0));
  }

  /** Flat buffer offset of a cell for a buffer with leading dimension `ldl`. */
  function FlatIndex(q: Pos, ldl: int, n: int): int
  {
    q.k + ldl * (q.j + n * q.i)
  }

  /** Offset into the field buffers (stride `phi.ldl`). */
  function FieldIndex(c: SliceConfig, q: Pos): int { FlatIndex(q, c.ldlField, c.n) }

  /** Offset into the gradient buffers (stride `gc.phigradx.ldl`). */
  function GradIndex(c: SliceConfig, q: Pos): int { FlatIndex(q, c.ldlGrad, c.n) }

  predicate InGrid(q: Pos, n: int)
  {
    0 <= q.i < n && 0 <= q.j < n && 0 <= q.k < n
  }

  lemma {:induction false} MulNonneg(a: int, c: int)
    requires a >= 0 && c >= 0
    ensures a * c >= 0
    decreases a
  {
    if a > 0 {
      MulNonneg(a - 1, c);
      assert a * c == (a - 1) * c + c;
    }
  }

  lemma MulSucc(a: int, m: int)
    ensures (a + 1) * m == a * m + m
  {
  }

  lemma MulMono(a: int, b: int, c: int)
    requires a <= b && c >= 0
    ensures a * c <= b * c
  {
    MulNonneg(b - a, c);
    assert (b - a) * c == b * c - a * c;
  }

  /** A cell inside the grid lands inside an `n * n * ldl` buffer when `ldl >= n`. */
  lemma FlatIndexBounds(q: Pos, ldl: int, n: int)
    requires InGrid(q, n) && n <= ldl
    ensures 0 <= FlatIndex(q, ldl, n) < n * n * ldl
  {
    var a := q.j + n * q.i;
    MulNonneg(q.i, n);
    MulMono(q.i, n - 1, n);
    assert a <= n * n - 1 by {
      assert (n - 1) * n == n * n - n;
    }
    MulNonneg(a, ldl);
    MulMono(a, n * n - 1, ldl);
    assert FlatIndex(q, ldl, n) == q.k + a * ldl;
    assert (n * n - 1) * ldl == n * n * ldl - ldl;
  }

  lemma DigitsUnique(lo1: int, hi1: int, lo2: int, hi2: int, b: int)
    requires 0 <= lo1 < b && 0 <= lo2 < b
    requires lo1 + b * hi1 == lo2 + b * hi2
    ensures lo1 == lo2 && hi1 == hi2
  {
    assert (hi1 - hi2) * b == lo2 - lo1;
    SmallMultiple(hi1 - hi2, b);
  }

  /** Distinct cells of the grid read distinct buffer elements. */
  lemma FlatIndexInjective(p: Pos, q: Pos, ldl: int, n: int)
    requires 0 <= p.k < ldl && 0 <= q.k < ldl
    requires 0 <= p.j < n && 0 <= q.j < n
    requires FlatIndex(p, ldl, n) == FlatIndex(q, ldl, n)
    ensures p == q
  {
    DigitsUnique(p.k, p.j + n * p.i, q.k, q.j + n * q.i, ldl);
    DigitsUnique(p.j, p.i, q.j, q.i, n);
  }
}
